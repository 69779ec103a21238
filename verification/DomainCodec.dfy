/** Stored domain objects: a struct to tagged items and back. */
module DomainCodec {
  import opened Bytes
  import opened Tlv

  type Text = seq<byte>

  const MAX_ARR := 16
  const MAX_DIGEST := 68
  const VERSION: byte := 1

  const ROID: byte := 1
  const STATUS: byte := 2
  const AUTHINFO: byte := 3
  const CRDATE: byte := 4
  const EXDATE: byte := 5
  const REGISTRANT: byte := 6
  const NS: byte := 7
  const CLID: byte := 13
  const RGP_STATE: byte := 14
  const RGP_UNTIL: byte := 15
  const DS: byte := 16
  const TRANSFER_REID: byte := 17
  const TRANSFER_REDATE: byte := 18
  const TRANSFER_STATUS: byte := 19

  datatype DsData = DsData(keytag: u16, alg: byte, digtype: byte, digest: seq<byte>)

  datatype Domain = Domain(
    roid: Text, clid: Text, status: seq<Text>, authinfo: Text, crdate: u32, exdate: u32, registrant: Text,
    ns: seq<Text>, ds: seq<DsData>, rgpState: byte, rgpUntil: u32,
    transferReid: Text, transferRedate: u32, transferStatus: Text)

  const BLANK := Domain([], [], [], [], 0, 0, [], [], [], 0, 0, [], 0, [])

  // ---- encoding ------------------------------------------------------------

  /** Nothing is stored for an empty string or a zero. */
  function OptText(tag: byte, t: Text): (r: seq<Item>)
    requires |t| < 0x1_0000
    ensures ItemsOk(r)
  {
    if t == [] then [] else [Item(tag, t)]
  }

  function OptU32(tag: byte, v: u32): (r: seq<Item>)
    ensures ItemsOk(r)
  {
    if v == 0 then [] else [Item(tag, Put32(v))]
  }

  function OptU8(tag: byte, v: byte): (r: seq<Item>)
    ensures ItemsOk(r)
  {
    if v == 0 then [] else [Item(tag, [v])]
  }

  predicate AllShort(ts: seq<Text>, cap: nat) {
    forall i :: 0 <= i < |ts| ==> |ts[i]| < cap
  }

  function Texts(tag: byte, ts: seq<Text>): (r: seq<Item>)
    requires AllShort(ts, 0x1_0000)
    ensures ItemsOk(r) && |r| == |ts|
  {
    seq(|ts|, i requires 0 <= i < |ts| => Item(tag, ts[i]))
  }

  function DsBytes(e: DsData): (r: seq<byte>)
    requires |e.digest| <= MAX_DIGEST
    ensures |r| == 4 + |e.digest|
  {
    Put16(e.keytag) + [e.alg, e.digtype] + e.digest
  }

  predicate DigestsOk(es: seq<DsData>) {
    forall i :: 0 <= i < |es| ==> |es[i].digest| <= MAX_DIGEST
  }

  function DsItems(es: seq<DsData>): (r: seq<Item>)
    requires DigestsOk(es)
    ensures ItemsOk(r) && |r| == |es|
  {
    seq(|es|, i requires 0 <= i < |es| => Item(DS, DsBytes(es[i])))
  }

  /** Every string fits its buffer and every list its array. */
  predicate WellFormed(d: Domain) {
    && |d.roid| < 32 && |d.clid| < 64 && |d.status| <= MAX_ARR && AllShort(d.status, 32) && |d.authinfo| < 256
    && |d.registrant| < 64 && |d.ns| <= MAX_ARR && AllShort(d.ns, 256) && |d.ds| <= MAX_ARR && DigestsOk(d.ds)
    && |d.transferReid| < 64 && |d.transferStatus| < 24
  }

  /** The items of a domain, in the order they are written. */
  function Parts(d: Domain): (r: seq<seq<Item>>)
    requires WellFormed(d)
    ensures |r| == 14 && forall i :: 0 <= i < |r| ==> ItemsOk(r[i])
  {
    [[Item(ROID, d.roid)], OptText(CLID, d.clid), Texts(STATUS, d.status), OptText(AUTHINFO, d.authinfo),
     [Item(CRDATE, Put32(d.crdate))], OptU32(EXDATE, d.exdate), OptText(REGISTRANT, d.registrant),
     Texts(NS, d.ns), DsItems(d.ds), OptU8(RGP_STATE, d.rgpState), OptU32(RGP_UNTIL, d.rgpUntil),
     OptText(TRANSFER_REID, d.transferReid), OptU32(TRANSFER_REDATE, d.transferRedate),
     OptText(TRANSFER_STATUS, d.transferStatus)]
  }

  function Flat(ps: seq<seq<Item>>): (r: seq<Item>)
    requires forall i :: 0 <= i < |ps| ==> ItemsOk(ps[i])
    ensures ItemsOk(r)
  {
    if ps == [] then []
    else
      var a, b := Flat(ps[..|ps| - 1]), ps[|ps| - 1];
      EncodeSplit(a, b);
      a + b
  }

  function Items(d: Domain): (r: seq<Item>)
    requires WellFormed(d)
    ensures ItemsOk(r)
  {
    Flat(Parts(d))
  }

  function Blob(its: seq<Item>): seq<byte>
    requires ItemsOk(its)
  {
    [VERSION] + EncodeItems(its)
  }

  /** None when the blob is longer than the buffer. */
  function Encode(d: Domain, cap: nat): Option<seq<byte>>
    requires WellFormed(d)
  {
    var b := Blob(Items(d));
    if |b| <= cap then Some(b) else None
  }

  // ---- the length of a blob ------------------------------------------------

  function TextLen(t: Text): nat { if t == [] then 0 else HDR_LEN + |t| }

  function WordLen(v: u32): nat { if v == 0 then 0 else HDR_LEN + 4 }

  function TextsLen(ts: seq<Text>): nat {
    if ts == [] then 0 else HDR_LEN + |ts[0]| + TextsLen(ts[1..])
  }

  function DsLen(es: seq<DsData>): nat {
    if es == [] then 0 else HDR_LEN + 4 + |es[0].digest| + DsLen(es[1..])
  }

  /** The number of bytes that a domain takes. */
  function Length(d: Domain): nat {
    1 + HDR_LEN + |d.roid| + TextLen(d.clid) + TextsLen(d.status) + TextLen(d.authinfo) + HDR_LEN + 4
    + WordLen(d.exdate) + TextLen(d.registrant) + TextsLen(d.ns) + DsLen(d.ds)
    + (if d.rgpState == 0 then 0 else HDR_LEN + 1) + WordLen(d.rgpUntil) + TextLen(d.transferReid)
    + WordLen(d.transferRedate) + TextLen(d.transferStatus)
  }

  lemma OneLength(it: Item)
    requires ItemOk(it)
    ensures |EncodeItems([it])| == HDR_LEN + |it.val| && EncodeItems([]) == []
  {
    hide EncodeItem;
    assert [it][1..] == [];
  }

  lemma {:induction false} TextsLength(tag: byte, ts: seq<Text>)
    requires AllShort(ts, 0x1_0000)
    ensures |EncodeItems(Texts(tag, ts))| == TextsLen(ts)
  {
    hide EncodeItem;
    if ts != [] {
      TextsLength(tag, ts[1..]);
      assert Texts(tag, ts)[1..] == Texts(tag, ts[1..]);
    }
  }

  lemma {:induction false} DsLength(es: seq<DsData>)
    requires DigestsOk(es)
    ensures |EncodeItems(DsItems(es))| == DsLen(es)
  {
    hide EncodeItem, DsBytes;
    if es != [] {
      DsLength(es[1..]);
      assert DsItems(es)[1..] == DsItems(es[1..]);
    }
  }

  /** The lengths of the parts of a domain. */
  function PartLens(d: Domain): (r: seq<nat>)
    ensures |r| == 14
  {
    [HDR_LEN + |d.roid|, TextLen(d.clid), TextsLen(d.status), TextLen(d.authinfo), HDR_LEN + 4, WordLen(d.exdate),
     TextLen(d.registrant), TextsLen(d.ns), DsLen(d.ds), if d.rgpState == 0 then 0 else HDR_LEN + 1,
     WordLen(d.rgpUntil), TextLen(d.transferReid), WordLen(d.transferRedate), TextLen(d.transferStatus)]
  }

  lemma OptLength(tag: byte, t: Text, v: u32, b: byte)
    requires |t| < 0x1_0000
    ensures |EncodeItems(OptText(tag, t))| == TextLen(t) && |EncodeItems(OptU32(tag, v))| == WordLen(v)
    ensures |EncodeItems(OptU8(tag, b))| == if b == 0 then 0 else HDR_LEN + 1
  {
    hide EncodeItems, Put32;
    OneLength(Item(tag, t));
    OneLength(Item(tag, Put32(v)));
    OneLength(Item(tag, [b]));
  }

  lemma PartLength(d: Domain, i: nat)
    requires WellFormed(d) && i < 14
    ensures |EncodeItems(Parts(d)[i])| == PartLens(d)[i]
  {
    hide EncodeItems, OptText, OptU32, OptU8, Texts, DsItems, TextLen, WordLen, TextsLen, DsLen, Put32;
    OptLength(CLID, d.clid, d.exdate, d.rgpState);
    OptLength(AUTHINFO, d.authinfo, d.rgpUntil, d.rgpState);
    OptLength(REGISTRANT, d.registrant, d.transferRedate, d.rgpState);
    OptLength(TRANSFER_REID, d.transferReid, 0, 0);
    OptLength(TRANSFER_STATUS, d.transferStatus, 0, 0);
    OptLength(EXDATE, [], d.exdate, 0);
    OptLength(RGP_UNTIL, [], d.rgpUntil, 0);
    OptLength(TRANSFER_REDATE, [], d.transferRedate, 0);
    OptLength(RGP_STATE, [], 0, d.rgpState);
    OneLength(Item(ROID, d.roid));
    OneLength(Item(CRDATE, Put32(d.crdate)));
    TextsLength(STATUS, d.status);
    TextsLength(NS, d.ns);
    DsLength(d.ds);
  }

  function Total(ns: seq<nat>): nat { if ns == [] then 0 else Total(ns[..|ns| - 1]) + ns[|ns| - 1] }

  lemma {:induction false} FlatLength(ps: seq<seq<Item>>, ns: seq<nat>)
    requires |ps| == |ns| && forall i :: 0 <= i < |ps| ==> ItemsOk(ps[i]) && |EncodeItems(ps[i])| == ns[i]
    ensures |EncodeItems(Flat(ps))| == Total(ns)
    decreases |ps|
  {
    hide EncodeItem, ItemOk;
    if ps == [] {
      assert EncodeItems(Flat(ps)) == [];
    } else {
      var k := |ps| - 1;
      FlatLength(ps[..k], ns[..k]);
      EncodeSplit(Flat(ps[..k]), ps[k]);
    }
  }

  lemma {:induction false} TotalSplit(a: seq<nat>, b: nat)
    ensures Total(a + [b]) == Total(a) + b
  {
    assert (a + [b])[..|a|] == a;
  }

  /** A domain encodes into exactly that many bytes. */
  lemma BlobLength(d: Domain)
    requires WellFormed(d)
    ensures |Blob(Items(d))| == Length(d)
  {
    hide EncodeItems, Parts, Flat, TextLen, WordLen, TextsLen, DsLen;
    forall i | 0 <= i < 14 ensures |EncodeItems(Parts(d)[i])| == PartLens(d)[i] {
      PartLength(d, i);
    }
    FlatLength(Parts(d), PartLens(d));
    TotalOf(PartLens(d));
  }

  lemma TotalOf(n: seq<nat>)
    requires |n| == 14
    ensures Total(n) == n[0] + n[1] + n[2] + n[3] + n[4] + n[5] + n[6] + n[7] + n[8] + n[9] + n[10] + n[11] + n[12] + n[13]
  {
    hide Total;
    forall k | 0 <= k < 14 ensures Total(n[..k + 1]) == Total(n[..k]) + n[k] {
      assert n[..k + 1] == n[..k] + [n[k]];
      TotalSplit(n[..k], n[k]);
    }
    assert Total(n[..0]) == 0 by { TotalNone(n[..0]); }
    assert n[..14] == n;
    assert Total(n[..5]) == n[0] + n[1] + n[2] + n[3] + n[4];
    assert Total(n[..10]) == Total(n[..5]) + n[5] + n[6] + n[7] + n[8] + n[9];
  }

  lemma TotalNone(n: seq<nat>)
    requires n == []
    ensures Total(n) == 0
  {
  }

  // ---- decoding ------------------------------------------------------------

  function U32Of(v: seq<byte>): u32 {
    if |v| != 4 then 0 else Word(v[3], v[2], v[1], v[0])
  }

  function DsOf(v: seq<byte>): DsData
    requires |v| >= 4
  {
    DsData(v[0] as int * 256 + v[1] as int, v[2], v[3], v[4..])
  }

  /** One item into the struct; what does not fit, and any unknown tag, is
      skipped. */
  function Apply(d: Domain, it: Item): Domain {
    var v := it.val;
    if it.tag == ROID then if |v| < 32 then d.(roid := v) else d
    else if it.tag == STATUS then if |d.status| < MAX_ARR && |v| < 32 then d.(status := d.status + [v]) else d
    else if it.tag == AUTHINFO then if |v| < 256 then d.(authinfo := v) else d
    else if it.tag == CRDATE then d.(crdate := U32Of(v))
    else if it.tag == EXDATE then d.(exdate := U32Of(v))
    else if it.tag == REGISTRANT then if |v| < 64 then d.(registrant := v) else d
    else if it.tag == NS then if |d.ns| < MAX_ARR && |v| < 256 then d.(ns := d.ns + [v]) else d
    else if it.tag == CLID then if |v| < 64 then d.(clid := v) else d
    else if it.tag == DS then
      if |d.ds| < MAX_ARR && 4 <= |v| && |v| - 4 <= MAX_DIGEST then d.(ds := d.ds + [DsOf(v)]) else d
    else if it.tag == RGP_STATE then if |v| == 1 then d.(rgpState := v[0]) else d
    else if it.tag == RGP_UNTIL then d.(rgpUntil := U32Of(v))
    else if it.tag == TRANSFER_REID then if |v| < 64 then d.(transferReid := v) else d
    else if it.tag == TRANSFER_REDATE then d.(transferRedate := U32Of(v))
    else if it.tag == TRANSFER_STATUS then if |v| < 24 then d.(transferStatus := v) else d
    else d
  }

  function ApplyAll(d: Domain, its: seq<Item>): Domain
    decreases |its|
  {
    if its == [] then d else ApplyAll(Apply(d, its[0]), its[1..])
  }

  function DecodeFrom(f: seq<byte>, p: nat, d: Domain): Option<Domain>
    decreases if p <= |f| then |f| - p else 0
  {
    match NextItem(f, p)
    case End => Some(d)
    case Bad => None
    case Found(it, q) => DecodeFrom(f, q, Apply(d, it))
  }

  function Decode(f: seq<byte>): Option<Domain> { DecodeFrom(f, 1, BLANK) }

  predicate Known(tag: byte) { 1 <= tag <= 7 || 13 <= tag <= 19 }

  /** The items with a known tag, in order. */
  function Recognised(its: seq<Item>): seq<Item> {
    if its == [] then [] else (if Known(its[0].tag) then [its[0]] else []) + Recognised(its[1..])
  }

  // ---- decoding is a fold over items ---------------------------------------

  lemma {:induction false} DecodeIsFold(f: seq<byte>, p: nat, its: seq<Item>, d: Domain)
    requires ItemsOk(its) && At(f, p, EncodeItems(its)) && p + |EncodeItems(its)| == |f|
    ensures DecodeFrom(f, p, d) == Some(ApplyAll(d, its))
    decreases |its|
  {
    hide EncodeItem, Apply, ItemOk;
    if its != [] {
      AtConcat(f, p, EncodeItem(its[0]), EncodeItems(its[1..]));
      ItemRead(f, p, its[0]);
      hide NextItem;
      DecodeIsFold(f, p + |EncodeItem(its[0])|, its[1..], Apply(d, its[0]));
    }
  }

  lemma {:induction false} ApplySplit(d: Domain, a: seq<Item>, b: seq<Item>)
    ensures ApplyAll(d, a + b) == ApplyAll(ApplyAll(d, a), b)
    decreases |a|
  {
    hide Apply;
    if a == [] {
      assert a + b == b;
    } else {
      assert (a + b)[0] == a[0] && (a + b)[1..] == a[1..] + b;
      ApplySplit(Apply(d, a[0]), a[1..], b);
    }
  }

  lemma UnknownSkipped(d: Domain, it: Item)
    requires !Known(it.tag)
    ensures Apply(d, it) == d
  {
  }

  lemma {:induction false} RecognisedOnly(d: Domain, its: seq<Item>)
    ensures ApplyAll(d, its) == ApplyAll(d, Recognised(its))
    decreases |its|
  {
    hide Apply, Known;
    if its != [] {
      RecognisedOnly(Apply(d, its[0]), its[1..]);
      if Known(its[0].tag) {
        assert Recognised(its)[0] == its[0] && Recognised(its)[1..] == Recognised(its[1..]);
      } else {
        UnknownSkipped(d, its[0]);
        assert [] + Recognised(its[1..]) == Recognised(its[1..]);
      }
    }
  }

  // ---- round trip ----------------------------------------------------------

  lemma ApplyOne(d: Domain, it: Item)
    ensures ApplyAll(d, [it]) == Apply(d, it) && ApplyAll(d, []) == d
  {
    hide Apply;
    assert [it][1..] == [];
  }

  lemma WordBack(v: u32)
    ensures U32Of(Put32(v)) == v
  {
    var hi, lo := v / 0x1_0000, v % 0x1_0000;
    assert v == hi * 0x1_0000 + lo;
    assert hi == hi / 256 * 256 + hi % 256 && lo == lo / 256 * 256 + lo % 256;
  }

  lemma DsBack(e: DsData)
    requires |e.digest| <= MAX_DIGEST
    ensures DsOf(DsBytes(e)) == e
  {
    assert DsBytes(e)[4..] == e.digest;
    assert e.keytag == e.keytag / 256 * 256 + e.keytag % 256;
  }

  lemma {:induction false} StatusBack(d: Domain, ts: seq<Text>)
    requires |d.status| + |ts| <= MAX_ARR && AllShort(ts, 32)
    ensures ApplyAll(d, Texts(STATUS, ts)) == d.(status := d.status + ts)
    decreases |ts|
  {
    if ts == [] {
      assert d.status + ts == d.status;
    } else {
      var its, t := Texts(STATUS, ts), ts[0];
      assert its[0] == Item(STATUS, t) && its[1..] == Texts(STATUS, ts[1..]);
      StatusBack(d.(status := d.status + [t]), ts[1..]);
      assert d.status + [t] + ts[1..] == d.status + ts;
    }
  }

  lemma {:induction false} NsBack(d: Domain, ts: seq<Text>)
    requires |d.ns| + |ts| <= MAX_ARR && AllShort(ts, 256)
    ensures ApplyAll(d, Texts(NS, ts)) == d.(ns := d.ns + ts)
    decreases |ts|
  {
    if ts == [] {
      assert d.ns + ts == d.ns;
    } else {
      var its, t := Texts(NS, ts), ts[0];
      assert its[0] == Item(NS, t) && its[1..] == Texts(NS, ts[1..]);
      NsBack(d.(ns := d.ns + [t]), ts[1..]);
      assert d.ns + [t] + ts[1..] == d.ns + ts;
    }
  }

  lemma {:induction false} DsListBack(d: Domain, es: seq<DsData>)
    requires |d.ds| + |es| <= MAX_ARR && DigestsOk(es)
    ensures ApplyAll(d, DsItems(es)) == d.(ds := d.ds + es)
    decreases |es|
  {
    hide DsBytes, DsOf;
    if es == [] {
      assert d.ds + es == d.ds;
    } else {
      var its, e := DsItems(es), es[0];
      assert its[0] == Item(DS, DsBytes(e)) && its[1..] == DsItems(es[1..]);
      DsBack(e);
      DsListBack(d.(ds := d.ds + [e]), es[1..]);
      assert d.ds + [e] + es[1..] == d.ds + es;
    }
  }

  /** The struct after the first `k` parts of `d` have been read. */
  function Upto(d: Domain, k: nat): Domain {
    Domain(if k > 0 then d.roid else [], if k > 1 then d.clid else [], if k > 2 then d.status else [],
           if k > 3 then d.authinfo else [], if k > 4 then d.crdate else 0, if k > 5 then d.exdate else 0,
           if k > 6 then d.registrant else [], if k > 7 then d.ns else [], if k > 8 then d.ds else [],
           if k > 9 then d.rgpState else 0, if k > 10 then d.rgpUntil else 0, if k > 11 then d.transferReid else [],
           if k > 12 then d.transferRedate else 0, if k > 13 then d.transferStatus else [])
  }

  lemma TextPart(d: Domain, tag: byte, t: Text)
    requires |t| < 0x1_0000
    ensures ApplyAll(d, OptText(tag, t)) == if t == [] then d else Apply(d, Item(tag, t))
  {
    hide Apply;
    ApplyOne(d, Item(tag, t));
  }

  lemma WordPart(d: Domain, tag: byte, v: u32)
    ensures ApplyAll(d, OptU32(tag, v)) == if v == 0 then d else Apply(d, Item(tag, Put32(v)))
    ensures U32Of(Put32(v)) == v
  {
    hide Apply, Put32;
    ApplyOne(d, Item(tag, Put32(v)));
    WordBack(v);
  }

  lemma TextPartBack(d: Domain, k: nat)
    requires WellFormed(d) && (k == 0 || k == 1 || k == 3 || k == 6 || k == 11 || k == 13)
    ensures ApplyAll(Upto(d, k), Parts(d)[k]) == Upto(d, k + 1)
  {
    hide ApplyAll, Put32, U32Of, Texts, DsItems, DsOf;
    var e := Upto(d, k);
    if k == 0 { ApplyOne(e, Item(ROID, d.roid)); }
    else if k == 1 { TextPart(e, CLID, d.clid); }
    else if k == 3 { TextPart(e, AUTHINFO, d.authinfo); }
    else if k == 6 { TextPart(e, REGISTRANT, d.registrant); }
    else if k == 11 { TextPart(e, TRANSFER_REID, d.transferReid); }
    else { TextPart(e, TRANSFER_STATUS, d.transferStatus); }
  }

  lemma WordPartBack(d: Domain, k: nat)
    requires WellFormed(d) && (k == 4 || k == 5 || k == 9 || k == 10 || k == 12)
    ensures ApplyAll(Upto(d, k), Parts(d)[k]) == Upto(d, k + 1)
  {
    hide ApplyAll, Put32, U32Of, Texts, DsItems, DsOf;
    var e := Upto(d, k);
    if k == 4 { ApplyOne(e, Item(CRDATE, Put32(d.crdate))); WordBack(d.crdate); }
    else if k == 5 { WordPart(e, EXDATE, d.exdate); }
    else if k == 9 { ApplyOne(e, Item(RGP_STATE, [d.rgpState])); }
    else if k == 10 { WordPart(e, RGP_UNTIL, d.rgpUntil); }
    else { WordPart(e, TRANSFER_REDATE, d.transferRedate); }
  }

  lemma ListPartBack(d: Domain, k: nat)
    requires WellFormed(d) && (k == 2 || k == 7 || k == 8)
    ensures ApplyAll(Upto(d, k), Parts(d)[k]) == Upto(d, k + 1)
  {
    hide ApplyAll, Apply, Put32, Texts, DsItems;
    var e := Upto(d, k);
    if k == 2 { StatusBack(e, d.status); assert [] + d.status == d.status; }
    else if k == 7 { NsBack(e, d.ns); assert [] + d.ns == d.ns; }
    else { DsListBack(e, d.ds); assert [] + d.ds == d.ds; }
  }

  /** Each part restores its own field. */
  lemma PartBack(d: Domain, k: nat)
    requires WellFormed(d) && k < 14
    ensures ApplyAll(Upto(d, k), Parts(d)[k]) == Upto(d, k + 1)
  {
    hide ApplyAll, Upto, Parts, WellFormed;
    if k == 2 || k == 7 || k == 8 { ListPartBack(d, k); }
    else if k == 4 || k == 5 || k == 9 || k == 10 || k == 12 { WordPartBack(d, k); }
    else { TextPartBack(d, k); }
  }

  lemma {:induction false} PartsBack(d: Domain, k: nat)
    requires WellFormed(d) && k <= 14
    ensures ApplyAll(BLANK, Flat(Parts(d)[..k])) == Upto(d, k)
  {
    hide Parts, Upto, ApplyAll, WellFormed, ItemOk;
    if k == 0 {
      ApplyOne(BLANK, Item(0, []));
      assert Upto(d, 0) == BLANK by { UptoNone(d); }
    } else {
      var ps := Parts(d)[..k];
      assert ps[..k - 1] == Parts(d)[..k - 1] && ps[k - 1] == Parts(d)[k - 1];
      PartsBack(d, k - 1);
      PartBack(d, k - 1);
      ApplySplit(BLANK, Flat(ps[..k - 1]), ps[k - 1]);
    }
  }

  lemma UptoNone(d: Domain)
    ensures Upto(d, 0) == BLANK && Upto(d, 14) == d
  {
  }

  lemma ItemsBack(d: Domain)
    requires WellFormed(d)
    ensures ApplyAll(BLANK, Items(d)) == d
  {
    hide Parts, ApplyAll, Flat, Upto, WellFormed;
    assert Parts(d)[..14] == Parts(d);
    PartsBack(d, 14);
    UptoNone(d);
  }

  lemma DecodeBlob(its: seq<Item>)
    requires ItemsOk(its)
    ensures Decode(Blob(its)) == Some(ApplyAll(BLANK, its))
  {
    hide ApplyAll, DecodeFrom;
    var f := Blob(its);
    assert At(f, 1, EncodeItems(its));
    DecodeIsFold(f, 1, its, BLANK);
  }

  /** Items with other tags, however many and wherever inserted, do not change
      what is decoded. */
  lemma ForwardCompatible(d: Domain, its: seq<Item>)
    requires WellFormed(d) && ItemsOk(its) && Recognised(its) == Recognised(Items(d))
    ensures Decode(Blob(its)) == Some(d)
  {
    hide Decode, Blob, ApplyAll, Recognised, Items, WellFormed;
    DecodeBlob(its);
    RecognisedOnly(BLANK, its);
    RecognisedOnly(BLANK, Items(d));
    ItemsBack(d);
  }

  /** A domain that encodes is read back from its stored text, unchanged. */
  lemma StoredRoundTrip(d: Domain, cap: nat)
    requires WellFormed(d) && Encode(d, cap).Some?
    ensures Decode(HexDec(HexEnc(Encode(d, cap).value), cap)) == Some(d)
  {
    hide Decode, Blob, Items, WellFormed, HexDec, HexEnc;
    HexRoundTrip(Encode(d, cap).value, cap);
    ForwardCompatible(d, Items(d));
  }

  // ---- decoding always yields a struct that fits ---------------------------

  lemma ApplyFits(d: Domain, it: Item)
    requires WellFormed(d)
    ensures WellFormed(Apply(d, it))
  {
  }

  lemma {:induction false} DecodeFits(f: seq<byte>, p: nat, d: Domain)
    requires WellFormed(d)
    ensures DecodeFrom(f, p, d).Some? ==> WellFormed(DecodeFrom(f, p, d).value)
    decreases if p <= |f| then |f| - p else 0
  {
    hide WellFormed, Apply, NextItem;
    match NextItem(f, p)
    case Found(it, q) =>
      ApplyFits(d, it);
      DecodeFits(f, q, Apply(d, it));
    case _ =>
  }

  // ---- the loops over buffers ----------------------------------------------

  method DecodeDomain(buf: array<byte>, len: nat) returns (r: Option<Domain>)
    requires len <= buf.Length
    ensures r == Decode(buf[..len])
    ensures r.Some? ==> WellFormed(r.value)
  {
    hide Apply, NextItem, WellFormed;
    ghost var f := buf[..len];
    assert WellFormed(BLANK) by { BlankFits(); }
    DecodeFits(f, 1, BLANK);
    var d, p := BLANK, 1;
    while true
      invariant DecodeFrom(f, p, d) == Decode(f)
      decreases if p <= len then len - p else 0
    {
      var n := NextItem(buf[..len], p);
      match n
      case End => return Some(d);
      case Bad => return None;
      case Found(it, q) => d, p := Apply(d, it), q;
    }
  }

  lemma BlankFits()
    ensures WellFormed(BLANK)
  {
  }

  /** Appends items until one does not fit. */
  method PutItems(buf: array<byte>, off: int, its: seq<Item>) returns (r: int)
    requires off <= buf.Length && ItemsOk(its)
    modifies buf
    ensures off < 0 ==> r == -1
    ensures off >= 0 ==> r == (if off + |EncodeItems(its)| <= buf.Length then off + |EncodeItems(its)| else -1)
    ensures r >= 0 && off >= 0 ==> buf[..r] == old(buf[..off]) + EncodeItems(its)
  {
    hide EncodeItem, ItemOk;
    if off < 0 { return -1; }
    r := off;
    ghost var b0 := buf[..off];
    assert b0 + [] == b0 && its[0..] == its;
    for i := 0 to |its|
      invariant ItemsOk(its[..i]) && ItemsOk(its[i..])
      invariant -1 <= r <= buf.Length
      invariant r >= 0 ==> r == off + |EncodeItems(its[..i])| && buf[..r] == b0 + EncodeItems(its[..i])
      invariant r < 0 ==> off + |EncodeItems(its[..i])| > buf.Length
    {
      ItemStep(its, i);
      if r >= 0 {
        ghost var was := buf[..r];
        r := PutItem(buf, r, its[i]);
        assert (b0 + EncodeItems(its[..i])) + EncodeItem(its[i]) == b0 + (EncodeItems(its[..i]) + EncodeItem(its[i]));
      }
    }
    assert its[..|its|] == its;
  }

  lemma ItemStep(its: seq<Item>, i: nat)
    requires i < |its| && ItemsOk(its)
    ensures ItemsOk(its[..i]) && ItemsOk(its[..i + 1])
    ensures EncodeItems(its[..i + 1]) == EncodeItems(its[..i]) + EncodeItem(its[i])
  {
    hide EncodeItem;
    assert its[..i + 1] == its[..i] + [its[i]];
    EncodeSplit(its[..i], [its[i]]);
    assert [its[i]][1..] == [];
    assert EncodeItem(its[i]) + [] == EncodeItem(its[i]);
  }

  /** Field by field into the buffer, giving up at the first that is too much. */
  method EncodeDomain(d: Domain, buf: array<byte>) returns (r: int)
    requires WellFormed(d)
    modifies buf
    ensures r >= 0 <==> Encode(d, buf.Length).Some?
    ensures r >= 0 ==> r <= buf.Length && buf[..r] == Encode(d, buf.Length).value
  {
    hide EncodeItems, ItemOk, WellFormed, Parts;
    if buf.Length < 1 { return -1; }
    buf[0] := VERSION;
    r := 1;
    var ps := Parts(d);
    assert buf[..1] == [VERSION] && [VERSION] + [] == [VERSION] && ps[..0] == [];
    NoItems();
    for k := 0 to 14
      invariant -1 <= r <= buf.Length && r != 0
      invariant r >= 0 ==> r == 1 + |EncodeItems(Flat(ps[..k]))| && buf[..r] == [VERSION] + EncodeItems(Flat(ps[..k]))
      invariant r < 0 ==> 1 + |EncodeItems(Flat(ps[..k]))| > buf.Length
    {
      FlatStep(ps, k);
      var s := PutItems(buf, r, ps[k]);
      assert r >= 0 && s >= 0 ==>
          ([VERSION] + EncodeItems(Flat(ps[..k]))) + EncodeItems(ps[k]) ==
          [VERSION] + (EncodeItems(Flat(ps[..k])) + EncodeItems(ps[k]));
      r := s;
    }
    assert ps[..14] == ps;
  }

  lemma NoItems()
    ensures Flat([]) == [] && EncodeItems([]) == []
  {
  }

  lemma FlatStep(ps: seq<seq<Item>>, k: nat)
    requires k < |ps| && forall i :: 0 <= i < |ps| ==> ItemsOk(ps[i])
    ensures EncodeItems(Flat(ps[..k + 1])) == EncodeItems(Flat(ps[..k])) + EncodeItems(ps[k])
  {
    hide EncodeItems, ItemOk;
    assert ps[..k + 1][..k] == ps[..k];
    EncodeSplit(Flat(ps[..k]), ps[k]);
  }
}
