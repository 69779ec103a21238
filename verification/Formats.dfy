/** The formats byte by byte: number layouts, one record of each kind, and the smallest
    files, so that what is written is pinned apart from what reads it back. */
module Formats {
  import opened Bytes
  import opened Graph
  import W = Wal
  import S = Snapshot
  import V = VersionLog
  import T = Tlv
  import D = DomainCodec
  import F = Framing
  import H = HashIndex
  import R = WireWriter

  // ---- numbers -------------------------------------------------------------

  /** Files hold the low byte first. */
  lemma LittleEndian(a: byte, b: byte, c: byte, d: byte)
    ensures U32(a + 256 * (b + 256 * (c + 256 * d as int))) == [a, b, c, d]
  {
    LowStep(a, b + 256 * (c + 256 * d as int), 3);
    LowStep(b, c + 256 * d as int, 2);
    LowStep(c, d as int, 1);
    LowStep(d, 0, 0);
    LowNone(0);
  }

  lemma LowStep(a: byte, v: nat, n: nat)
    ensures Low(a + 256 * v, n + 1) == [a] + Low(v, n)
  {
    hide Low;
    LowOpen(a + 256 * v, n);
    assert (a + 256 * v) % 256 == a && (a + 256 * v) / 256 == v;
  }

  lemma LowOpen(v: nat, n: nat)
    ensures Low(v, n + 1) == [v % 256] + Low(v / 256, n)
  {
  }

  lemma LowNone(v: nat)
    ensures Low(v, 0) == []
  {
  }

  lemma SmallWord(n: byte)
    ensures U32(n) == [n, 0, 0, 0]
  {
    hide U32;
    LittleEndian(n, 0, 0, 0);
  }

  /** The wire holds the high byte first. */
  lemma BigEndian(a: byte, b: byte, c: byte, d: byte)
    ensures Put16(256 * a as int + b) == [a, b]
    ensures Put32(0x1_0000 * (256 * a as int + b) + (256 * c as int + d)) == [a, b, c, d]
  {
    var hi, lo := 256 * a as int + b, 256 * c as int + d;
    assert (0x1_0000 * hi + lo) / 0x1_0000 == hi && (0x1_0000 * hi + lo) % 0x1_0000 == lo;
    assert hi / 256 == a && hi % 256 == b && lo / 256 == c && lo % 256 == d;
  }

  /** Signed numbers are two's complement, low word first. */
  lemma TwosComplement(lo: u32, hi: u32)
    ensures hi < 0x8000_0000 ==> I64(lo + 0x1_0000_0000 * hi as int) == U32(lo) + U32(hi)
    ensures hi >= 0x8000_0000 ==> I64(lo + 0x1_0000_0000 * (hi as int - 0x1_0000_0000)) == U32(lo) + U32(hi)
  {
    hide U32;
    var w := lo + 0x1_0000_0000 * hi as int;
    assert w % 0x1_0000_0000 == lo && w / 0x1_0000_0000 == hi;
  }

  lemma SmallInt(n: byte)
    ensures I64(n) == [n, 0, 0, 0, 0, 0, 0, 0]
  {
    hide U32, I64;
    TwosComplement(n, 0);
    SmallWord(n);
    SmallWord(0);
  }

  // ---- the write-ahead log -------------------------------------------------

  /** A small number in four bytes. */
  function Le(n: byte): seq<byte> { [n, 0, 0, 0] }

  /** The file starts with "POGW", version 1 and the generation; a transaction stands
      between its marks. */
  lemma LogBytes(n: byte, m: byte)
    ensures W.Header(n) == [80, 79, 71, 87] + (Le(1) + Le(n))
    ensures W.EncodeTxn(W.Txn(m, [])) == [1] + Le(m) + ([] + ([2] + Le(m)))
  {
    hide U32;
    LittleEndian(80, 79, 71, 87);
    SmallWord(1); SmallWord(n); SmallWord(m);
    assert W.EncodeRedos([]) == [];
  }

  lemma TextBytes(b: byte)
    ensures Str([b]) == Le(1) + [b]
  {
    hide U32;
    SmallWord(1);
  }

  lemma CreateBytes(a: byte, b: byte, c: byte)
    ensures W.Encode(WCreate(a, Composite([], []))) == [10] + (Le(a) + [])
    ensures W.Encode(WCreate(a, IntVal(b))) == [11] + (Le(a) + [b, 0, 0, 0, 0, 0, 0, 0])
    ensures W.Encode(WCreate(a, StrVal([b]))) == [12] + (Le(a) + (Le(1) + [b]))
    ensures W.Encode(WCreate(a, ListVal([]))) == [13] + (Le(a) + [])
    ensures W.Encode(WCreate(a, VListVal([b], c))) == [14] + (Le(a) + (Le(1) + [b] + Le(c)))
    ensures W.Encode(WCreate(a, BlobVal([b]))) == [15] + (Le(a) + (Le(1) + [b]))
  {
    hide U32, I64, Str;
    SmallWord(a); SmallWord(c);
    SmallInt(b);
    TextBytes(b);
  }

  lemma ChangeBytes(a: byte, b: byte, c: byte)
    ensures W.Encode(WSetValue(a, IntVal(b))) == [20] + (Le(a) + [b, 0, 0, 0, 0, 0, 0, 0])
    ensures W.Encode(WSetValue(a, StrVal([b]))) == [21] + (Le(a) + (Le(1) + [b]))
    ensures W.Encode(WSetField(a, [b], c)) == [22] + (Le(a) + (Le(1) + [b] + Le(c)))
    ensures W.Encode(WSetValue(a, BlobVal([b]))) == [23] + (Le(a) + (Le(1) + [b]))
  {
    hide U32, I64, Str;
    SmallWord(a); SmallWord(c);
    SmallInt(b);
    TextBytes(b);
  }

  lemma ListBytes(a: byte, b: byte, c: byte)
    ensures W.Encode(WListAppend(a, b)) == [30] + (Le(a) + Le(b))
    ensures W.Encode(WListSet(a, b, c)) == [31] + (Le(a) + (Le(b) + Le(c)))
    ensures W.Encode(WListInsert(a, b, c)) == [32] + (Le(a) + (Le(b) + Le(c)))
    ensures W.Encode(WListRemove(a, b)) == [33] + (Le(a) + Le(b))
  {
    hide U32;
    SmallWord(a); SmallWord(b); SmallWord(c);
  }

  lemma NameBytes(a: byte, b: byte)
    ensures W.Encode(WBind([a], b)) == [40] + (Le(1) + [a] + Le(b))
    ensures W.Encode(WUnbind([a])) == [41] + (Le(1) + [a])
    ensures W.Encode(WSetClass(a, [b])) == [50] + (Le(a) + (Le(1) + [b]))
  {
    hide U32, Str;
    SmallWord(a); SmallWord(b);
    TextBytes(a);
    TextBytes(b);
  }

  // ---- snapshot and version log --------------------------------------------

  lemma KindBytes(b: Body)
    ensures S.KindCode(b) == if b.Composite? then 0 else if b.IntVal? then 1 else if b.StrVal? then 2
                             else if b.ListVal? then 3 else if b.VListVal? then 4 else 5
  {
  }

  /** Composite objects and lists in a snapshot: their class, counts, keys and ids. */
  lemma BodyBytes(a: byte, b: byte, c: byte)
    ensures S.SaveBody(Composite([a], [Field([b], c)])) == Le(1) + [a] + (Le(1) + (Le(1) + [b] + (Le(c) + [])))
    ensures S.SaveBody(ListVal([a, b])) == Le(2) + (Le(a) + (Le(b) + []))
  {
    hide U32, Str;
    SmallWord(1); SmallWord(2); SmallWord(a); SmallWord(b); SmallWord(c);
    TextBytes(a); TextBytes(b);
    OneField([b], c);
    TwoIds(a, b);
  }

  lemma OneField(key: Text, v: byte)
    requires |key| < 64
    ensures S.SaveFields([Field(key, v)]) == Str(key) + (U32(v) + [])
  {
    hide U32, Str;
    var fs := [Field(key, v)];
    assert fs[1..] == [];
  }

  lemma TwoIds(a: byte, b: byte)
    ensures S.SaveIds([a, b]) == U32(a) + (U32(b) + [])
  {
    hide U32;
    var x: seq<Id> := [a, b];
    var y: seq<Id> := [b];
    assert x[1..] == y && y[1..] == [];
    assert S.SaveIds(y) == U32(b) + [];
  }

  /** The file starts with "POGE", version 4, generation, next id and object count, then
      the objects with their ids and kinds, and ends with the roots in use. */
  lemma SnapshotBytes(gen: byte, name: byte)
    ensures var s := State([1], map[1 := ListVal([])], 2, [Root([name], 1, true), Root([name], 0, false)], {});
            S.SnapFits(s) && S.Save(s, gen) ==
            [80, 79, 71, 69] + (Le(4) + (Le(gen) + (Le(2) + (Le(1)
              + ((Le(1) + ([3] + (Le(0) + [] + []))) + (Le(1) + (Le(1) + [name] + (Le(1) + []))))))))
  {
    hide U32, Str;
    LittleEndian(80, 79, 71, 69);
    SmallWord(4); SmallWord(gen); SmallWord(2); SmallWord(1); SmallWord(0);
    TextBytes(name);
    var s := State([1], map[1 := ListVal([])], 2, [Root([name], 1, true), Root([name], 0, false)], {});
    OneObject(s.heap);
    OneRoot([name]);
  }

  lemma OneObject(heap: map<Id, Body>)
    requires heap == map[1 := ListVal([])]
    ensures S.SaveObjs([1], heap) == U32(1) + ([3] + (U32(0) + [] + []))
  {
    hide U32;
    var ids: seq<Id> := [1];
    assert ids[1..] == [] && S.SaveObjs([], heap) == [];
    assert S.SaveBody(heap[1]) == U32(0) + [];
  }

  lemma OneRoot(name: Text)
    requires |name| < 64
    ensures var rs := [Root(name, 1, true), Root(name, 0, false)];
            S.UsedRoots(rs) == [Root(name, 1, true)] && S.SaveRoots(S.UsedRoots(rs)) == Str(name) + (U32(1) + [])
  {
    hide U32, Str;
    var a, b := [Root(name, 1, true)], [Root(name, 0, false)];
    assert (a + b)[1..] == b && b[1..] == [] && a[1..] == [];
    assert S.UsedRoots(b) == [];
    assert [Root(name, 1, true), Root(name, 0, false)] == a + b;
    assert a + [] == a;
  }

  lemma VersionBytes(v: byte, id: byte, cls: byte)
    ensures V.Header() == [80, 79, 71, 86] + Le(1)
    ensures V.EncodeChange(V.Change(id, true, [cls])) == Le(id) + ([1] + (Le(1) + [cls]))
    ensures V.EncodeChange(V.Change(id, false, [cls])) == Le(id) + ([0] + (Le(1) + [cls]))
    ensures V.EncodeRecord(V.Record(v, [V.Change(id, true, [cls])])) ==
            Le(v) + (Le(1) + (Le(id) + ([1] + (Le(1) + [cls])) + []))
  {
    hide U32, Str;
    LittleEndian(80, 79, 71, 86);
    SmallWord(v); SmallWord(id); SmallWord(1);
    TextBytes(cls);
    OneChange(V.Change(id, true, [cls]));
  }

  lemma OneChange(c: V.Change)
    requires |c.cls| < 0x1_0000_0000
    ensures V.EncodeChanges([c]) == V.EncodeChange(c) + []
  {
    hide U32, Str;
    assert [c][1..] == [];
  }

  // ---- stored domains and frames -------------------------------------------

  /** An item is a tag, a big-endian length and the value. */
  lemma ItemBytes(tag: byte, v: seq<byte>, a: byte, b: byte)
    requires |v| == 256 * a as int + b
    ensures T.EncodeItem(T.Item(tag, v)) == [tag, a, b] + v
  {
    BigEndian(a, b, 0, 0);
  }

  /** The tags of the fields, in the order in which they are written, and which of them
      are left out when empty. */
  lemma DomainTags(d: D.Domain)
    requires D.WellFormed(d)
    ensures var p := D.Parts(d);
            && p[0] == [T.Item(1, d.roid)]
            && p[1] == (if d.clid == [] then [] else [T.Item(13, d.clid)])
            && p[3] == (if d.authinfo == [] then [] else [T.Item(3, d.authinfo)])
            && p[4] == [T.Item(4, Put32(d.crdate))]
            && p[5] == (if d.exdate == 0 then [] else [T.Item(5, Put32(d.exdate))])
            && p[6] == (if d.registrant == [] then [] else [T.Item(6, d.registrant)])
  {
    hide Put32, Put16;
  }

  lemma TransferTags(d: D.Domain)
    requires D.WellFormed(d)
    ensures var p := D.Parts(d);
            && p[9] == (if d.rgpState == 0 then [] else [T.Item(14, [d.rgpState])])
            && p[10] == (if d.rgpUntil == 0 then [] else [T.Item(15, Put32(d.rgpUntil))])
            && p[11] == (if d.transferReid == [] then [] else [T.Item(17, d.transferReid)])
            && p[12] == (if d.transferRedate == 0 then [] else [T.Item(18, Put32(d.transferRedate))])
            && p[13] == (if d.transferStatus == [] then [] else [T.Item(19, d.transferStatus)])
  {
    hide Put32, Put16;
  }

  lemma ListTags(d: D.Domain)
    requires D.WellFormed(d)
    ensures |D.Parts(d)[2]| == |d.status| && |D.Parts(d)[7]| == |d.ns| && |D.Parts(d)[8]| == |d.ds|
    ensures forall i :: 0 <= i < |d.status| ==> D.Parts(d)[2][i] == T.Item(2, d.status[i])
    ensures forall i :: 0 <= i < |d.ns| ==> D.Parts(d)[7][i] == T.Item(7, d.ns[i])
    ensures forall i :: 0 <= i < |d.ds| ==>
              D.Parts(d)[8][i] == T.Item(16, Put16(d.ds[i].keytag) + [d.ds[i].alg, d.ds[i].digtype] + d.ds[i].digest)
  {
    hide Put32, Put16;
  }

  /** Stored text is hexadecimal in lower case, the high digit first. */
  lemma HexBytes(hi: nat, lo: nat)
    requires hi < 16 && lo < 16
    ensures var t := T.HexEnc([16 * hi + lo]);
            && |t| == 2 && (if hi < 10 then t[0] == 48 + hi else t[0] == 97 + (hi - 10))
            && (if lo < 10 then t[1] == 48 + lo else t[1] == 97 + (lo - 10))
  {
    assert (16 * hi + lo) / 16 == hi && (16 * hi + lo) % 16 == lo;
  }

  /** A date is four bytes, the highest first; of any other length it reads as zero. */
  lemma DateBytes(a: byte, b: byte, c: byte, e: byte, v: seq<byte>)
    ensures D.U32Of([a, b, c, e]) == 0x100_0000 * a as int + 0x1_0000 * b as int + 0x100 * c as int + e
    ensures |v| != 4 ==> D.U32Of(v) == 0
  {
  }

  /** A resource record after its owner name: type, class, time to live, length, data. */
  lemma RecordBody(t: (byte, byte), c: (byte, byte), l: (byte, byte, byte, byte), n: (byte, byte), rdata: seq<byte>)
    requires |rdata| == 256 * n.0 as int + n.1
    ensures R.Body(256 * t.0 as int + t.1, 256 * c.0 as int + c.1,
                   0x1_0000 * (256 * l.0 as int + l.1) + (256 * l.2 as int + l.3), rdata) ==
            [t.0, t.1] + [c.0, c.1] + [l.0, l.1, l.2, l.3] + [n.0, n.1] + rdata
  {
    hide Put16, Put32;
    BigEndian(t.0, t.1, 0, 0);
    BigEndian(c.0, c.1, 0, 0);
    BigEndian(l.0, l.1, l.2, l.3);
    BigEndian(n.0, n.1, 0, 0);
  }

  /** A frame is its whole length, big-endian, and the payload. */
  lemma FrameBytes(p: F.Payload, b: byte, c: byte, d: byte)
    requires |p| <= 65535 && |p| + 4 == 0x1_0000 * b as int + 256 * c as int + d
    ensures F.Frame(p) == [0, b, c, d] + p
  {
    BigEndian(0, b, c, d);
  }

  /** Reading yields a payload exactly if the bytes start with its frame. */
  lemma FrameExact(s: seq<byte>, p: F.Payload)
    ensures F.NextFrame(s) == F.Outcome(|p|, p, s[if 4 + |p| <= |s| then 4 + |p| else |s|..]) && F.Complete(s) <==>
            |p| <= 65535 && F.Frame(p) <= s
  {
    if |p| <= 65535 && F.Frame(p) <= s {
      F.TotalOf(p, s[4 + |p|..]);
      assert s == F.Frame(p) + s[4 + |p|..];
      assert s[4..4 + |p|] == p;
    }
    if F.Complete(s) && F.NextFrame(s).payload == p {
      HeadOf(s);
      assert s[..F.Total(s)] == s[..4] + s[4..F.Total(s)];
    }
  }

  lemma HeadOf(s: seq<byte>)
    requires |s| >= 4 && F.Total(s) < 0x1_0000_0000
    ensures Put32(F.Total(s)) == s[..4]
  {
    BigEndian(s[0], s[1], s[2], s[3]);
    assert F.Total(s) == 0x1_0000 * (256 * s[0] as int + s[1]) + (256 * s[2] as int + s[3]);
  }

  // ---- hashing -------------------------------------------------------------

  lemma XorZero(a: nat)
    ensures H.Xor(a, 0) == a
  {
  }

  lemma XorBit(q: nat, x: nat, r: nat, y: nat)
    requires x < 2 && y < 2
    ensures H.Xor(2 * q + x, 2 * r + y) == 2 * H.Xor(q, r) + (if x != y then 1 else 0)
  {
    assert (2 * q + x) / 2 == q && (2 * q + x) % 2 == x && (2 * r + y) / 2 == r && (2 * r + y) % 2 == y;
  }

  lemma XorOfA()
    ensures H.Xor(0xcbf29ce484222325, 97) == 0xcbf29ce484222344
  {
    hide H.Xor;
    XorZero(0x197e539c9084446);
    XorBit(0x197e539c9084446, 0, 0, 1);
    XorBit(0x32fca739210888c, 1, 1, 1);
    XorBit(0x65f94e724211119, 0, 3, 0);
    XorBit(0xcbf29ce48422232, 0, 6, 0);
    XorBit(0x197e539c90844464, 1, 12, 0);
    XorBit(0x32fca739210888c9, 0, 24, 0);
    XorBit(0x65f94e7242111192, 1, 48, 1);
  }

  /** The published value of the 64-bit FNV-1a hash of the one-byte text "a". */
  lemma FnvOfA()
    ensures H.Fnv([]) == 0xcbf29ce484222325 && H.Fnv([97]) == 0xaf63dc4c8601ec8c
  {
    hide H.Xor;
    XorOfA();
    var t: seq<byte> := [97];
    assert t[..0] == [];
    assert 0xcbf29ce484222344 * 0x100000001b3 % 0x1_0000_0000_0000_0000 == 0xaf63dc4c8601ec8c;
  }
}
