/** The life of a domain: creation, update, delete, renew, transfer (section
    3.2.4 of RFC 5731) and the grace-period sweep (section 2 of RFC 3915), as
    atomic steps. */
module Lifecycle {
  import opened Bytes
  import opened Tlv
  import opened DomainCodec
  import Names = DnsNames

  const YEAR := 365 * 24 * 3600
  const TWO32 := 0x1_0000_0000
  const BLOB_CAP := 4096
  const SET_BUF := 8192

  const NONE: byte := 0
  const ADD: byte := 1
  const AUTORENEW: byte := 2
  const TRANSFER: byte := 3
  const REDEMPTION: byte := 4

  function Ascii(s: string): (t: Text)
    requires forall i :: 0 <= i < |s| ==> s[i] < 256 as char
    ensures |t| == |s| && forall i :: 0 <= i < |s| ==> t[i] == s[i] as int
  {
    seq(|s|, i requires 0 <= i < |s| => s[i] as int)
  }

  const PENDING := Ascii("pending")
  const CLIENT_APPROVED := Ascii("clientApproved")
  const CLIENT_REJECTED := Ascii("clientRejected")
  const CLIENT_CANCELLED := Ascii("clientCancelled")
  const SERVER_APPROVED := Ascii("serverApproved")
  const OK := Ascii("ok")
  const NO_UPDATE := Ascii("clientUpdateProhibited")
  const NO_DELETE := Ascii("clientDeleteProhibited")
  const NO_TRANSFER := Ascii("clientTransferProhibited")
  const NO_RENEW := Ascii("clientRenewProhibited")
  const HOLD := Ascii("clientHold")
  const SERVER_NO_TRANSFER := Ascii("serverTransferProhibited")
  const SERVER_NO_RENEW := Ascii("serverRenewProhibited")

  // ---- commands ------------------------------------------------------------

  /** Settings read at each command; `date` is the calendar date of a time. */
  datatype Config = Config(addGrace: u32, autorenewGrace: u32, redemption: u32, transferGrace: u32, pending: u32,
                           date: u32 -> Text)

  /** What an update asks for: hosts that exist, statuses, replacements, and a
      request to restore from redemption. */
  datatype Edit = Edit(addNs: seq<Text>, addStatus: seq<Text>, remNs: seq<Text>, remStatus: seq<Text>,
                       registrant: Option<Text>, authinfo: Option<Text>,
                       setDs: Option<seq<DsData>>, addDs: seq<DsData>, remDs: seq<DsData>, restore: bool)

  datatype Command =
    | Create(registrant: Text, ns: seq<Text>, ds: seq<DsData>, authinfo: Text, roid: Text)
    | Update(edit: Edit)
    | Delete
    | Renew(believes: Text, years: u32)
    | Request(pw: Text)
    | Cancel
    | Reject
    | Approve
    | Tick

  /** A command of a registrar, or the sweep, on a name at a time. */
  datatype Event = Event(cmd: Command, clid: Text, now: u32, cfg: Config, name: Text)

  /** What is stored under a name. */
  datatype Slot = Absent | Corrupt | Live(d: Domain)

  datatype Reply = Reply(code: nat, slot: Slot)

  /** What the parsing buffers guarantee. */
  predicate EventOk(e: Event) {
    && (e.cmd.Tick? || 0 < |e.clid| < 64) && |e.name| < 256
    && match e.cmd
       case Create(registrant, ns, ds, authinfo, roid) =>
         |registrant| < 64 && |ns| <= MAX_ARR && AllShort(ns, 256) && |ds| <= MAX_ARR && DigestsOk(ds)
         && |authinfo| < 256 && |roid| < 32
       case Update(x) => EditOk(x)
       case _ => true
  }

  predicate EditOk(x: Edit) {
    && AllShort(x.addNs, 256) && AllShort(x.addStatus, 32) && (x.registrant.Some? ==> |x.registrant.value| < 64)
    && (x.authinfo.Some? ==> |x.authinfo.value| < 256)
    && (x.setDs.Some? ==> |x.setDs.value| <= MAX_ARR && DigestsOk(x.setDs.value)) && DigestsOk(x.addDs)
  }

  // ---- pieces --------------------------------------------------------------

  function Plus(a: u32, b: nat): u32 { (a + b) % TWO32 }

  predicate Sponsor(d: Domain, clid: Text) { d.clid == [] || d.clid == clid }

  predicate Has(d: Domain, status: Text) { status in d.status }

  function Digits(n: nat): nat { if n < 10 then 1 else 1 + Digits(n / 10) }

  /** One argument of a command to the key-value store: a length and the bytes. */
  function BulkLen(n: nat): nat { 5 + Digits(n) + n }

  /** The whole command "SET epp:domain:<name> <hex>", which must fit its buffer
      with a terminator. */
  function SetLen(name: Text, text: nat): nat { 13 + BulkLen(11 + |name|) + BulkLen(text) }

  predicate Stored(name: Text, d: Domain)
    requires WellFormed(d)
  {
    Encode(d, BLOB_CAP).Some? && SetLen(name, 2 * |Encode(d, BLOB_CAP).value|) < SET_BUF
  }

  /** Store the changed struct. The old one stays when it does not encode, which is
      reported, or when the command does not fit, which is not. */
  function Save(s: Slot, d: Domain, code: nat, name: Text): (r: Reply)
    requires WellFormed(d)
    ensures r.slot != s ==> r == Reply(code, Live(d))
  {
    if Encode(d, BLOB_CAP).None? then Reply(2400, s)
    else if Stored(name, d) then Reply(code, Live(d))
    else Reply(code, s)
  }

  predicate SameText(a: Text, b: Text, fold: bool) { if fold then Names.Lower(a) == Names.Lower(b) else a == b }

  function Holds(xs: seq<Text>, x: Text, fold: bool): bool {
    exists i :: 0 <= i < |xs| && SameText(xs[i], x, fold)
  }

  /** Append what is new, while there is room. */
  function AddEach(xs: seq<Text>, adds: seq<Text>, fold: bool): seq<Text>
    decreases |adds|
  {
    if adds == [] || |xs| >= MAX_ARR then xs
    else AddEach(if Holds(xs, adds[0], fold) then xs else xs + [adds[0]], adds[1..], fold)
  }

  function RemoveEach(xs: seq<Text>, rems: seq<Text>, fold: bool): seq<Text> {
    if xs == [] then []
    else
      var rest := RemoveEach(xs[..|xs| - 1], rems, fold);
      if Holds(rems, xs[|xs| - 1], fold) then rest else rest + [xs[|xs| - 1]]
  }

  predicate SameKey(a: DsData, b: DsData) { a.keytag == b.keytag && a.alg == b.alg && a.digtype == b.digtype }

  function RemoveDs(es: seq<DsData>, rems: seq<DsData>): seq<DsData> {
    if es == [] then []
    else
      var rest := RemoveDs(es[..|es| - 1], rems);
      if exists i :: 0 <= i < |rems| && SameKey(rems[i], es[|es| - 1]) then rest else rest + [es[|es| - 1]]
  }

  function AddDs(es: seq<DsData>, adds: seq<DsData>): seq<DsData> {
    if |es| + |adds| <= MAX_ARR then es + adds else if |es| >= MAX_ARR then es else es + adds[..MAX_ARR - |es|]
  }

  const SETTABLE: seq<Text> := [NO_UPDATE, NO_DELETE, NO_TRANSFER, NO_RENEW, HOLD]

  function Settable(ts: seq<Text>): seq<Text> {
    if ts == [] then [] else (if ts[0] in SETTABLE then [ts[0]] else []) + Settable(ts[1..])
  }

  function Edited(d: Domain, x: Edit): Domain {
    var ns := RemoveEach(AddEach(d.ns, x.addNs, true), x.remNs, true);
    var status := RemoveEach(AddEach(d.status, Settable(x.addStatus), false), x.remStatus, false);
    var ds := if x.setDs.Some? then x.setDs.value else RemoveDs(AddDs(d.ds, x.addDs), x.remDs);
    var restored := x.restore && d.rgpState == REDEMPTION;
    d.(ns := ns, status := status, ds := ds,
       registrant := if x.registrant.Some? then x.registrant.value else d.registrant,
       authinfo := if x.authinfo.Some? then x.authinfo.value else d.authinfo,
       rgpState := if restored then NONE else d.rgpState, rgpUntil := if restored then 0 else d.rgpUntil)
  }

  predicate InGrace(d: Domain, now: u32) {
    (d.rgpState == ADD || d.rgpState == AUTORENEW || d.rgpState == TRANSFER) && now < d.rgpUntil
  }

  /** The registration passes to the requesting registrar for one more year. */
  function Approved(d: Domain, status: Text, until: u32): Domain {
    d.(transferStatus := status, clid := d.transferReid, exdate := Plus(d.exdate, YEAR),
       rgpState := TRANSFER, rgpUntil := until)
  }

  /** Approval by the losing registrar. */
  function HandedOver(d: Domain, e: Event): (r: Domain)
    ensures WellFormed(d) ==> WellFormed(r)
  {
    Approved(d, CLIENT_APPROVED, Plus(e.now, e.cfg.transferGrace))
  }

  function Renewed(d: Domain, years: u32): (r: Domain)
    ensures WellFormed(d) ==> WellFormed(r)
  {
    d.(exdate := Plus(d.exdate, Years(years) * YEAR), rgpState := NONE, rgpUntil := 0)
  }

  predicate Overdue(d: Domain, e: Event) {
    d.transferStatus == PENDING && (e.now - d.transferRedate) % TWO32 > e.cfg.pending
  }

  predicate Expired(d: Domain, e: Event) { d.rgpState != REDEMPTION && e.now >= d.exdate }

  predicate GraceOver(d: Domain, e: Event) {
    (d.rgpState == ADD || d.rgpState == AUTORENEW || d.rgpState == TRANSFER) && e.now >= d.rgpUntil
  }

  /** The sweep's effect on a domain that is not purged. */
  function Swept(d: Domain, e: Event): (r: Domain)
    ensures WellFormed(d) ==> WellFormed(r)
  {
    var d1 :=
      if Expired(d, e) then
        d.(exdate := Plus(d.exdate, YEAR), rgpState := AUTORENEW, rgpUntil := Plus(e.now, e.cfg.autorenewGrace))
      else if GraceOver(d, e) then d.(rgpState := NONE, rgpUntil := 0)
      else d;
    if Overdue(d, e) then Approved(d1, SERVER_APPROVED, Plus(e.now, e.cfg.transferGrace)) else d1
  }

  function Created(e: Event): (d: Domain)
    requires e.cmd.Create? && EventOk(e)
    ensures WellFormed(d)
  {
    Domain(e.cmd.roid, e.clid, [OK], e.cmd.authinfo, e.now, Plus(e.now, YEAR), e.cmd.registrant,
           e.cmd.ns, e.cmd.ds, ADD, Plus(e.now, e.cfg.addGrace), [], 0, [])
  }

  function Years(y: u32): u32 { if y < 1 then 1 else y }

  // ---- one step ------------------------------------------------------------

  function OnUpdate(d: Domain, e: Event): (r: Reply)
    requires WellFormed(d) && EventOk(e) && e.cmd.Update?
    ensures SlotOk(r.slot)
  {
    EditedFits(d, e.cmd.edit);
    var s := Live(d);
    if !Sponsor(d, e.clid) then Reply(2201, s)
    else if Has(d, NO_UPDATE) then Reply(2304, s)
    else Save(s, Edited(d, e.cmd.edit), 1000, e.name)
  }

  function OnDelete(d: Domain, e: Event): (r: Reply)
    requires WellFormed(d)
    ensures SlotOk(r.slot)
  {
    var s := Live(d);
    if !Sponsor(d, e.clid) then Reply(2201, s)
    else if Has(d, NO_DELETE) || d.transferStatus == PENDING then Reply(2304, s)
    else if InGrace(d, e.now) then Reply(1000, Absent)
    else Save(s, d.(rgpState := REDEMPTION, rgpUntil := Plus(e.now, e.cfg.redemption)), 1001, e.name)
  }

  function OnRenew(d: Domain, e: Event): (r: Reply)
    requires WellFormed(d) && e.cmd.Renew?
    ensures SlotOk(r.slot)
  {
    var s := Live(d);
    if !Sponsor(d, e.clid) then Reply(2201, s)
    else if Has(d, NO_RENEW) || Has(d, SERVER_NO_RENEW) then Reply(2304, s)
    else if e.cmd.believes != e.cfg.date(d.exdate) then Reply(2306, s)
    else Save(s, Renewed(d, e.cmd.years), 1000, e.name)
  }

  function OnRequest(d: Domain, e: Event): (r: Reply)
    requires WellFormed(d) && EventOk(e) && e.cmd.Request?
    ensures SlotOk(r.slot)
  {
    var s := Live(d);
    if d.transferStatus == PENDING then Reply(2304, s)
    else if Has(d, NO_TRANSFER) || Has(d, SERVER_NO_TRANSFER) then Reply(2304, s)
    else if d.clid == e.clid then Reply(2002, s)
    else if d.authinfo == [] || d.authinfo != e.cmd.pw then Reply(2200, s)
    else Save(s, d.(transferReid := e.clid, transferRedate := e.now, transferStatus := PENDING), 1001, e.name)
  }

  function OnAnswer(d: Domain, e: Event): (r: Reply)
    requires WellFormed(d) && (e.cmd.Cancel? || e.cmd.Reject? || e.cmd.Approve?)
    ensures SlotOk(r.slot)
  {
    var s := Live(d);
    if d.transferStatus != PENDING then Reply(2304, s)
    else if e.cmd.Cancel? then
      if e.clid != d.transferReid then Reply(2201, s) else Save(s, d.(transferStatus := CLIENT_CANCELLED), 1000, e.name)
    else if d.clid == [] || e.clid != d.clid then Reply(2201, s)
    else if e.cmd.Reject? then Save(s, d.(transferStatus := CLIENT_REJECTED), 1000, e.name)
    else Save(s, HandedOver(d, e), 1000, e.name)
  }

  function OnTick(d: Domain, e: Event): (r: Reply)
    requires WellFormed(d)
    ensures SlotOk(r.slot)
  {
    if d.rgpState == REDEMPTION && e.now >= d.rgpUntil then Reply(0, Absent)
    else Reply(0, Save(Live(d), Swept(d, e), 0, e.name).slot)
  }

  function OnLive(d: Domain, e: Event): (r: Reply)
    requires WellFormed(d) && EventOk(e)
    ensures SlotOk(r.slot)
  {
    match e.cmd
    case Create(_, _, _, _, _) => Reply(2302, Live(d))
    case Update(_) => OnUpdate(d, e)
    case Delete => OnDelete(d, e)
    case Renew(_, _) => OnRenew(d, e)
    case Request(_) => OnRequest(d, e)
    case Tick => OnTick(d, e)
    case _ => OnAnswer(d, e)
  }

  function Step(s: Slot, e: Event): (r: Reply)
    requires SlotOk(s) && EventOk(e)
    ensures SlotOk(r.slot)
  {
    match s
    case Live(d) => OnLive(d, e)
    case Corrupt => if e.cmd.Create? then Reply(2302, s) else if e.cmd.Tick? then Reply(0, s) else Reply(2400, s)
    case Absent =>
      if e.cmd.Create? then Save(s, Created(e), 1000, e.name)
      else if e.cmd.Tick? then Reply(0, s)
      else Reply(2303, s)
  }

  predicate SlotOk(s: Slot) { s.Live? ==> WellFormed(s.d) }

  // ---- structs keep fitting their buffers ----------------------------------

  lemma {:induction false} AddEachFits(xs: seq<Text>, adds: seq<Text>, fold: bool, cap: nat)
    requires |xs| <= MAX_ARR && AllShort(xs, cap) && AllShort(adds, cap)
    ensures |AddEach(xs, adds, fold)| <= MAX_ARR && AllShort(AddEach(xs, adds, fold), cap)
    decreases |adds|
  {
    hide Holds;
    if adds != [] && |xs| < MAX_ARR {
      AddEachFits(if Holds(xs, adds[0], fold) then xs else xs + [adds[0]], adds[1..], fold, cap);
    }
  }

  lemma {:induction false} RemoveEachFits(xs: seq<Text>, rems: seq<Text>, fold: bool, cap: nat)
    requires AllShort(xs, cap)
    ensures |RemoveEach(xs, rems, fold)| <= |xs| && AllShort(RemoveEach(xs, rems, fold), cap)
    decreases |xs|
  {
    hide Holds;
    if xs != [] { RemoveEachFits(xs[..|xs| - 1], rems, fold, cap); }
  }

  lemma {:induction false} RemoveDsFits(es: seq<DsData>, rems: seq<DsData>)
    requires DigestsOk(es)
    ensures |RemoveDs(es, rems)| <= |es| && DigestsOk(RemoveDs(es, rems))
    decreases |es|
  {
    if es != [] { RemoveDsFits(es[..|es| - 1], rems); }
  }

  lemma {:induction false} SettableFits(ts: seq<Text>, cap: nat)
    requires AllShort(ts, cap)
    ensures AllShort(Settable(ts), cap)
    decreases |ts|
  {
    hide SETTABLE;
    if ts != [] { SettableFits(ts[1..], cap); }
  }

  lemma EditedFits(d: Domain, x: Edit)
    requires WellFormed(d) && EditOk(x)
    ensures WellFormed(Edited(d, x))
  {
    hide AddEach, RemoveEach, RemoveDs, Settable;
    AddEachFits(d.ns, x.addNs, true, 256);
    RemoveEachFits(AddEach(d.ns, x.addNs, true), x.remNs, true, 256);
    SettableFits(x.addStatus, 32);
    AddEachFits(d.status, Settable(x.addStatus), false, 32);
    RemoveEachFits(AddEach(d.status, Settable(x.addStatus), false), x.remStatus, false, 32);
    RemoveDsFits(AddDs(d.ds, x.addDs), x.remDs);
  }

  // ---- acknowledged but not stored -----------------------------------------

  /** Whether a struct is stored depends on its length and that of its name only. */
  lemma StoredExact(name: Text, d: Domain)
    requires WellFormed(d)
    ensures Stored(name, d) <==> SetLen(name, 2 * Length(d)) < SET_BUF
    ensures Encode(d, BLOB_CAP).Some? <==> Length(d) <= BLOB_CAP
  {
    hide Blob, Items, WellFormed, Length;
    BlobLength(d);
    DigitsSome(2 * Length(d));
  }

  lemma DigitsSome(n: nat)
    ensures Digits(n) > 0
  {
  }

  /** An approval that is answered with success makes the requesting registrar the
      sponsor, for one more year, if and only if the command that stores the domain
      fits its buffer; otherwise nothing changes. */
  lemma ApprovalExact(d: Domain, e: Event)
    requires WellFormed(d) && EventOk(e) && e.cmd.Approve? && OnAnswer(d, e).code == 1000
    ensures var x := Domain(d.roid, d.transferReid, d.status, d.authinfo, d.crdate, (d.exdate + 31536000) % 0x1_0000_0000,
                            d.registrant, d.ns, d.ds, 3, (e.now + e.cfg.transferGrace) % 0x1_0000_0000,
                            d.transferReid, d.transferRedate, Ascii("clientApproved"));
            && (OnAnswer(d, e).slot == Live(x) <==> SetLen(e.name, 2 * Length(x)) < 8192)
            && (SetLen(e.name, 2 * Length(x)) >= 8192 ==> OnAnswer(d, e).slot == Live(d))
  {
    assert |PENDING| == 7 && |CLIENT_APPROVED| == 14;
    hide WellFormed, Encode, SetLen, Length, Ascii;
    StoredExact(e.name, HandedOver(d, e));
  }

  // ---- the command as it is sent -------------------------------------------

  function Decimal(n: nat): (t: Text)
    ensures |t| == Digits(n)
  {
    if n < 10 then [48 + n] else Decimal(n / 10) + [48 + n % 10]
  }

  function DecimalValue(t: Text): int {
    if t == [] then 0 else 10 * DecimalValue(t[..|t| - 1]) + (t[|t| - 1] as int - 48)
  }

  lemma {:induction false} DecimalBack(n: nat)
    ensures DecimalValue(Decimal(n)) == n
  {
    var t := Decimal(n);
    if n < 10 {
      assert t[..0] == [];
    } else {
      DecimalBack(n / 10);
      assert t[..|t| - 1] == Decimal(n / 10);
    }
  }

  const CRLF: Text := [13, 10]

  /** One argument: its length in decimal, then its bytes. */
  function Bulk(t: Text): Text { [36] + Decimal(|t|) + CRLF + t + CRLF }

  function SetCommand(name: Text, text: Text): Text {
    [42, 51] + CRLF + Bulk(Ascii("SET")) + Bulk(Ascii("epp:domain:") + name) + Bulk(text)
  }

  /** The limit is on the length of that command. */
  lemma SetLenExact(name: Text, text: Text)
    ensures |SetCommand(name, text)| == SetLen(name, |text|)
  {
    hide Decimal;
    assert Digits(3) == 1;
    assert |Ascii("epp:domain:")| == 11 && |Ascii("SET")| == 3;
  }

  lemma {:induction false} TextsLenEach(ts: seq<Text>, k: nat)
    requires forall i :: 0 <= i < |ts| ==> |ts[i]| == k
    ensures TextsLen(ts) == |ts| * (HDR_LEN + k)
  {
    if ts != [] { TextsLenEach(ts[1..], k); }
  }

  /** A domain under an eleven-byte name with fifteen name servers of 255 bytes, its
      transfer pending: it is stored, but approving the transfer, which is answered
      with success, leaves the stored domain as it was. */
  lemma ApprovalLost(ns: seq<Text>, pw: Text, e: Event)
    requires |ns| == 15 && (forall i :: 0 <= i < 15 ==> |ns[i]| == 255) && |pw| == 143
    requires e.cmd.Approve? && e.clid == [97] && |e.name| == 11 && Plus(e.now, e.cfg.transferGrace) != 0
    ensures var d := Domain([], [97], [], pw, 0, 1, [], ns, [], ADD, 1, [98], 1, PENDING);
            && WellFormed(d) && EventOk(e) && Stored(e.name, d)
            && OnAnswer(d, e) == Reply(1000, Live(d)) && HandedOver(d, e) != d
  {
    var d := Domain([], [97], [], pw, 0, 1, [], ns, [], ADD, 1, [98], 1, PENDING);
    var r := HandedOver(d, e);
    TextsLenEach(ns, 255);
    assert Length(d) == 4070 by { hide TextsLen; }
    assert Length(r) == 4077 by { hide TextsLen; }
    assert Digits(22) == 2 && Digits(81) == 2 && Digits(814) == 3 && Digits(815) == 3;
    assert SetLen(e.name, 8140) == 8191 && SetLen(e.name, 8154) == 8205;
    hide Length, SetLen;
    StoredExact(e.name, d);
    StoredExact(e.name, r);
    hide Encode;
  }
}
