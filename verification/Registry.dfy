/** The registry's command handlers: each loads a domain from its stored text,
    changes the struct field by field and stores it back. */
module Registry {
  import opened Bytes
  import opened Tlv
  import opened DomainCodec
  import opened Lifecycle

  /** What a stored text means. */
  function SlotOf(store: map<Text, Text>, name: Text): (s: Slot)
    ensures SlotOk(s)
  {
    if name !in store then Absent
    else
      var f := HexDec(store[name], BLOB_CAP);
      BlankFits();
      DecodeFits(f, 1, BLANK);
      match Decode(f)
      case None => Corrupt
      case Some(d) => Live(d)
  }

  /** Only what is stored under `name` may differ. */
  ghost predicate OthersSame(a: map<Text, Text>, b: map<Text, Text>, name: Text) {
    forall n: Text :: n != name ==> (n in a <==> n in b) && (n in a && n in b ==> a[n] == b[n])
  }

  lemma OthersSlots(a: map<Text, Text>, b: map<Text, Text>, name: Text, n: Text)
    requires OthersSame(a, b, name) && n != name
    ensures SlotOf(a, n) == SlotOf(b, n)
  {
    hide HexDec, Decode;
  }

  // ---- list edits ----------------------------------------------------------

  method Contains(xs: seq<Text>, x: Text, fold: bool) returns (r: bool)
    ensures r == Holds(xs, x, fold)
  {
    for i := 0 to |xs|
      invariant forall j :: 0 <= j < i ==> !SameText(xs[j], x, fold)
    {
      if SameText(xs[i], x, fold) { return true; }
    }
    return false;
  }

  method AddNew(xs: seq<Text>, adds: seq<Text>, fold: bool) returns (r: seq<Text>)
    ensures r == AddEach(xs, adds, fold)
  {
    hide Holds;
    r := xs;
    var i := 0;
    assert adds[0..] == adds;
    while i < |adds| && |r| < MAX_ARR
      invariant 0 <= i <= |adds| && AddEach(r, adds[i..], fold) == AddEach(xs, adds, fold)
      decreases |adds| - i
    {
      var dup := Contains(r, adds[i], fold);
      assert adds[i..][1..] == adds[i + 1..];
      if !dup { r := r + [adds[i]]; }
      i := i + 1;
    }
  }

  /** Closing the gap behind each removed entry keeps the others in order. */
  method RemoveAll(xs: seq<Text>, rems: seq<Text>, fold: bool) returns (r: seq<Text>)
    ensures r == RemoveEach(xs, rems, fold)
  {
    hide Holds;
    r := [];
    for i := 0 to |xs|
      invariant r == RemoveEach(xs[..i], rems, fold)
    {
      assert xs[..i + 1][..i] == xs[..i];
      var gone := Contains(rems, xs[i], fold);
      if !gone { r := r + [xs[i]]; }
    }
    assert xs[..|xs|] == xs;
  }

  method KeepSettable(ts: seq<Text>) returns (r: seq<Text>)
    ensures r == Settable(ts)
  {
    hide SETTABLE;
    r := [];
    assert ts[0..] == ts;
    for i := 0 to |ts|
      invariant r + Settable(ts[i..]) == Settable(ts)
    {
      assert ts[i..][1..] == ts[i + 1..];
      if ts[i] in SETTABLE { r := r + [ts[i]]; }
    }
    assert ts[|ts|..] == [] && r + [] == r;
  }

  method RemoveKeys(es: seq<DsData>, rems: seq<DsData>) returns (r: seq<DsData>)
    ensures r == RemoveDs(es, rems)
  {
    r := [];
    for i := 0 to |es|
      invariant r == RemoveDs(es[..i], rems)
    {
      assert es[..i + 1][..i] == es[..i];
      var gone := false;
      for j := 0 to |rems|
        invariant gone <==> exists k :: 0 <= k < j && SameKey(rems[k], es[i])
      {
        if SameKey(rems[j], es[i]) { gone := true; }
      }
      if !gone { r := r + [es[i]]; }
    }
    assert es[..|es|] == es;
  }

  // ---- the sweep -----------------------------------------------------------

  const MAX_KEYS := 512

  /** What the listing passes to the sweep. */
  function FirstTicks(es: seq<Event>): (r: seq<Event>)
    requires forall i :: 0 <= i < |es| ==> EventOk(es[i]) && es[i].cmd.Tick?
    ensures r <= es && |r| == if |es| <= MAX_KEYS then |es| else MAX_KEYS
    ensures forall i :: 0 <= i < |r| ==> EventOk(r[i]) && r[i].cmd.Tick?
  {
    if |es| > MAX_KEYS then es[..MAX_KEYS] else es
  }

  /** A name after the visits that concern it. */
  function Visited(s: Slot, es: seq<Event>, name: Text): (r: Slot)
    requires SlotOk(s) && forall i :: 0 <= i < |es| ==> EventOk(es[i])
    ensures SlotOk(r)
    ensures (forall i :: 0 <= i < |es| ==> es[i].name != name) ==> r == s
  {
    if es == [] then s
    else
      var n := |es| - 1;
      var before := Visited(s, es[..n], name);
      if es[n].name == name then Step(before, es[n]).slot else before
  }

  /** A domain listed once is visited once. */
  lemma {:induction false} VisitedOnce(s: Slot, es: seq<Event>, k: nat)
    requires SlotOk(s) && (forall i :: 0 <= i < |es| ==> EventOk(es[i])) && k < |es|
    requires forall i :: 0 <= i < |es| && i != k ==> es[i].name != es[k].name
    ensures Visited(s, es, es[k].name) == Step(s, es[k]).slot
    decreases |es|
  {
    hide Step;
    var n := |es| - 1;
    if k < n {
      assert es[..n][k] == es[k];
      VisitedOnce(s, es[..n], k);
    }
  }

  // ---- handlers ------------------------------------------------------------

  class Registry {
    var store: map<Text, Text>

    constructor ()
      ensures store == map[]
    {
      store := map[];
    }

    method Load(name: Text) returns (s: Slot)
      ensures s == SlotOf(store, name) && SlotOk(s)
    {
      hide HexDec, Decode, WellFormed;
      if name !in store { return Absent; }
      var bs := DecodeHex(store[name], BLOB_CAP);
      var buf := new byte[|bs|](i requires 0 <= i < |bs| => bs[i]);
      assert buf[..|bs|] == bs;
      var d := DecodeDomain(buf, |bs|);
      return if d.None? then Corrupt else Live(d.value);
    }

    /** Encode and store. Nothing changes when the blob is too long, which the
        caller learns, or when the command is, which it does not. */
    method Keep(name: Text, d: Domain) returns (ok: bool)
      requires WellFormed(d)
      modifies this
      ensures ok == Encode(d, BLOB_CAP).Some?
      ensures Stored(name, d) ==> SlotOf(store, name) == Live(d) && OthersSame(store, old(store), name)
      ensures !Stored(name, d) ==> store == old(store)
    {
      hide HexDec, HexEnc, Decode, WellFormed, Encode, SetLen;
      var buf := new byte[BLOB_CAP];
      var n := EncodeDomain(d, buf);
      if n < 0 { return false; }
      var text := EncodeHex(buf[..n]);
      StoredRoundTrip(d, BLOB_CAP);
      if SetLen(name, |text|) < SET_BUF { store := store[name := text]; }
      return true;
    }

    method CreateDomain(e: Event) returns (code: nat)
      requires EventOk(e) && e.cmd.Create?
      modifies this
      ensures SlotOf(store, e.name) == Step(old(SlotOf(store, e.name)), e).slot && OthersSame(store, old(store), e.name)
      ensures code == Step(old(SlotOf(store, e.name)), e).code
    {
      hide SlotOf, WellFormed, Encode, Ascii;
      var s := Load(e.name);
      if !s.Absent? { return 2302; }
      var d := BLANK;
      d := d.(clid := e.clid, authinfo := e.cmd.authinfo, roid := e.cmd.roid);
      d := d.(crdate := e.now, exdate := Plus(e.now, YEAR));
      d := d.(registrant := e.cmd.registrant, ns := e.cmd.ns, ds := e.cmd.ds, status := [OK]);
      d := d.(rgpState := ADD, rgpUntil := Plus(e.now, e.cfg.addGrace));
      assert d == Created(e);
      var ok := Keep(e.name, d);
      return if ok then 1000 else 2400;
    }

    method UpdateDomain(e: Event) returns (code: nat)
      requires EventOk(e) && e.cmd.Update?
      modifies this
      ensures SlotOf(store, e.name) == Step(old(SlotOf(store, e.name)), e).slot && OthersSame(store, old(store), e.name)
      ensures code == Step(old(SlotOf(store, e.name)), e).code
    {
      hide SlotOf, WellFormed, Encode, Ascii, AddEach, RemoveEach, RemoveDs, Settable, EditOk;
      var s := Load(e.name);
      if s.Absent? { return 2303; }
      if s.Corrupt? { return 2400; }
      var d, x := s.d, e.cmd.edit;
      if !Sponsor(d, e.clid) { return 2201; }
      if Has(d, NO_UPDATE) { return 2304; }
      EditedFits(d, x);
      var ns := AddNew(d.ns, x.addNs, true);
      var wanted := KeepSettable(x.addStatus);
      var status := AddNew(d.status, wanted, false);
      ns := RemoveAll(ns, x.remNs, true);
      status := RemoveAll(status, x.remStatus, false);
      d := d.(ns := ns, status := status);
      if x.registrant.Some? { d := d.(registrant := x.registrant.value); }
      if x.authinfo.Some? { d := d.(authinfo := x.authinfo.value); }
      if x.setDs.Some? {
        d := d.(ds := x.setDs.value);
      } else {
        var ds := RemoveKeys(AddDs(d.ds, x.addDs), x.remDs);
        d := d.(ds := ds);
      }
      if x.restore && d.rgpState == REDEMPTION { d := d.(rgpState := NONE, rgpUntil := 0); }
      assert d == Edited(s.d, x);
      hide Edited;
      var ok := Keep(e.name, d);
      return if ok then 1000 else 2400;
    }

    method DeleteDomain(e: Event) returns (code: nat)
      requires EventOk(e) && e.cmd.Delete?
      modifies this
      ensures SlotOf(store, e.name) == Step(old(SlotOf(store, e.name)), e).slot && OthersSame(store, old(store), e.name)
      ensures code == Step(old(SlotOf(store, e.name)), e).code
    {
      hide SlotOf, WellFormed, Encode, Ascii;
      var s := Load(e.name);
      if s.Absent? { return 2303; }
      if s.Corrupt? { return 2400; }
      var d := s.d;
      if !Sponsor(d, e.clid) { return 2201; }
      if Has(d, NO_DELETE) { return 2304; }
      if d.transferStatus == PENDING { return 2304; }
      if InGrace(d, e.now) {
        store := store - {e.name};
        Gone(store, e.name);
        return 1000;
      }
      d := d.(rgpState := REDEMPTION, rgpUntil := Plus(e.now, e.cfg.redemption));
      assert WellFormed(d) by { OnlyClock(s.d, d); }
      var ok := Keep(e.name, d);
      return if ok then 1001 else 2400;
    }

    method RenewDomain(e: Event) returns (code: nat)
      requires EventOk(e) && e.cmd.Renew?
      modifies this
      ensures SlotOf(store, e.name) == Step(old(SlotOf(store, e.name)), e).slot && OthersSame(store, old(store), e.name)
      ensures code == Step(old(SlotOf(store, e.name)), e).code
    {
      hide SlotOf, WellFormed, Encode, Ascii;
      var s := Load(e.name);
      if s.Absent? { return 2303; }
      if s.Corrupt? { return 2400; }
      var d := s.d;
      if !Sponsor(d, e.clid) { return 2201; }
      if Has(d, NO_RENEW) || Has(d, SERVER_NO_RENEW) { return 2304; }
      if e.cmd.believes != e.cfg.date(d.exdate) { return 2306; }
      var years := e.cmd.years;
      if years < 1 { years := 1; }
      d := d.(exdate := Plus(d.exdate, years * YEAR));
      d := d.(rgpState := NONE, rgpUntil := 0);
      assert WellFormed(d) by { OnlyClock(s.d, d); }
      var ok := Keep(e.name, d);
      return if ok then 1000 else 2400;
    }

    method TransferRequest(e: Event) returns (code: nat)
      requires EventOk(e) && e.cmd.Request?
      modifies this
      ensures SlotOf(store, e.name) == Step(old(SlotOf(store, e.name)), e).slot && OthersSame(store, old(store), e.name)
      ensures code == Step(old(SlotOf(store, e.name)), e).code
    {
      hide SlotOf, WellFormed, Encode, Ascii;
      var s := Load(e.name);
      if s.Absent? { return 2303; }
      if s.Corrupt? { return 2400; }
      var d := s.d;
      if d.transferStatus == PENDING { return 2304; }
      if Has(d, NO_TRANSFER) || Has(d, SERVER_NO_TRANSFER) { return 2304; }
      if d.clid == e.clid { return 2002; }
      if d.authinfo == [] || d.authinfo != e.cmd.pw { return 2200; }
      d := d.(transferReid := e.clid);
      d := d.(transferRedate := e.now);
      d := d.(transferStatus := PENDING);
      assert WellFormed(d) by { OnlyTransfer(s.d, d); }
      var ok := Keep(e.name, d);
      return if ok then 1001 else 2400;
    }

    method TransferAnswer(e: Event) returns (code: nat)
      requires EventOk(e) && (e.cmd.Cancel? || e.cmd.Reject? || e.cmd.Approve?)
      modifies this
      ensures SlotOf(store, e.name) == Step(old(SlotOf(store, e.name)), e).slot && OthersSame(store, old(store), e.name)
      ensures code == Step(old(SlotOf(store, e.name)), e).code
    {
      hide SlotOf, WellFormed, Encode, Ascii;
      var s := Load(e.name);
      if s.Absent? { return 2303; }
      if s.Corrupt? { return 2400; }
      var d := s.d;
      if d.transferStatus != PENDING { return 2304; }
      ShortStatuses();
      TransferFits(d, e);
      if e.cmd.Cancel? {
        if e.clid != d.transferReid { return 2201; }
        d := d.(transferStatus := CLIENT_CANCELLED);
      } else {
        if d.clid == [] || e.clid != d.clid { return 2201; }
        if e.cmd.Reject? {
          d := d.(transferStatus := CLIENT_REJECTED);
        } else {
          d := d.(transferStatus := CLIENT_APPROVED);
          d := d.(clid := d.transferReid);
          d := d.(exdate := Plus(d.exdate, YEAR));
          d := d.(rgpState := TRANSFER, rgpUntil := Plus(e.now, e.cfg.transferGrace));
          assert d == Approved(s.d, CLIENT_APPROVED, Plus(e.now, e.cfg.transferGrace));
        }
      }
      hide Approved;
      var ok := Keep(e.name, d);
      return if ok then 1000 else 2400;
    }

    method TickOne(e: Event)
      requires EventOk(e) && e.cmd.Tick?
      modifies this
      ensures SlotOf(store, e.name) == Step(old(SlotOf(store, e.name)), e).slot && OthersSame(store, old(store), e.name)
    {
      hide SlotOf, WellFormed, Encode, Ascii;
      var s := Load(e.name);
      if !s.Live? { return; }
      var d := s.d;
      var changed := false;
      if d.rgpState == REDEMPTION && e.now >= d.rgpUntil {
        store := store - {e.name};
        Gone(store, e.name);
        return;
      }
      if Expired(d, e) {
        d := d.(exdate := Plus(d.exdate, YEAR));
        d := d.(rgpState := AUTORENEW, rgpUntil := Plus(e.now, e.cfg.autorenewGrace));
        changed := true;
      } else if GraceOver(d, e) {
        d := d.(rgpState := NONE, rgpUntil := 0);
        changed := true;
      }
      if Overdue(s.d, e) {
        d := d.(transferStatus := SERVER_APPROVED);
        d := d.(clid := d.transferReid);
        d := d.(exdate := Plus(d.exdate, YEAR));
        d := d.(rgpState := TRANSFER, rgpUntil := Plus(e.now, e.cfg.transferGrace));
        changed := true;
      }
      assert d == Swept(s.d, e);
      assert !changed ==> d == s.d;
      hide Swept;
      if !changed { return; }
      var ok := Keep(e.name, d);
    }

    /** The sweep visits the first 512 listed names in turn, each at its own time. A
        name listed twice is visited twice. */
    method TickScan(es: seq<Event>)
      requires forall i :: 0 <= i < |es| ==> EventOk(es[i]) && es[i].cmd.Tick?
      modifies this
      ensures forall n: Text :: SlotOf(store, n) == Visited(old(SlotOf(store, n)), FirstTicks(es), n)
    {
      hide SlotOf, Step, OthersSame, EventOk;
      ghost var was := store;
      ghost var ticks := FirstTicks(es);
      for i := 0 to if |es| > MAX_KEYS then MAX_KEYS else |es|
        invariant i <= |ticks| && forall n: Text :: SlotOf(store, n) == Visited(SlotOf(was, n), ticks[..i], n)
      {
        ghost var before := store;
        TickOne(es[i]);
        forall n: Text ensures SlotOf(store, n) == Visited(SlotOf(was, n), ticks[..i + 1], n) {
          assert ticks[..i + 1][..i] == ticks[..i];
          if n != es[i].name { OthersSlots(store, before, es[i].name, n); }
        }
      }
      assert ticks[..|ticks|] == ticks;
    }
  }

  lemma Gone(store: map<Text, Text>, name: Text)
    requires name !in store
    ensures SlotOf(store, name) == Absent
  {
  }

  lemma OnlyClock(d: Domain, r: Domain)
    requires WellFormed(d) && r == d.(exdate := r.exdate, rgpState := r.rgpState, rgpUntil := r.rgpUntil)
    ensures WellFormed(r)
  {
  }

  lemma OnlyTransfer(d: Domain, r: Domain)
    requires WellFormed(d) && |r.transferReid| < 64 && |r.transferStatus| < 24
    requires r == d.(transferReid := r.transferReid, transferRedate := r.transferRedate, transferStatus := r.transferStatus)
    ensures WellFormed(r)
  {
  }

  lemma ShortStatuses()
    ensures |CLIENT_APPROVED| < 24 && |CLIENT_REJECTED| < 24 && |CLIENT_CANCELLED| < 24 && |SERVER_APPROVED| < 24
  {
  }

  lemma TransferFits(d: Domain, e: Event)
    requires WellFormed(d)
    ensures WellFormed(d.(transferStatus := CLIENT_CANCELLED)) && WellFormed(d.(transferStatus := CLIENT_REJECTED))
    ensures WellFormed(Approved(d, CLIENT_APPROVED, Plus(e.now, e.cfg.transferGrace)))
  {
    ShortStatuses();
    hide Ascii;
  }
}
