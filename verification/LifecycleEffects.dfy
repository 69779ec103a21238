/** What each command and the sweep answer and store, field by field, and what that
    means over runs: an approval makes the requesting registrar the sponsor. */
module LifecycleEffects {
  import opened Bytes
  import opened DomainCodec
  import opened Lifecycle
  import opened LifecycleRuns

  /** The changed domain is stored, unless it is too long to encode, which is reported,
      or too long for the command that stores it, which is not. */
  predicate Puts(s: Slot, e: Event, code: nat, d: Domain, r: Reply) {
    if Length(d) > 4096 then r == Reply(2400, s)
    else if SetLen(e.name, 2 * Length(d)) < 8192 then r == Reply(code, Live(d))
    else r == Reply(code, s)
  }

  lemma SavePuts(s: Slot, e: Event, code: nat, d: Domain)
    requires WellFormed(d)
    ensures Puts(s, e, code, d, Save(s, d, code, e.name))
  {
    hide WellFormed, Encode, Length, SetLen;
    StoredExact(e.name, d);
  }

  // ---- creation, deletion and renewal --------------------------------------

  lemma CreateEffect(s: Slot, e: Event)
    requires SlotOk(s) && EventOk(e) && e.cmd.Create?
    ensures !s.Absent? ==> Step(s, e) == Reply(2302, s)
    ensures s.Absent? ==>
              Puts(s, e, 1000,
                   Domain(e.cmd.roid, e.clid, [Ascii("ok")], e.cmd.authinfo, e.now, (e.now + 31536000) % 0x1_0000_0000,
                          e.cmd.registrant, e.cmd.ns, e.cmd.ds, 1, (e.now + e.cfg.addGrace) % 0x1_0000_0000, [], 0, []),
                   Step(s, e))
  {
    hide Puts, Ascii, WellFormed, Save, OnUpdate, OnDelete, OnRenew, OnRequest, OnAnswer, OnTick;
    if s.Absent? { SavePuts(s, e, 1000, Created(e)); }
  }

  /** Without a readable domain nothing is stored. */
  lemma MissingEffect(s: Slot, e: Event)
    requires EventOk(e) && !s.Live? && !e.cmd.Create?
    ensures Step(s, e) == Reply(if e.cmd.Tick? then 0 else if s.Absent? then 2303 else 2400, s)
  {
  }

  /** Inside a live grace window a delete removes the domain at once; otherwise it
      starts the redemption window. */
  lemma DeleteEffect(d: Domain, e: Event)
    requires WellFormed(d) && EventOk(e) && e.cmd.Delete?
    ensures var r := Step(Live(d), e);
            if d.clid != [] && d.clid != e.clid then r == Reply(2201, Live(d))
            else if Ascii("clientDeleteProhibited") in d.status || d.transferStatus == Ascii("pending")
            then r == Reply(2304, Live(d))
            else if (d.rgpState == 1 || d.rgpState == 2 || d.rgpState == 3) && e.now < d.rgpUntil
            then r == Reply(1000, Absent)
            else Puts(Live(d), e, 1001,
                      Domain(d.roid, d.clid, d.status, d.authinfo, d.crdate, d.exdate, d.registrant, d.ns, d.ds, 4,
                             (e.now + e.cfg.redemption) % 0x1_0000_0000, d.transferReid, d.transferRedate, d.transferStatus),
                      r)
  {
    var x := d.(rgpState := REDEMPTION, rgpUntil := Plus(e.now, e.cfg.redemption));
    assert WellFormed(x);
    hide Puts, Ascii, WellFormed, Save;
    SavePuts(Live(d), e, 1001, x);
  }

  lemma RenewEffect(d: Domain, e: Event)
    requires WellFormed(d) && EventOk(e) && e.cmd.Renew?
    ensures var r, years := Step(Live(d), e), if e.cmd.years == 0 then 1 else e.cmd.years;
            if d.clid != [] && d.clid != e.clid then r == Reply(2201, Live(d))
            else if Ascii("clientRenewProhibited") in d.status || Ascii("serverRenewProhibited") in d.status
            then r == Reply(2304, Live(d))
            else if e.cmd.believes != e.cfg.date(d.exdate) then r == Reply(2306, Live(d))
            else Puts(Live(d), e, 1000,
                      Domain(d.roid, d.clid, d.status, d.authinfo, d.crdate, (d.exdate + years * 31536000) % 0x1_0000_0000,
                             d.registrant, d.ns, d.ds, 0, 0, d.transferReid, d.transferRedate, d.transferStatus),
                      r)
  {
    hide Puts, Ascii, WellFormed, Save;
    SavePuts(Live(d), e, 1000, Renewed(d, e.cmd.years));
  }

  // ---- transfers -----------------------------------------------------------

  /** A request by another registrar that knows the authInfo becomes pending. */
  lemma RequestEffect(d: Domain, e: Event)
    requires WellFormed(d) && EventOk(e) && e.cmd.Request?
    ensures var r := Step(Live(d), e);
            if d.transferStatus == Ascii("pending") || Ascii("clientTransferProhibited") in d.status
               || Ascii("serverTransferProhibited") in d.status
            then r == Reply(2304, Live(d))
            else if d.clid == e.clid then r == Reply(2002, Live(d))
            else if d.authinfo == [] || d.authinfo != e.cmd.pw then r == Reply(2200, Live(d))
            else Puts(Live(d), e, 1001,
                      Domain(d.roid, d.clid, d.status, d.authinfo, d.crdate, d.exdate, d.registrant, d.ns, d.ds,
                             d.rgpState, d.rgpUntil, e.clid, e.now, Ascii("pending")),
                      r)
  {
    var x := d.(transferReid := e.clid, transferRedate := e.now, transferStatus := PENDING);
    assert WellFormed(x);
    hide Puts, Ascii, WellFormed, Save;
    SavePuts(Live(d), e, 1001, x);
  }

  /** Withdrawing or turning down a pending transfer changes its status only. */
  lemma RefusalEffect(d: Domain, e: Event)
    requires WellFormed(d) && EventOk(e) && (e.cmd.Cancel? || e.cmd.Reject?)
    ensures var r := Step(Live(d), e);
            if d.transferStatus != Ascii("pending") then r == Reply(2304, Live(d))
            else if e.cmd.Cancel? && e.clid != d.transferReid then r == Reply(2201, Live(d))
            else if e.cmd.Reject? && (d.clid == [] || e.clid != d.clid) then r == Reply(2201, Live(d))
            else Puts(Live(d), e, 1000,
                      Domain(d.roid, d.clid, d.status, d.authinfo, d.crdate, d.exdate, d.registrant, d.ns, d.ds,
                             d.rgpState, d.rgpUntil, d.transferReid, d.transferRedate,
                             Ascii(if e.cmd.Cancel? then "clientCancelled" else "clientRejected")),
                      r)
  {
    var x := d.(transferStatus := if e.cmd.Cancel? then CLIENT_CANCELLED else CLIENT_REJECTED);
    assert WellFormed(x);
    hide Puts, Ascii, WellFormed, Save;
    SavePuts(Live(d), e, 1000, x);
  }

  /** The domain after an approval: the requesting registrar sponsors it, for one more
      year, in the transfer grace window; all else is as it was. */
  function HandedTo(d: Domain, exdate: u32, status: Text, until: u32): Domain {
    Domain(d.roid, d.transferReid, d.status, d.authinfo, d.crdate, (exdate + 31536000) % 0x1_0000_0000,
           d.registrant, d.ns, d.ds, 3, until, d.transferReid, d.transferRedate, status)
  }

  lemma ApproveEffect(d: Domain, e: Event)
    requires WellFormed(d) && EventOk(e) && e.cmd.Approve?
    ensures var r := Step(Live(d), e);
            if d.transferStatus != Ascii("pending") then r == Reply(2304, Live(d))
            else if d.clid == [] || e.clid != d.clid then r == Reply(2201, Live(d))
            else Puts(Live(d), e, 1000,
                      HandedTo(d, d.exdate, Ascii("clientApproved"), (e.now + e.cfg.transferGrace) % 0x1_0000_0000), r)
  {
    hide Puts, Ascii, WellFormed, Save;
    SavePuts(Live(d), e, 1000, HandedOver(d, e));
  }

  /** The same field by field, for an approval that is stored. */
  lemma ApproveFields(d: Domain, e: Event)
    requires WellFormed(d) && EventOk(e) && e.cmd.Approve? && Step(Live(d), e).code == 1000
    requires Step(Live(d), e).slot != Live(d)
    ensures var r := Step(Live(d), e).slot;
            && r.Live? && r.d.clid == d.transferReid && r.d.transferStatus == Ascii("clientApproved")
            && r.d.exdate == (d.exdate + 31536000) % 0x1_0000_0000
            && r.d.rgpState == 3 && r.d.rgpUntil == (e.now + e.cfg.transferGrace) % 0x1_0000_0000
            && r.d.roid == d.roid && r.d.status == d.status && r.d.authinfo == d.authinfo && r.d.crdate == d.crdate
            && r.d.registrant == d.registrant && r.d.ns == d.ns && r.d.ds == d.ds
            && r.d.transferReid == d.transferReid && r.d.transferRedate == d.transferRedate
  {
    hide Ascii, WellFormed, Step, Length, SetLen;
    ApproveEffect(d, e);
  }

  // ---- the sweep -----------------------------------------------------------

  /** Expiry and grace, before a transfer is looked at. */
  function Aged(d: Domain, e: Event): Domain {
    if d.rgpState != 4 && e.now >= d.exdate then
      d.(exdate := (d.exdate + 31536000) % 0x1_0000_0000, rgpState := 2,
         rgpUntil := (e.now + e.cfg.autorenewGrace) % 0x1_0000_0000)
    else if (d.rgpState == 1 || d.rgpState == 2 || d.rgpState == 3) && e.now >= d.rgpUntil then
      d.(rgpState := 0, rgpUntil := 0)
    else d
  }

  predicate WindowOver(d: Domain, e: Event) {
    d.transferStatus == Ascii("pending") && (e.now - d.transferRedate) % 0x1_0000_0000 > e.cfg.pending
  }

  /** An elapsed redemption is purged. Otherwise an expired registration is renewed, an
      elapsed grace window is closed, and an overdue transfer is approved. */
  lemma TickEffect(d: Domain, e: Event)
    requires WellFormed(d) && EventOk(e) && e.cmd.Tick?
    ensures var r := Step(Live(d), e).slot;
            if d.rgpState == 4 && e.now >= d.rgpUntil then r == Absent
            else
              var x := if WindowOver(d, e)
                       then HandedTo(Aged(d, e), Aged(d, e).exdate, Ascii("serverApproved"),
                                     (e.now + e.cfg.transferGrace) % 0x1_0000_0000)
                       else Aged(d, e);
              r == if Length(x) <= 4096 && SetLen(e.name, 2 * Length(x)) < 8192 then Live(x) else Live(d)
  {
    hide Ascii, WellFormed, Save, Length, SetLen;
    SavePuts(Live(d), e, 0, Swept(d, e));
    assert Overdue(d, e) == WindowOver(d, e);
  }

  /** An overdue transfer that is stored makes the requesting registrar the sponsor. */
  lemma OverdueFields(d: Domain, e: Event)
    requires WellFormed(d) && EventOk(e) && e.cmd.Tick? && WindowOver(d, e)
    requires Step(Live(d), e).slot.Live? && Step(Live(d), e).slot != Live(d)
    ensures Step(Live(d), e).slot.d.clid == d.transferReid
    ensures Step(Live(d), e).slot.d.transferStatus == Ascii("serverApproved")
  {
    hide Ascii, WellFormed, Step, Length, SetLen;
    TickEffect(d, e);
  }

  // ---- updates -------------------------------------------------------------

  /** Some entries of a list, in their order. */
  ghost predicate Picked<T>(xs: seq<T>, idx: seq<nat>, ys: seq<T>) {
    && |idx| == |ys|
    && (forall k :: 0 <= k < |idx| ==> idx[k] < |xs| && ys[k] == xs[idx[k]])
    && (forall k, l :: 0 <= k < l < |idx| ==> idx[k] < idx[l])
  }

  /** Exactly the entries that do not occur among the removed ones. */
  ghost predicate Thinned(was: seq<Text>, rems: seq<Text>, fold: bool, now: seq<Text>, idx: seq<nat>) {
    && Picked(was, idx, now)
    && forall i :: 0 <= i < |was| ==> (i in idx <==> !exists j :: 0 <= j < |rems| && SameText(rems[j], was[i], fold))
  }

  /** New entries behind the old ones, in order, none twice, and all of them unless
      the list is full. */
  ghost predicate Grown(was: seq<Text>, adds: seq<Text>, fold: bool, now: seq<Text>, idx: seq<nat>) {
    && was <= now && (|now| <= 16 || now == was) && Picked(adds, idx, now[|was|..])
    && (forall k, l :: 0 <= k < l < |now| && l >= |was| ==> !SameText(now[k], now[l], fold))
    && (|now| < 16 ==> forall i :: 0 <= i < |adds| ==> exists k :: 0 <= k < |now| && SameText(now[k], adds[i], fold))
  }

  lemma {:induction false} RemoveThins(xs: seq<Text>, rems: seq<Text>, fold: bool) returns (idx: seq<nat>)
    ensures Thinned(xs, rems, fold, RemoveEach(xs, rems, fold), idx)
    decreases |xs|
  {
    hide SameText;
    if xs == [] {
      idx := [];
    } else {
      var n := |xs| - 1;
      idx := RemoveThins(xs[..n], rems, fold);
      assert forall i :: 0 <= i < n ==> xs[..n][i] == xs[i];
      var rest := RemoveEach(xs[..n], rems, fold);
      if !Holds(rems, xs[n], fold) {
        ThinnedMore(xs, rems, fold, rest, idx);
        idx := idx + [n];
      } else {
        ThinnedLess(xs, rems, fold, rest, idx);
      }
    }
  }

  lemma ThinnedMore(xs: seq<Text>, rems: seq<Text>, fold: bool, rest: seq<Text>, idx: seq<nat>)
    requires xs != [] && Thinned(xs[..|xs| - 1], rems, fold, rest, idx) && !Holds(rems, xs[|xs| - 1], fold)
    ensures Thinned(xs, rems, fold, rest + [xs[|xs| - 1]], idx + [|xs| - 1])
  {
    hide SameText;
    var n := |xs| - 1;
    assert forall i :: 0 <= i < n ==> xs[..n][i] == xs[i];
    forall i | 0 <= i < |xs|
      ensures i in idx + [n] <==> !exists j :: 0 <= j < |rems| && SameText(rems[j], xs[i], fold)
    {
      if i < n { assert i in idx + [n] <==> i in idx; }
    }
  }

  lemma ThinnedLess(xs: seq<Text>, rems: seq<Text>, fold: bool, rest: seq<Text>, idx: seq<nat>)
    requires xs != [] && Thinned(xs[..|xs| - 1], rems, fold, rest, idx) && Holds(rems, xs[|xs| - 1], fold)
    ensures Thinned(xs, rems, fold, rest, idx)
  {
    hide SameText;
    var n := |xs| - 1;
    assert forall i :: 0 <= i < n ==> xs[..n][i] == xs[i];
    assert n !in idx;
  }

  function Shift(idx: seq<nat>): (r: seq<nat>)
    ensures |r| == |idx| && forall k :: 0 <= k < |idx| ==> r[k] == idx[k] + 1
  {
    seq(|idx|, k requires 0 <= k < |idx| => idx[k] + 1)
  }

  lemma GrownSkip(xs: seq<Text>, adds: seq<Text>, fold: bool, now: seq<Text>, idx: seq<nat>)
    requires adds != [] && Holds(xs, adds[0], fold) && Grown(xs, adds[1..], fold, now, idx)
    ensures Grown(xs, adds, fold, now, Shift(idx))
  {
    PickedCons(adds, idx, now[|xs|..]);
    hide SameText, Picked;
    var k :| 0 <= k < |xs| && SameText(xs[k], adds[0], fold);
    assert now[k] == xs[k];
    if |now| < 16 {
      forall i | 0 <= i < |adds| ensures exists k :: 0 <= k < |now| && SameText(now[k], adds[i], fold) {
        if i > 0 { assert adds[1..][i - 1] == adds[i]; }
      }
    }
  }

  lemma GrownTake(xs: seq<Text>, adds: seq<Text>, fold: bool, now: seq<Text>, idx: seq<nat>)
    requires adds != [] && |xs| < 16 && !Holds(xs, adds[0], fold) && Grown(xs + [adds[0]], adds[1..], fold, now, idx)
    ensures Grown(xs, adds, fold, now, [0] + Shift(idx))
  {
    var ys := xs + [adds[0]];
    PickedCons(adds, idx, now[|ys|..]);
    hide SameText, Picked;
    assert now[|xs|] == ys[|xs|] == adds[0];
    assert now[|xs|..] == [adds[0]] + now[|ys|..];
    forall k, l | 0 <= k < l < |now| && l >= |xs| ensures !SameText(now[k], now[l], fold) {
      if l == |xs| { assert now[k] == ys[k] == xs[k]; }
    }
    if |now| < 16 {
      forall i | 0 <= i < |adds| ensures exists k :: 0 <= k < |now| && SameText(now[k], adds[i], fold) {
        if i > 0 { assert adds[1..][i - 1] == adds[i]; } else { SameSelf(now[|xs|], fold); }
      }
    }
  }

  lemma SameSelf(t: Text, fold: bool)
    ensures SameText(t, t, fold)
  {
  }

  lemma {:induction false} AddGrows(xs: seq<Text>, adds: seq<Text>, fold: bool) returns (idx: seq<nat>)
    ensures Grown(xs, adds, fold, AddEach(xs, adds, fold), idx)
    decreases |adds|
  {
    hide SameText, Holds;
    if adds == [] || |xs| >= 16 {
      idx := [];
    } else {
      hide Grown;
      if Holds(xs, adds[0], fold) {
        var i := AddGrows(xs, adds[1..], fold);
        GrownSkip(xs, adds, fold, AddEach(xs, adds[1..], fold), i);
        idx := Shift(i);
      } else {
        var ys := xs + [adds[0]];
        var i := AddGrows(ys, adds[1..], fold);
        GrownTake(xs, adds, fold, AddEach(ys, adds[1..], fold), i);
        idx := [0] + Shift(i);
      }
    }
  }

  /** The statuses that a registrar may set. */
  predicate MaySet(t: Text) { t == Ascii("clientHold") || MayProhibit(t) }

  predicate MayProhibit(t: Text) {
    || t == Ascii("clientUpdateProhibited") || t == Ascii("clientDeleteProhibited")
    || t == Ascii("clientTransferProhibited") || t == Ascii("clientRenewProhibited")
  }

  ghost predicate Allowed(ts: seq<Text>, now: seq<Text>, idx: seq<nat>) {
    Picked(ts, idx, now) && forall i :: 0 <= i < |ts| ==> (i in idx <==> MaySet(ts[i]))
  }

  lemma SettableIs(t: Text)
    ensures t in SETTABLE <==> MaySet(t)
  {
    hide Ascii;
  }

  lemma {:induction false} SettableAllowed(ts: seq<Text>) returns (idx: seq<nat>)
    ensures Allowed(ts, Settable(ts), idx)
    decreases |ts|
  {
    hide SETTABLE, MaySet;
    if ts == [] {
      idx := [];
    } else {
      SettableIs(ts[0]);
      var i := SettableAllowed(ts[1..]);
      AllowedMore(ts, Settable(ts[1..]), i);
      idx := if MaySet(ts[0]) then [0] + Shift(i) else Shift(i);
      assert [] + Settable(ts[1..]) == Settable(ts[1..]);
    }
  }

  lemma InShift(idx: seq<nat>, i: nat)
    ensures i in Shift(idx) <==> i > 0 && i - 1 in idx
  {
    if i > 0 && i - 1 in idx {
      var k :| 0 <= k < |idx| && idx[k] == i - 1;
      assert Shift(idx)[k] == i;
    }
  }

  lemma PickedCons<T>(xs: seq<T>, idx: seq<nat>, ys: seq<T>)
    requires xs != [] && Picked(xs[1..], idx, ys)
    ensures Picked(xs, Shift(idx), ys) && Picked(xs, [0] + Shift(idx), [xs[0]] + ys)
  {
    var a, b := [0] + Shift(idx), [xs[0]] + ys;
    forall k | 0 <= k < |a| ensures a[k] < |xs| && b[k] == xs[a[k]] {
      if k > 0 { assert a[k] == idx[k - 1] + 1 && b[k] == ys[k - 1]; }
    }
    forall k, l | 0 <= k < l < |a| ensures a[k] < a[l] {
      assert a[l] == idx[l - 1] + 1;
      if k > 0 { assert a[k] == idx[k - 1] + 1; }
    }
  }

  lemma AllowedMore(ts: seq<Text>, rest: seq<Text>, idx: seq<nat>)
    requires ts != [] && Allowed(ts[1..], rest, idx)
    ensures MaySet(ts[0]) ==> Allowed(ts, [ts[0]] + rest, [0] + Shift(idx))
    ensures !MaySet(ts[0]) ==> Allowed(ts, rest, Shift(idx))
  {
    PickedCons(ts, idx, rest);
    hide MaySet, Picked;
    forall i | 0 <= i < |ts|
      ensures i in Shift(idx) <==> i > 0 && MaySet(ts[i])
      ensures i in [0] + Shift(idx) <==> i == 0 || MaySet(ts[i])
    {
      InShift(idx, i);
      if i > 0 { assert ts[1..][i - 1] == ts[i]; }
    }
  }

  /** Exactly the records whose key tag, algorithm and digest type are not removed. */
  ghost predicate DsThinned(was: seq<DsData>, rems: seq<DsData>, now: seq<DsData>, idx: seq<nat>) {
    && Picked(was, idx, now)
    && forall i :: 0 <= i < |was| ==>
         (i in idx <==> !exists j :: 0 <= j < |rems| && rems[j].keytag == was[i].keytag
                                     && rems[j].alg == was[i].alg && rems[j].digtype == was[i].digtype)
  }

  lemma {:induction false} RemoveDsThins(es: seq<DsData>, rems: seq<DsData>) returns (idx: seq<nat>)
    ensures DsThinned(es, rems, RemoveDs(es, rems), idx)
    decreases |es|
  {
    if es == [] {
      idx := [];
    } else {
      var n := |es| - 1;
      idx := RemoveDsThins(es[..n], rems);
      var gone := exists i :: 0 <= i < |rems| && SameKey(rems[i], es[n]);
      DsThinnedMore(es, rems, RemoveDs(es[..n], rems), idx, gone);
      if !gone { idx := idx + [n]; }
    }
  }

  lemma DsThinnedMore(es: seq<DsData>, rems: seq<DsData>, rest: seq<DsData>, idx: seq<nat>, gone: bool)
    requires es != [] && DsThinned(es[..|es| - 1], rems, rest, idx)
    requires gone == exists i :: 0 <= i < |rems| && SameKey(rems[i], es[|es| - 1])
    ensures gone ==> DsThinned(es, rems, rest, idx)
    ensures !gone ==> DsThinned(es, rems, rest + [es[|es| - 1]], idx + [|es| - 1])
  {
    var n := |es| - 1;
    assert forall i :: 0 <= i < n ==> es[..n][i] == es[i];
    assert n !in idx;
    forall i | 0 <= i < |es| ensures i in idx + [n] <==> i in idx || i == n {
    }
  }

  /** What an update does to each field. */
  ghost predicate Updated(d: Domain, u: Edit, x: Domain) {
    && x.roid == d.roid && x.clid == d.clid && x.crdate == d.crdate && x.exdate == d.exdate
    && x.transferReid == d.transferReid && x.transferRedate == d.transferRedate && x.transferStatus == d.transferStatus
    && x.registrant == (if u.registrant.Some? then u.registrant.value else d.registrant)
    && x.authinfo == (if u.authinfo.Some? then u.authinfo.value else d.authinfo)
    && (if u.restore && d.rgpState == 4 then x.rgpState == 0 && x.rgpUntil == 0
        else x.rgpState == d.rgpState && x.rgpUntil == d.rgpUntil)
    && ServersEdited(d, u, x) && StatusEdited(d, u, x) && DsEdited(d, u, x)
  }

  ghost predicate ServersEdited(d: Domain, u: Edit, x: Domain) {
    exists m, i, j :: Grown(d.ns, u.addNs, true, m, i) && Thinned(m, u.remNs, true, x.ns, j)
  }

  ghost predicate StatusEdited(d: Domain, u: Edit, x: Domain) {
    exists w, a, m, i, j ::
      Allowed(u.addStatus, w, a) && Grown(d.status, w, false, m, i) && Thinned(m, u.remStatus, false, x.status, j)
  }

  /** A new set replaces the old; otherwise additions fill up to sixteen before
      removals. */
  ghost predicate DsEdited(d: Domain, u: Edit, x: Domain) {
    if u.setDs.Some? then x.ds == u.setDs.value
    else exists n: nat, j :: n <= |u.addDs| && (n == |u.addDs| || |d.ds| + n >= 16) && (n == 0 || |d.ds| + n <= 16)
                             && DsThinned(d.ds + u.addDs[..n], u.remDs, x.ds, j)
  }

  lemma EditsDs(d: Domain, u: Edit)
    requires |d.ds| <= 16
    ensures DsEdited(d, u, Edited(d, u))
  {
    hide AddEach, RemoveEach, Settable, RemoveDs, DsThinned;
    if u.setDs.None? {
      var n := if |d.ds| + |u.addDs| <= 16 then |u.addDs| else 16 - |d.ds|;
      assert u.addDs[..|u.addDs|] == u.addDs;
      assert AddDs(d.ds, u.addDs) == d.ds + u.addDs[..n];
      var j := RemoveDsThins(AddDs(d.ds, u.addDs), u.remDs);
    }
  }

  lemma EditsLists(d: Domain, u: Edit)
    ensures ServersEdited(d, u, Edited(d, u)) && StatusEdited(d, u, Edited(d, u))
  {
    hide AddEach, RemoveEach, Settable, RemoveDs, AddDs, Grown, Thinned, Allowed;
    var i := AddGrows(d.ns, u.addNs, true);
    var j := RemoveThins(AddEach(d.ns, u.addNs, true), u.remNs, true);
    var w := Settable(u.addStatus);
    var a := SettableAllowed(u.addStatus);
    var k := AddGrows(d.status, w, false);
    var l := RemoveThins(AddEach(d.status, w, false), u.remStatus, false);
  }

  lemma UpdateEffect(d: Domain, e: Event) returns (x: Domain)
    requires WellFormed(d) && EventOk(e) && e.cmd.Update?
    ensures Updated(d, e.cmd.edit, x)
    ensures var r := Step(Live(d), e);
            if d.clid != [] && d.clid != e.clid then r == Reply(2201, Live(d))
            else if Ascii("clientUpdateProhibited") in d.status then r == Reply(2304, Live(d))
            else Puts(Live(d), e, 1000, x, r)
  {
    x := Edited(d, e.cmd.edit);
    EditedFits(d, e.cmd.edit);
    EditsDs(d, e.cmd.edit);
    EditsLists(d, e.cmd.edit);
    hide Puts, Ascii, WellFormed, Save, ServersEdited, StatusEdited, DsEdited;
    SavePuts(Live(d), e, 1000, x);
    hide AddEach, RemoveEach, Settable, RemoveDs, AddDs;
  }

  // ---- runs ----------------------------------------------------------------

  /** A stored approval of a pending transfer makes the registrar that requested it the
      sponsor. */
  lemma ApprovalTransfers(xs: seq<Slot>, es: seq<Event>, i: nat) returns (j: nat)
    requires Execution(xs, es) && i < |es| && xs[i].Live? && xs[i + 1] != xs[i]
    requires (es[i].cmd.Approve? && Step(xs[i], es[i]).code == 1000)
             || (es[i].cmd.Tick? && xs[i + 1].Live? && WindowOver(xs[i].d, es[i]))
    ensures j < i && xs[j].Live? && es[j].cmd.Request? && PendingSince(xs, j, i)
    ensures xs[i + 1].Live? && xs[i + 1].d.clid == es[j].clid
  {
    assert StepOk(xs[i], es[i], xs[i + 1]);
    var d := xs[i].d;
    hide Ascii, WellFormed, EventOk, Step, Length, SetLen, Execution;
    if es[i].cmd.Approve? {
      ApproveFields(d, es[i]);
      ApproveEffect(d, es[i]);
    } else {
      OverdueFields(d, es[i]);
    }
    assert d.transferStatus == PENDING;
    j := RequestBehind(xs, es, i);
    assert xs[j + 1].d.transferReid == d.transferReid;
  }

  /** The sweep removes a domain once the redemption window of its delete is over. */
  lemma RedemptionEnds(xs: seq<Slot>, es: seq<Event>, i: nat)
    requires Execution(xs, es) && i < |es| && xs[i].Live? && es[i].cmd.Tick?
    requires xs[i].d.rgpState == 4 && es[i].now >= xs[i].d.rgpUntil
    ensures xs[i + 1] == Absent
  {
    assert StepOk(xs[i], es[i], xs[i + 1]);
    hide Ascii, WellFormed, EventOk, Step, Length, SetLen;
    TickEffect(xs[i].d, es[i]);
  }
}
