/** What holds of a domain over every run of commands and sweeps. */
module LifecycleRuns {
  import opened Bytes
  import opened DomainCodec
  import opened Lifecycle

  // ---- one step ------------------------------------------------------------

  /** The sponsor changes only by approval of a pending transfer, by the losing
      registrar or after the pending window, and to the requesting registrar. */
  ghost predicate SponsorFact(d: Domain, e: Event, r: Slot) {
    r.Live? && r.d.clid != d.clid ==>
      && d.transferStatus == PENDING && r.d.clid == d.transferReid && r.d.transferStatus != PENDING
      && ((e.cmd.Approve? && e.clid == d.clid) || (e.cmd.Tick? && Overdue(d, e)))
  }

  ghost predicate BirthFact(d: Domain, r: Slot) {
    r.Live? ==> r.d.crdate == d.crdate && r.d.roid == d.roid
  }

  /** A domain goes only by its sponsor's delete inside a live grace window or by
      the sweep after the redemption window. */
  ghost predicate GoneFact(d: Domain, e: Event, r: Slot) {
    && !r.Corrupt?
    && (r.Absent? ==> (e.cmd.Delete? && Sponsor(d, e.clid) && InGrace(d, e.now))
                      || (e.cmd.Tick? && d.rgpState == REDEMPTION && e.now >= d.rgpUntil))
  }

  predicate Requested(d: Domain, e: Event, r: Domain) {
    && e.cmd.Request? && e.cmd.pw == d.authinfo && d.authinfo != [] && e.clid != d.clid
    && r.transferReid == e.clid && r.transferRedate == e.now
  }

  /** A transfer is pending only from a request that matched the authInfo. */
  ghost predicate PendingFact(d: Domain, e: Event, r: Slot) {
    r.Live? && r.d.transferStatus == PENDING ==>
      || (d.transferStatus == PENDING && r.d.transferReid == d.transferReid && r.d.transferRedate == d.transferRedate)
      || Requested(d, e, r.d)
  }

  predicate Condemned(d: Domain, e: Event, r: Domain) {
    e.cmd.Delete? && Sponsor(d, e.clid) && r.rgpUntil == Plus(e.now, e.cfg.redemption)
  }

  /** Redemption starts only with a delete by the sponsor, and keeps its end. */
  ghost predicate RedemptionFact(d: Domain, e: Event, r: Slot) {
    r.Live? && r.d.rgpState == REDEMPTION ==>
      (d.rgpState == REDEMPTION && r.d.rgpUntil == d.rgpUntil) || Condemned(d, e, r.d)
  }

  /** What extended the registration. */
  datatype Tally = Tally(years: nat, autos: nat, transfers: nat)

  function Sum(t: Tally): nat { 1 + t.years + t.autos + t.transfers }

  /** Acknowledged, and stored. */
  predicate RenewalKept(d: Domain, e: Event)
    requires WellFormed(d) && EventOk(e)
  {
    e.cmd.Renew? && OnLive(d, e).code == 1000 && Stored(e.name, Renewed(d, e.cmd.years))
  }

  predicate ApprovalKept(d: Domain, e: Event)
    requires WellFormed(d) && EventOk(e)
  {
    e.cmd.Approve? && OnLive(d, e).code == 1000 && Stored(e.name, HandedOver(d, e))
  }

  function Extended(t: Tally, d: Domain, e: Event): Tally
    requires WellFormed(d) && EventOk(e)
  {
    if RenewalKept(d, e) then t.(years := t.years + Years(e.cmd.years))
    else if ApprovalKept(d, e) then t.(transfers := t.transfers + 1)
    else if e.cmd.Tick? && Stored(e.name, Swept(d, e)) then
      t.(autos := t.autos + if Expired(d, e) then 1 else 0, transfers := t.transfers + if Overdue(d, e) then 1 else 0)
    else t
  }

  /** How many years a step adds. */
  function Gain(d: Domain, e: Event): nat
    requires WellFormed(d) && EventOk(e)
  {
    if RenewalKept(d, e) then Years(e.cmd.years)
    else if ApprovalKept(d, e) then 1
    else if e.cmd.Tick? && Stored(e.name, Swept(d, e)) then
      (if Expired(d, e) then 1 else 0) + (if Overdue(d, e) then 1 else 0)
    else 0
  }

  lemma ExtendedGain(t: Tally, d: Domain, e: Event)
    requires WellFormed(d) && EventOk(e)
    ensures Sum(Extended(t, d, e)) == Sum(t) + Gain(d, e)
  {
    hide OnLive, Stored, WellFormed, EventOk;
  }

  ghost predicate ExpiryFact(d: Domain, e: Event, r: Slot)
    requires WellFormed(d) && EventOk(e)
  {
    r.Live? ==> r.d.exdate == Plus(d.exdate, YEAR * Gain(d, e))
  }

  ghost predicate Facts(d: Domain, e: Event, r: Slot)
    requires WellFormed(d) && EventOk(e)
  {
    && SponsorFact(d, e, r) && BirthFact(d, r) && GoneFact(d, e, r) && PendingFact(d, e, r) && RedemptionFact(d, e, r)
    && ExpiryFact(d, e, r)
  }

  lemma PlusNone(a: u32)
    ensures Plus(a, 0) == a
  {
  }

  lemma NotPending()
    ensures CLIENT_APPROVED != PENDING && CLIENT_REJECTED != PENDING && CLIENT_CANCELLED != PENDING
    ensures SERVER_APPROVED != PENDING
  {
    assert |PENDING| == 7 && |CLIENT_APPROVED| == 14 && |CLIENT_REJECTED| == 14 && |CLIENT_CANCELLED| == 15;
    assert |SERVER_APPROVED| == 14;
  }

  lemma NothingGained(d: Domain, e: Event)
    requires WellFormed(d) && EventOk(e) && !e.cmd.Renew? && !e.cmd.Approve? && !e.cmd.Tick?
    ensures Gain(d, e) == 0
  {
    hide OnLive;
  }

  lemma UpdateFacts(d: Domain, e: Event)
    requires WellFormed(d) && EventOk(e) && e.cmd.Update?
    ensures Facts(d, e, OnUpdate(d, e).slot)
  {
    hide AddEach, RemoveEach, RemoveDs, AddDs, Settable, WellFormed, Encode, Stored, Ascii, Gain, EditOk;
    PlusNone(d.exdate);
    NothingGained(d, e);
  }

  lemma DeleteFacts(d: Domain, e: Event)
    requires WellFormed(d) && EventOk(e) && e.cmd.Delete?
    ensures Facts(d, e, OnDelete(d, e).slot)
  {
    hide WellFormed, Encode, Stored, Ascii, Gain;
    PlusNone(d.exdate);
    NothingGained(d, e);
  }

  lemma RenewFacts(d: Domain, e: Event)
    requires WellFormed(d) && EventOk(e) && e.cmd.Renew?
    ensures Facts(d, e, OnRenew(d, e).slot)
  {
    hide WellFormed, Encode, Stored, Ascii;
    PlusNone(d.exdate);
    assert OnLive(d, e) == OnRenew(d, e);
    hide OnLive;
    Factors(Years(e.cmd.years));
  }

  lemma Factors(y: nat)
    ensures YEAR * y == y * YEAR
  {
  }

  lemma RequestFacts(d: Domain, e: Event)
    requires WellFormed(d) && EventOk(e) && e.cmd.Request?
    ensures Facts(d, e, OnRequest(d, e).slot)
  {
    hide WellFormed, Encode, Stored, Ascii, Gain;
    PlusNone(d.exdate);
    NothingGained(d, e);
  }

  lemma AnswerFacts(d: Domain, e: Event)
    requires WellFormed(d) && EventOk(e) && (e.cmd.Cancel? || e.cmd.Reject? || e.cmd.Approve?)
    ensures Facts(d, e, OnAnswer(d, e).slot)
  {
    hide WellFormed, Encode, Stored, Ascii;
    PlusNone(d.exdate);
    NotPending();
    assert OnLive(d, e) == OnAnswer(d, e);
    hide OnLive;
  }

  lemma SweepExpiry(d: Domain, e: Event)
    requires WellFormed(d) && EventOk(e) && e.cmd.Tick?
    ensures Stored(e.name, Swept(d, e)) ==> Swept(d, e).exdate == Plus(d.exdate, YEAR * Gain(d, e))
    ensures !Stored(e.name, Swept(d, e)) ==> Gain(d, e) == 0
  {
    hide WellFormed, Encode, Stored, Ascii, OnLive;
    PlusNone(d.exdate);
    PlusPlus(d.exdate, YEAR, YEAR);
  }

  lemma PlusPlus(a: u32, b: nat, c: nat)
    ensures Plus(Plus(a, b), c) == Plus(a, b + c)
  {
  }

  lemma TickFacts(d: Domain, e: Event)
    requires WellFormed(d) && EventOk(e) && e.cmd.Tick?
    ensures Facts(d, e, OnTick(d, e).slot)
  {
    hide WellFormed, Encode, SetLen, Ascii, Gain, Plus;
    NotPending();
    PlusNone(d.exdate);
    SweepExpiry(d, e);
  }

  lemma CreateFacts(d: Domain, e: Event)
    requires WellFormed(d) && EventOk(e) && e.cmd.Create?
    ensures Facts(d, e, Live(d))
  {
    hide WellFormed, Gain;
    PlusNone(d.exdate);
    NothingGained(d, e);
  }

  lemma LiveFacts(d: Domain, e: Event)
    requires WellFormed(d) && EventOk(e)
    ensures Facts(d, e, OnLive(d, e).slot)
  {
    hide Facts, WellFormed, EventOk, OnUpdate, OnDelete, OnRenew, OnRequest, OnAnswer, OnTick;
    match e.cmd
    case Create(_, _, _, _, _) => CreateFacts(d, e);
    case Update(_) => UpdateFacts(d, e);
    case Delete => DeleteFacts(d, e);
    case Renew(_, _) => RenewFacts(d, e);
    case Request(_) => RequestFacts(d, e);
    case Tick => TickFacts(d, e);
    case _ => AnswerFacts(d, e);
  }

  // ---- runs ----------------------------------------------------------------

  ghost predicate Execution(xs: seq<Slot>, es: seq<Event>) {
    && |xs| == |es| + 1 && xs[0] == Absent
    && (forall i :: 0 <= i < |es| ==> es[i].name == es[0].name)
    && forall i :: 0 <= i < |es| ==> StepOk(xs[i], es[i], xs[i + 1])
  }

  ghost predicate StepOk(s: Slot, e: Event, r: Slot) {
    SlotOk(s) && EventOk(e) && r == Step(s, e).slot
  }

  lemma StepFacts(s: Slot, e: Event, r: Slot)
    requires StepOk(s, e, r)
    ensures s.Live? ==> WellFormed(s.d) && EventOk(e) && Facts(s.d, e, r)
    ensures s.Absent? && r.Live? ==> e.cmd.Create? && EventOk(e) && r.d == Created(e)
                                     && r.d.transferStatus != PENDING && r.d.rgpState != REDEMPTION
    ensures s.Absent? ==> !r.Corrupt?
  {
    hide Facts, WellFormed, OnLive, Encode, Created;
    if s.Live? { LiveFacts(s.d, e); }
    if e.cmd.Create? { FreshNotPending(e); }
  }

  /** Stored objects never turn corrupt. */
  lemma {:induction false} NeverCorrupt(xs: seq<Slot>, es: seq<Event>, i: nat)
    requires Execution(xs, es) && i <= |es|
    ensures !xs[i].Corrupt?
  {
    hide StepOk, Facts;
    if i > 0 {
      NeverCorrupt(xs, es, i - 1);
      StepFacts(xs[i - 1], es[i - 1], xs[i]);
      if xs[i - 1].Live? { FactGone(xs[i - 1].d, es[i - 1], xs[i]); }
    }
  }

  lemma FactGone(d: Domain, e: Event, r: Slot)
    requires WellFormed(d) && EventOk(e) && Facts(d, e, r)
    ensures GoneFact(d, e, r) && BirthFact(d, r) && SponsorFact(d, e, r) && PendingFact(d, e, r) && RedemptionFact(d, e, r)
    ensures ExpiryFact(d, e, r)
  {
  }

  /** The creation a live domain stems from: its crDate is the time of that
      command and has not changed since. */
  lemma {:induction false} BirthBehind(xs: seq<Slot>, es: seq<Event>, i: nat) returns (j: nat)
    requires Execution(xs, es) && i <= |es| && xs[i].Live?
    ensures j < i && xs[j].Absent? && es[j].cmd.Create?
    ensures forall k :: j < k <= i ==> xs[k].Live? && xs[k].d.crdate == es[j].now && xs[k].d.roid == es[j].cmd.roid
  {
    hide StepOk, Facts, WellFormed, EventOk, SponsorFact, PendingFact, RedemptionFact, ExpiryFact;
    assert i > 0;
    NeverCorrupt(xs, es, i - 1);
    StepFacts(xs[i - 1], es[i - 1], xs[i]);
    if xs[i - 1].Live? {
      FactGone(xs[i - 1].d, es[i - 1], xs[i]);
      j := BirthBehind(xs, es, i - 1);
    } else {
      j := i - 1;
    }
  }

  ghost predicate PendingSince(xs: seq<Slot>, j: nat, i: nat) {
    && j < i < |xs| && xs[i].Live?
    && forall k :: j < k <= i ==> xs[k].Live? && xs[k].d.transferStatus == PENDING
                                  && xs[k].d.transferReid == xs[i].d.transferReid
                                  && xs[k].d.transferRedate == xs[i].d.transferRedate
  }

  lemma PendingMore(xs: seq<Slot>, j: nat, i: nat)
    requires i + 1 < |xs| && xs[i + 1].Live? && xs[i + 1].d.transferStatus == PENDING
    requires j == i || (PendingSince(xs, j, i) && xs[i + 1].d.transferReid == xs[i].d.transferReid
                        && xs[i + 1].d.transferRedate == xs[i].d.transferRedate)
    ensures PendingSince(xs, j, i + 1)
  {
  }

  lemma CondemnedMore(xs: seq<Slot>, j: nat, i: nat)
    requires i + 1 < |xs| && xs[i + 1].Live? && xs[i + 1].d.rgpState == REDEMPTION
    requires j == i || (CondemnedSince(xs, j, i) && xs[i + 1].d.rgpUntil == xs[i].d.rgpUntil)
    ensures CondemnedSince(xs, j, i + 1)
  {
  }

  /** The request a pending transfer stems from: made by the gaining registrar,
      who was not the sponsor, with the authInfo of that moment. */
  lemma {:induction false} RequestBehind(xs: seq<Slot>, es: seq<Event>, i: nat) returns (j: nat)
    requires Execution(xs, es) && i <= |es| && xs[i].Live? && xs[i].d.transferStatus == PENDING
    ensures PendingSince(xs, j, i) && xs[j].Live? && Requested(xs[j].d, es[j], xs[j + 1].d)
  {
    j := 0;
    hide StepOk, Facts, WellFormed, EventOk, SponsorFact, BirthFact, RedemptionFact, ExpiryFact, Requested, Created, PendingSince;
    assert i > 0;
    NeverCorrupt(xs, es, i - 1);
    StepFacts(xs[i - 1], es[i - 1], xs[i]);
    if xs[i - 1].Live? {
      FactGone(xs[i - 1].d, es[i - 1], xs[i]);
      if Requested(xs[i - 1].d, es[i - 1], xs[i].d) {
        j := i - 1;
      } else {
        j := RequestBehind(xs, es, i - 1);
      }
      PendingMore(xs, j, i - 1);
    }
  }

  lemma FreshNotPending(e: Event)
    requires e.cmd.Create? && EventOk(e)
    ensures Created(e).transferStatus != PENDING && Created(e).rgpState == ADD
    ensures Created(e).exdate == Plus(Created(e).crdate, YEAR)
  {
    assert |PENDING| == 7;
  }

  ghost predicate CondemnedSince(xs: seq<Slot>, j: nat, i: nat) {
    && j < i < |xs| && xs[i].Live?
    && forall k :: j < k <= i ==> xs[k].Live? && xs[k].d.rgpState == REDEMPTION && xs[k].d.rgpUntil == xs[i].d.rgpUntil
  }

  /** The latest delete a redemption stems from: no restore, renewal or approved
      transfer since. */
  lemma {:induction false} DeleteBehind(xs: seq<Slot>, es: seq<Event>, i: nat) returns (j: nat)
    requires Execution(xs, es) && i <= |es| && xs[i].Live? && xs[i].d.rgpState == REDEMPTION
    ensures CondemnedSince(xs, j, i) && xs[j].Live? && Condemned(xs[j].d, es[j], xs[j + 1].d)
  {
    j := 0;
    hide StepOk, Facts, WellFormed, EventOk, SponsorFact, BirthFact, PendingFact, ExpiryFact, Condemned, Created, CondemnedSince;
    assert i > 0;
    NeverCorrupt(xs, es, i - 1);
    StepFacts(xs[i - 1], es[i - 1], xs[i]);
    if xs[i - 1].Live? {
      FactGone(xs[i - 1].d, es[i - 1], xs[i]);
      if Condemned(xs[i - 1].d, es[i - 1], xs[i].d) {
        j := i - 1;
      } else {
        j := DeleteBehind(xs, es, i - 1);
      }
      CondemnedMore(xs, j, i - 1);
    }
  }

  // ---- the promises --------------------------------------------------------

  /** The sponsor changes only by client or timed approval of a pending transfer,
      to the registrar whose request matched the authInfo. */
  lemma SponsorSafety(xs: seq<Slot>, es: seq<Event>, i: nat) returns (j: nat)
    requires Execution(xs, es) && i < |es| && xs[i].Live? && xs[i + 1].Live? && xs[i + 1].d.clid != xs[i].d.clid
    ensures (es[i].cmd.Approve? && es[i].clid == xs[i].d.clid) || (es[i].cmd.Tick? && Overdue(xs[i].d, es[i]))
    ensures j < i && xs[j].Live? && es[j].cmd.Request? && es[j].clid == xs[i + 1].d.clid && es[j].clid != xs[j].d.clid
    ensures es[j].cmd.pw == xs[j].d.authinfo && xs[j].d.authinfo != [] && PendingSince(xs, j, i)
  {
    hide StepOk, Facts, WellFormed, EventOk, BirthFact, PendingFact, RedemptionFact, ExpiryFact;
    StepFacts(xs[i], es[i], xs[i + 1]);
    FactGone(xs[i].d, es[i], xs[i + 1]);
    j := RequestBehind(xs, es, i);
    assert xs[j + 1].d.transferReid == xs[i].d.transferReid;
  }

  /** A domain disappears only by its sponsor's delete inside a live grace window
      or once the redemption window of its latest delete has elapsed. */
  lemma DisappearanceSafety(xs: seq<Slot>, es: seq<Event>, i: nat) returns (j: nat)
    requires Execution(xs, es) && i < |es| && xs[i].Live? && xs[i + 1].Absent?
    ensures (es[i].cmd.Delete? && Sponsor(xs[i].d, es[i].clid) && InGrace(xs[i].d, es[i].now))
            || (&& es[i].cmd.Tick? && j < i && xs[j].Live? && es[j].cmd.Delete? && Sponsor(xs[j].d, es[j].clid)
                && CondemnedSince(xs, j, i) && es[i].now >= Plus(es[j].now, es[j].cfg.redemption))
  {
    hide StepOk, Facts, WellFormed, EventOk, BirthFact, PendingFact, RedemptionFact, ExpiryFact, SponsorFact, InGrace;
    StepFacts(xs[i], es[i], xs[i + 1]);
    FactGone(xs[i].d, es[i], xs[i + 1]);
    j := 0;
    if es[i].cmd.Tick? && xs[i].d.rgpState == REDEMPTION && es[i].now >= xs[i].d.rgpUntil {
      j := DeleteBehind(xs, es, i);
      assert xs[j + 1].d.rgpUntil == xs[i].d.rgpUntil;
    }
  }

  /** In a run the sponsor is never empty, so it is always the one registrar. */
  lemma {:induction false} SponsorNamed(xs: seq<Slot>, es: seq<Event>, i: nat)
    requires Execution(xs, es) && i <= |es| && xs[i].Live?
    ensures xs[i].d.clid != []
  {
    hide StepOk, Facts, WellFormed, BirthFact, PendingFact, RedemptionFact, ExpiryFact;
    assert i > 0;
    NeverCorrupt(xs, es, i - 1);
    StepFacts(xs[i - 1], es[i - 1], xs[i]);
    if xs[i - 1].Live? {
      SponsorNamed(xs, es, i - 1);
      FactGone(xs[i - 1].d, es[i - 1], xs[i]);
      if xs[i].d.clid != xs[i - 1].d.clid {
        var j := RequestBehind(xs, es, i - 1);
        assert xs[j + 1].d.transferReid == xs[i - 1].d.transferReid;
        StepFacts(xs[j], es[j], xs[j + 1]);
      }
    }
  }

  /** Extensions of the current registration, counted along the run. */
  ghost function Counted(xs: seq<Slot>, es: seq<Event>, i: nat): Tally
    requires Execution(xs, es) && i <= |es|
  {
    if i == 0 || !xs[i - 1].Live? then Tally(0, 0, 0)
    else
      assert StepOk(xs[i - 1], es[i - 1], xs[i]);
      Extended(Counted(xs, es, i - 1), xs[i - 1].d, es[i - 1])
  }

  /** Expiry accounting, in the 32-bit arithmetic of the code: one year at
      creation and one for each renewed year, auto-renewal and approved transfer,
      also when one sweep both renews and approves. */
  lemma {:induction false} ExpiryAccounting(xs: seq<Slot>, es: seq<Event>, i: nat)
    requires Execution(xs, es) && i <= |es| && xs[i].Live?
    ensures xs[i].d.exdate == Plus(xs[i].d.crdate, YEAR * Sum(Counted(xs, es, i)))
  {
    hide Counted, Facts, WellFormed, EventOk, SponsorFact, PendingFact, RedemptionFact, Extended, Plus, Gain, StepOk;
    assert i > 0;
    NeverCorrupt(xs, es, i - 1);
    StepFacts(xs[i - 1], es[i - 1], xs[i]);
    CountedStep(xs, es, i);
    if xs[i - 1].Live? {
      ExpiryAccounting(xs, es, i - 1);
      FactGone(xs[i - 1].d, es[i - 1], xs[i]);
      var t, g := Counted(xs, es, i - 1), Gain(xs[i - 1].d, es[i - 1]);
      ExtendedGain(t, xs[i - 1].d, es[i - 1]);
      Distribute(Sum(t), g);
      PlusPlus(xs[i].d.crdate, YEAR * Sum(t), YEAR * g);
    } else {
      FreshNotPending(es[i - 1]);
    }
  }

  lemma CountedStep(xs: seq<Slot>, es: seq<Event>, i: nat)
    requires Execution(xs, es) && 0 < i <= |es|
    ensures StepOk(xs[i - 1], es[i - 1], xs[i])
    ensures Counted(xs, es, i) == if !xs[i - 1].Live? then Tally(0, 0, 0)
                                  else Extended(Counted(xs, es, i - 1), xs[i - 1].d, es[i - 1])
  {
    hide Extended;
    assert StepOk(xs[i - 1], es[i - 1], xs[i]);
  }

  lemma Distribute(a: nat, b: nat)
    ensures YEAR * a + YEAR * b == YEAR * (a + b)
  {
  }
}
