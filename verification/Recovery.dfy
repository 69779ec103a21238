/** Persistent sessions: opening a store from its files, transactions, collection,
    checkpoint and crashes, and what survives of a run. */
module Recovery {
  import opened Bytes
  import opened Graph
  import opened Gc
  import opened Transactions
  import opened Replay
  import opened Wal
  import opened Snapshot

  /** A store open on its files: the live graph, the generation of the snapshot
      on disk, the next transaction id, and the two files. */
  datatype Session = Session(state: State, gen: u32, nextTxn: u32, snap: Option<seq<byte>>, wal: seq<byte>)

  function Fresh(gens: set<Text>): State { State([], map[], 1, [], gens) }

  /** The snapshot part of open: a missing file is a fresh store of generation 1. */
  function LoadBase(snap: Option<seq<byte>>, gens: set<Text>): Option<Snap> {
    if snap.None? then Some(Snap(Fresh(gens), 1)) else Load(snap.value, gens)
  }

  /** Load the snapshot, replay the log over it, cut the torn tail off the log.
      Nothing is returned when either file is refused. */
  function Open(snap: Option<seq<byte>>, wal: Option<seq<byte>>, gens: set<Text>): Option<Session> {
    var b := LoadBase(snap, gens);
    if b.None? then None
    else if wal.None? then Some(Session(b.value.state, b.value.gen, 1, snap, Header(b.value.gen)))
    else
      var o := ReplayWal(wal.value, b.value.state, b.value.gen, 1);
      if o.None? then None
      else
        var f := if o.value.goodEnd < |wal.value| then wal.value[..o.value.goodEnd] else wal.value;
        Some(Session(o.value.state, b.value.gen,
                     if o.value.nextTxn == 0 then 1 else o.value.nextTxn % 0x1_0000_0000, snap, f))
  }

  datatype Event =
    | Commit(ops: seq<Op>)     // explicit transaction, committed
    | Rollback(ops: seq<Op>)   // explicit transaction, aborted
    | Auto(op: Op)             // bare mutator, wrapped in its own transaction
    | Collection
    | Checkpoint
    | Crash(cut: nat)          // the log loses everything past `cut`; reopen

  // ---- what the log and snapshot can hold ----------------------------------

  predicate OpFits(op: Op) {
    match op
    case Create(init) => BodyReadable(init)
    case SetValue(_, v) => BodyReadable(v)
    case SetClass(_, cls) => |cls| <= MAX_LEN
    case ListSet(_, i, _) => Small(i)
    case ListInsert(_, i, _) => Small(i)
    case ListRemove(_, i) => Small(i)
    case _ => true
  }

  /** A transaction that recovery can reproduce: names unambiguous when
      truncated, strings within the readers' cap, no more records than replay
      buffers, ids within 32 bits. */
  ghost predicate TxnOk(s: State, ops: seq<Op>) {
    && RunOk(s, ops) && Loggable(s, ops)
    && (forall i :: 0 <= i < |ops| ==> OpFits(ops[i]))
    && |Run(s, ops).log| <= MAX_RECS && Small(Run(s, ops).state.nextId)
  }

  ghost predicate EventOk(x: Session, e: Event) {
    match e
    case Commit(ops) => TxnOk(x.state, ops)
    case Rollback(ops) => RunOk(x.state, ops)
    case Auto(op) => TxnOk(x.state, [op])
    case Collection => true
    case Checkpoint => SnapFits(x.state) && ObjsReadable(x.state.order, x.state.heap)
    case Crash(cut) => HEADER_LEN <= cut <= |x.wal|
  }

  ghost function CommitTxn(x: Session, ops: seq<Op>): Session
    requires RunOk(x.state, ops) && AllFit(Redos(Run(x.state, ops).log))
  {
    var r := Run(x.state, ops);
    x.(state := r.state, nextTxn := (x.nextTxn + 1) % 0x1_0000_0000,
       wal := x.wal + EncodeTxn(Txn(x.nextTxn, Redos(r.log))))
  }

  ghost function RollbackTxn(x: Session, ops: seq<Op>): Session
    requires RunOk(x.state, ops)
  {
    var s := x.state;
    var r := Run(s, ops);
    x.(state := Abort(r.state, r.log, |s.order|, s.nextId, |s.roots|), nextTxn := (x.nextTxn + 1) % 0x1_0000_0000)
  }

  ghost function TakeCheckpoint(x: Session): Session
    requires SnapFits(x.state)
  {
    var gen := (x.gen + 1) % 0x1_0000_0000;
    x.(gen := gen, snap := Some(Save(x.state, gen)), wal := Header(gen))
  }

  /** A bare mutator that refuses or changes nothing opens no transaction. */
  ghost predicate Skips(s: State, op: Op)
    requires OpOk(s, op)
  {
    Apply(s, op).log == []
  }

  ghost predicate Steps(x: Session, e: Event, x': Session)
    requires EventOk(x, e)
  {
    match e
    case Commit(ops) => AllFit(Redos(Run(x.state, ops).log)) && x' == CommitTxn(x, ops)
    case Rollback(ops) => x' == RollbackTxn(x, ops)
    case Auto(op) => if Skips(x.state, op) then x' == x
                     else AllFit(Redos(Run(x.state, [op]).log)) && x' == CommitTxn(x, [op])
    case Collection => x' == x.(state := Collect(x.state))
    case Checkpoint => x' == TakeCheckpoint(x)
    case Crash(cut) => Open(x.snap, Some(x.wal[..cut]), x.state.gens) == Some(x')
  }

  // ---- records of a permitted transaction fit the log ----------------------

  lemma ApplyFits(s: State, op: Op)
    requires Wf(s) && OpOk(s, op) && OpFits(op) && Small(Apply(s, op).state.nextId)
    requires Apply(s, op).log != []
    ensures Fits(Apply(s, op).log[0].redo) && Readable(Apply(s, op).log[0].redo)
  {
    hide FindRoot, FindKey, PutField, PutRoot, FreeRoot;
    if op.Unbind? { UnbindFound(s, op); }
  }

  lemma {:induction false} RunGrows(s: State, ops: seq<Op>)
    requires Wf(s) && RunOk(s, ops)
    ensures s.nextId <= Run(s, ops).state.nextId
    decreases |ops|
  {
    hide FindRoot, FindKey, PutField, PutRoot, FreeRoot, Wf;
    if ops != [] {
      ApplyWf(s, ops[0]);
      RunGrows(Apply(s, ops[0]).state, ops[1..]);
    }
  }

  lemma {:induction false} RunFits(s: State, ops: seq<Op>)
    requires Wf(s) && RunOk(s, ops) && Small(Run(s, ops).state.nextId)
    requires forall i :: 0 <= i < |ops| ==> OpFits(ops[i])
    ensures forall i :: 0 <= i < |Run(s, ops).log| ==>
              Fits(Run(s, ops).log[i].redo) && Readable(Run(s, ops).log[i].redo)
    decreases |ops|
  {
    hide Apply, Wf, Fits, Readable, OpFits;
    if ops != [] {
      var a := Apply(s, ops[0]);
      ApplyWf(s, ops[0]);
      RunGrows(a.state, ops[1..]);
      RunFits(a.state, ops[1..]);
      if a.log != [] { ApplyFits(s, ops[0]); }
    }
  }

  lemma TxnFits(s: State, ops: seq<Op>, id: u32)
    requires Wf(s) && TxnOk(s, ops)
    ensures AllFit(Redos(Run(s, ops).log)) && Recoverable(Txn(id, Redos(Run(s, ops).log)))
  {
    hide Run, Fits, Readable, OpFits, Wf, RunOk, Loggable;
    RunFits(s, ops);
  }

  // ---- durable sessions ----------------------------------------------------

  /** How a session came about: the store in the snapshot, the transactions
      committed since, the live store after each of them, and whether objects
      were collected since. */
  datatype Hist = Hist(base: State, txns: seq<Txn>, marks: seq<State>, collected: bool)

  function RedoStates(s: State, ts: seq<Txn>): Option<State>
    decreases |ts|
  {
    if ts == [] then Some(s)
    else
      var r := RedoAll(s, ts[0].redos);
      if r.None? then None else RedoStates(r.value, ts[1..])
  }

  /** Replaying the first `i` transactions gives the live store after them. */
  ghost predicate MarkOk(h: Hist, i: nat)
    requires i <= |h.txns| && |h.marks| == |h.txns| + 1
  {
    var r := RedoStates(h.base, h.txns[..i]);
    && r.Some? && Sound(r.value) && View(h.marks[i], r.value)
    && (!h.collected ==> Garbage(h.marks[i], r.value) == {})
  }

  /** The files of a session determine it: the snapshot loads to the base, the log
      is the committed transactions, and replay reaches the live store. */
  ghost predicate Durable(x: Session, h: Hist) {
    && LoadBase(x.snap, x.state.gens) == Some(Snap(h.base, x.gen))
    && TxnsFit(h.txns) && x.wal == Header(x.gen) + EncodeTxns(h.txns)
    && (forall i :: 0 <= i < |h.txns| ==> Recoverable(h.txns[i]))
    && |h.marks| == |h.txns| + 1
    && (forall i :: 0 <= i <= |h.txns| ==> MarkOk(h, i))
    && Sound(x.state) && x.state.gens == h.base.gens
    && Current(x.state, h)
  }

  ghost predicate Current(s: State, h: Hist) {
    var r := RedoStates(h.base, h.txns);
    r.Some? && Sound(r.value) && View(s, r.value) && (!h.collected ==> Garbage(s, r.value) == {})
  }

  lemma {:induction false} RedoStatesSnoc(s: State, ts: seq<Txn>, t: Txn)
    ensures RedoStates(s, ts + [t]) ==
            if RedoStates(s, ts).None? then None else RedoAll(RedoStates(s, ts).value, t.redos)
    decreases |ts|
  {
    hide RedoAll;
    if ts == [] {
      assert (ts + [t])[1..] == [];
    } else {
      assert (ts + [t])[0] == ts[0] && (ts + [t])[1..] == ts[1..] + [t];
      var r := RedoAll(s, ts[0].redos);
      if r.Some? { RedoStatesSnoc(r.value, ts[1..], t); }
    }
  }

  lemma {:induction false} EncodeSnoc(ts: seq<Txn>, t: Txn)
    requires TxnsFit(ts) && AllFit(t.redos)
    ensures TxnsFit(ts + [t]) && EncodeTxns(ts + [t]) == EncodeTxns(ts) + EncodeTxn(t)
    decreases |ts|
  {
    hide EncodeTxn, Fits;
    if ts == [] {
      assert (ts + [t])[1..] == [];
    } else {
      assert (ts + [t])[0] == ts[0] && (ts + [t])[1..] == ts[1..] + [t];
      EncodeSnoc(ts[1..], t);
    }
  }

  // ---- each event keeps the session durable --------------------------------

  lemma MarksKept(h: Hist, t: Txn, s: State, i: nat)
    requires i <= |h.txns| && |h.marks| == |h.txns| + 1 && MarkOk(h, i)
    ensures MarkOk(Hist(h.base, h.txns + [t], h.marks + [s], h.collected), i)
  {
    assert (h.txns + [t])[..i] == h.txns[..i];
  }

  /** A committed transaction extends the log by one reproducible transaction. */
  lemma CommitDurable(x: Session, h: Hist, ops: seq<Op>) returns (h': Hist)
    requires Durable(x, h) && TxnOk(x.state, ops)
    ensures AllFit(Redos(Run(x.state, ops).log)) && Durable(CommitTxn(x, ops), h')
    ensures h' == Hist(h.base, h.txns + [Txn(x.nextTxn, Redos(Run(x.state, ops).log))],
                       h.marks + [Run(x.state, ops).state], h.collected)
  {
    hide Run, RedoAll, View, Wf, EncodeTxn, EncodeTxns, Recoverable, Fits, Header, LoadBase, RunOk, Loggable, OpFits, Garbage;
    var r := Run(x.state, ops);
    var t := Txn(x.nextTxn, Redos(r.log));
    h' := Hist(h.base, h.txns + [t], h.marks + [r.state], h.collected);
    TxnFits(x.state, ops, x.nextTxn);
    var was := RedoStates(h.base, h.txns).value;
    RedoRun(x.state, was, ops);
    RedoStatesSnoc(h.base, h.txns, t);
    EncodeSnoc(h.txns, t);
    RunSound(x.state, ops);
    RunGens(x.state, ops);
    forall i | 0 <= i <= |h'.txns| ensures MarkOk(h', i) {
      if i <= |h.txns| { MarksKept(h, t, r.state, i); } else { assert h'.txns[..i] == h'.txns; }
    }
    assert x.wal + EncodeTxn(t) == Header(x.gen) + (EncodeTxns(h.txns) + EncodeTxn(t));
  }

  lemma {:induction false} RunSound(s: State, ops: seq<Op>)
    requires Sound(s) && RunOk(s, ops) && Loggable(s, ops)
    ensures Sound(Run(s, ops).state)
    decreases |ops|
  {
    hide Apply, Sound;
    if ops != [] {
      ApplySound(s, ops[0]);
      RunSound(Apply(s, ops[0]).state, ops[1..]);
    }
  }

  lemma {:induction false} RunGens(s: State, ops: seq<Op>)
    requires RunOk(s, ops)
    ensures Run(s, ops).state.gens == s.gens
    decreases |ops|
  {
    hide FindRoot, FindKey, PutField, PutRoot, FreeRoot;
    if ops != [] { RunGens(Apply(s, ops[0]).state, ops[1..]); }
  }

  /** An aborted transaction leaves no trace: nothing on disk, the same store. */
  lemma RollbackDurable(x: Session, h: Hist, ops: seq<Op>)
    requires Durable(x, h) && RunOk(x.state, ops)
    ensures Durable(RollbackTxn(x, ops), h) && SameStore(RollbackTxn(x, ops).state, x.state)
  {
    hide Run, RedoStates, Wf, MarkOk, EncodeTxns, Recoverable, Fits, Header, LoadBase, RunOk, Abort, KeysDistinct, RootMap, Kept;
    AbortIdentity(x.state, ops);
  }

  lemma CollectDurable(x: Session, h: Hist)
    requires Durable(x, h)
    ensures Durable(x.(state := Collect(x.state)), h.(collected := true))
  {
    hide RedoStates, Wf, EncodeTxns, Recoverable, Fits, Header, LoadBase, KeysDistinct, View, Reached, Kept, Garbage;
    var s := x.state;
    CollectWf(s);
    ViewCollect(s, RedoStates(h.base, h.txns).value);
    assert forall id :: id in Collect(s).heap ==> Collect(s).heap[id] == s.heap[id];
    forall i | 0 <= i <= |h.txns| ensures MarkOk(h.(collected := true), i) {
      assert MarkOk(h, i);
    }
  }

  lemma CompactSound(s: State)
    requires Sound(s)
    ensures Sound(Compact(s)) && View(s, Compact(s)) && Garbage(s, Compact(s)) == {}
  {
    hide RootMap, Kept, UsedRoots, KeysDistinct;
    UsedRootsMap(s.roots);
    ViewSelf(s);
    var t, us := Compact(s), UsedRoots(s.roots);
    forall i | 0 <= i < |us| ensures RootOk(t, us[i]) {
      var j :| 0 <= j < |s.roots| && s.roots[j] == us[i];
      assert RootOk(s, s.roots[j]);
    }
    forall k | k in t.heap ensures BodyOk(t, t.heap[k]) {
      assert BodyOk(s, s.heap[k]);
    }
  }

  /** A checkpoint folds the log into a snapshot that loads to the live store. */
  lemma CheckpointDurable(x: Session, h: Hist) returns (h': Hist)
    requires Durable(x, h) && EventOk(x, Checkpoint)
    ensures Durable(TakeCheckpoint(x), h')
    ensures h' == Hist(Compact(x.state), [], [x.state], false)
  {
    hide RedoAll, Wf, Recoverable, Header, Load, Save, View, SnapFits, ObjsReadable, KeysDistinct, Compact, Garbage;
    var s := x.state;
    var gen := (x.gen + 1) % 0x1_0000_0000;
    LoadSave(s, gen);
    SoundReload(s);
    CompactSound(s);
    h' := Hist(Compact(s), [], [s], false);
    assert h'.txns[..0] == [];
    assert Header(gen) + EncodeTxns([]) == Header(gen);
    assert MarkOk(h', 0);
    assert Compact(s).gens == s.gens by { CompactGens(s); }
  }

  lemma CompactGens(s: State)
    ensures Compact(s).gens == s.gens
  {
  }

  // ---- crash and reopen ----------------------------------------------------

  lemma {:induction false} RedoTxnsState(o: Out, p: nat, ts: seq<Txn>)
    requires TxnsFit(ts)
    ensures RedoTxns(o, p, ts).None? <==> RedoStates(o.state, ts).None?
    ensures RedoTxns(o, p, ts).Some? ==> RedoTxns(o, p, ts).value.state == RedoStates(o.state, ts).value
    ensures RedoTxns(o, p, ts).Some? ==>
              RedoTxns(o, p, ts).value.goodEnd == if ts == [] then o.goodEnd else p + |EncodeTxns(ts)|
    decreases |ts|
  {
    hide RedoAll, EncodeTxn, Fits;
    if ts != [] {
      var q := p + |EncodeTxn(ts[0])|;
      var r := RedoAll(o.state, ts[0].redos);
      if r.Some? {
        RedoTxnsState(Out(r.value, q, if ts[0].id >= o.nextTxn then (ts[0].id + 1) % 0x1_0000_0000 else o.nextTxn), q, ts[1..]);
      }
    }
  }

  lemma {:induction false} SurvivorsSplit(ts: seq<Txn>, n: nat)
    requires TxnsFit(ts)
    ensures TxnsFit(ts[..Survivors(ts, n)]) && |EncodeTxns(ts[..Survivors(ts, n)])| <= n
    ensures EncodeTxns(ts[..Survivors(ts, n)]) <= EncodeTxns(ts)
    decreases |ts|
  {
    hide EncodeTxn, Fits, Recoverable;
    var k := Survivors(ts, n);
    if k > 0 {
      SurvivorsSplit(ts[1..], n - |EncodeTxn(ts[0])|);
      assert ts[..k][0] == ts[0] && ts[..k][1..] == ts[1..][..k - 1];
    }
  }

  /** How many transactions a session that crashed at `cut` recovers. */
  ghost function Recovered(h: Hist, cut: nat): (n: nat)
    requires TxnsFit(h.txns) && HEADER_LEN <= cut
    ensures n <= |h.txns|
  {
    Survivors(h.txns, cut - HEADER_LEN)
  }

  lemma SoundView(s: State)
    requires Sound(s)
    ensures View(s, s) && Garbage(s, s) == {}
  {
    ViewSelf(s);
  }

  lemma {:induction false} RedoGens(s: State, ws: seq<Redo>)
    ensures RedoAll(s, ws).Some? ==> RedoAll(s, ws).value.gens == s.gens
    decreases |ws|
  {
    hide FindRoot, FindKey, PutField, PutRoot, FreeRoot;
    if ws != [] && RedoOne(s, ws[0]).Some? { RedoGens(RedoOne(s, ws[0]).value, ws[1..]); }
  }

  lemma {:induction false} RedoStatesGens(s: State, ts: seq<Txn>)
    ensures RedoStates(s, ts).Some? ==> RedoStates(s, ts).value.gens == s.gens
    decreases |ts|
  {
    hide RedoAll;
    if ts != [] {
      RedoGens(s, ts[0].redos);
      var r := RedoAll(s, ts[0].redos);
      if r.Some? { RedoStatesGens(r.value, ts[1..]); }
    }
  }

  /** Crash at any byte of the log: the store reopens to the live store after the
      last transaction whose commit record survived whole, the log is cut back to
      the end of that record, and the reopened session is durable again. */
  lemma CrashDurable(x: Session, h: Hist, cut: nat) returns (x': Session, h': Hist)
    requires Durable(x, h) && HEADER_LEN <= cut <= |x.wal|
    ensures Open(x.snap, Some(x.wal[..cut]), x.state.gens) == Some(x')
    ensures Durable(x', h')
    ensures var n := Recovered(h, cut);
            && View(h.marks[n], x'.state)
            && (!h.collected ==> Garbage(h.marks[n], x'.state) == {})
            && TxnsFit(h.txns[..n]) && x'.wal == Header(x.gen) + EncodeTxns(h.txns[..n])
            && h'.txns == h.txns[..n] && !h'.collected
  {
    hide RedoAll, Wf, Recoverable, Fits, Header, LoadBase, View, Garbage, EncodeTxns, KeysDistinct, Survivors, ReplayWal, RedoTxns;
    var n, b := Recovered(h, cut), h.base;
    var kept, f := h.txns[..n], x.wal[..cut];
    CrashAtAnyByte(b, x.gen, 1, h.txns, cut);
    SurvivorsSplit(h.txns, cut - HEADER_LEN);
    RedoTxnsState(Out(b, HEADER_LEN, 1), HEADER_LEN, kept);
    assert MarkOk(h, n);
    var s := RedoStates(b, kept).value;
    RedoStatesGens(b, kept);
    var enc := Header(x.gen) + EncodeTxns(kept);
    GoodPrefix(x.gen, EncodeTxns(h.txns), EncodeTxns(kept), cut);
    EmptyEncode(kept);
    var o := ReplayWal(f, b, x.gen, 1).value;
    assert o.goodEnd == |enc|;
    x' := Open(x.snap, Some(f), x.state.gens).value;
    h' := Hist(b, kept, seq(n + 1, i requires 0 <= i <= n => RedoPrefix(b, h.txns, i)), false);
    forall i | 0 <= i <= n ensures MarkOk(h', i) {
      assert MarkOk(h, i);
      assert kept[..i] == h.txns[..i];
      SoundView(RedoStates(b, kept[..i]).value);
    }
    SoundView(s);
  }

  ghost function RedoPrefix(s: State, ts: seq<Txn>, i: nat): State
    requires i <= |ts|
  {
    var r := RedoStates(s, ts[..i]);
    if r.Some? then r.value else s
  }

  lemma EmptyEncode(ts: seq<Txn>)
    requires TxnsFit(ts)
    ensures ts == [] ==> EncodeTxns(ts) == []
  {
  }

  lemma GoodPrefix(gen: u32, all: seq<byte>, kept: seq<byte>, cut: nat)
    requires kept <= all && HEADER_LEN + |kept| <= cut <= HEADER_LEN + |all|
    ensures var f := (Header(gen) + all)[..cut];
            var enc := Header(gen) + kept;
            |enc| <= |f| && f[..|enc|] == enc && (|enc| == |f| ==> f == enc)
  {
    assert all[..|kept|] == kept;
  }

  // ---- whole runs ----------------------------------------------------------

  lemma CommitEvent(x: Session, h: Hist, e: Event) returns (x': Session, h': Hist)
    requires Durable(x, h) && e.Commit? && EventOk(x, e)
    ensures Steps(x, e, x') && Durable(x', h')
    ensures h'.collected == h.collected && x'.state.gens == x.state.gens
  {
    hide Durable, Run, Apply, Loggable, OpFits;
    h' := CommitDurable(x, h, e.ops);
    x' := CommitTxn(x, e.ops);
    DurableGens(x, h); DurableGens(x', h');
  }

  lemma RollbackEvent(x: Session, h: Hist, e: Event) returns (x': Session)
    requires Durable(x, h) && e.Rollback? && EventOk(x, e)
    ensures Steps(x, e, x') && Durable(x', h) && x'.state.gens == x.state.gens
  {
    hide Durable, Run, Apply, Loggable, OpFits, Abort;
    RollbackDurable(x, h, e.ops);
    x' := RollbackTxn(x, e.ops);
  }

  lemma CollectEvent(x: Session, h: Hist) returns (x': Session, h': Hist)
    requires Durable(x, h)
    ensures Steps(x, Collection, x') && Durable(x', h') && x'.state.gens == x.state.gens
  {
    hide Durable, Reached, Kept;
    CollectDurable(x, h);
    x', h' := x.(state := Collect(x.state)), h.(collected := true);
  }

  lemma CheckpointEvent(x: Session, h: Hist) returns (x': Session, h': Hist)
    requires Durable(x, h) && EventOk(x, Checkpoint)
    ensures Steps(x, Checkpoint, x') && Durable(x', h') && x'.state.gens == x.state.gens && !h'.collected
  {
    hide Durable, Save, Header;
    h' := CheckpointDurable(x, h);
    x' := TakeCheckpoint(x);
  }

  lemma CrashEvent(x: Session, h: Hist, e: Event) returns (x': Session, h': Hist)
    requires Durable(x, h) && e.Crash? && EventOk(x, e)
    ensures Steps(x, e, x') && Durable(x', h') && x'.state.gens == x.state.gens
    ensures !h'.collected
  {
    hide Durable, Open, View, Garbage, EncodeTxns, Header;
    x', h' := CrashDurable(x, h, e.cut);
    CrashGens(x, e.cut, x');
  }

  /** Every event is possible and keeps the session durable. */
  lemma EventDurable(x: Session, h: Hist, e: Event) returns (x': Session, h': Hist)
    requires Durable(x, h) && EventOk(x, e)
    ensures Steps(x, e, x') && Durable(x', h')
    ensures h'.collected ==> h.collected || e.Collection?
    ensures x'.state.gens == x.state.gens
  {
    hide *;
    match e
    case Commit(_) => x', h' := CommitEvent(x, h, e);
    case Rollback(_) => x' := RollbackEvent(x, h, e); h' := h;
    case Auto(op) => x', h' := AutoDurable(x, h, op);
    case Collection => x', h' := CollectEvent(x, h);
    case Checkpoint => x', h' := CheckpointEvent(x, h);
    case Crash(_) => x', h' := CrashEvent(x, h, e);
  }

  lemma AutoDurable(x: Session, h: Hist, op: Op) returns (x': Session, h': Hist)
    requires Durable(x, h) && EventOk(x, Auto(op))
    ensures Steps(x, Auto(op), x') && Durable(x', h')
    ensures h'.collected == h.collected && x'.state.gens == x.state.gens
  {
    hide Durable, Run, Apply, Loggable, OpFits;
    AutoOk(x.state, op);
    if Skips(x.state, op) {
      x', h' := x, h;
    } else {
      h' := CommitDurable(x, h, [op]);
      x' := CommitTxn(x, [op]);
      DurableGens(x, h); DurableGens(x', h');
    }
  }

  lemma DurableGens(x: Session, h: Hist)
    requires Durable(x, h)
    ensures x.state.gens == h.base.gens && LoadBase(x.snap, x.state.gens) == Some(Snap(h.base, x.gen))
  {
    hide LoadBase, Sound, MarkOk, Current, TxnsFit, EncodeTxns, Header, Recoverable;
  }

  lemma CrashGens(x: Session, cut: nat, x': Session)
    requires cut <= |x.wal| && Open(x.snap, Some(x.wal[..cut]), x.state.gens) == Some(x')
    ensures x'.snap == x.snap && x'.state.gens == x.state.gens
  {
    hide Load, RedoAll, ReadEntry;
    var b := LoadBase(x.snap, x.state.gens);
    LoadGens(x.snap, x.state.gens);
    ReplayGens(x.wal[..cut], b.value.state, b.value.gen);
  }

  lemma LoadGens(snap: Option<seq<byte>>, gens: set<Text>)
    ensures LoadBase(snap, gens).Some? ==> LoadBase(snap, gens).value.state.gens == gens
  {
    hide RU32, ReadObjs, ReadRoots, LinkAll, CountFits;
  }

  lemma ReplayGens(f: seq<byte>, s: State, gen: u32)
    ensures ReplayWal(f, s, gen, 1).Some? ==> ReplayWal(f, s, gen, 1).value.state.gens == s.gens
  {
    hide RU32, ReplayFrom;
    ReplayFromGens(f, HEADER_LEN, Out(s, HEADER_LEN, 1), Idle);
  }

  lemma {:induction false} ReplayFromGens(f: seq<byte>, p: nat, o: Out, pend: Pending)
    ensures ReplayFrom(f, p, o, pend).Some? ==> ReplayFrom(f, p, o, pend).value.state.gens == o.state.gens
    decreases |f| - p
  {
    hide RedoAll, ReadEntry;
    match ReadEntry(f, p)
    case Got(EBegin(t), q) => ReplayFromGens(f, q, o, Begun(t, []));
    case Got(ECommit(t), q) =>
      if pend.Begun? && pend.txn == t {
        var r := RedoAll(o.state, pend.redos);
        RedoGens(o.state, pend.redos);
        if r.Some? {
          ReplayFromGens(f, q, Out(r.value, q, if t >= o.nextTxn then (t + 1) % 0x1_0000_0000 else o.nextTxn), Idle);
        }
      }
    case Got(ERec(w), q) =>
      if !(pend.Idle? || |pend.redos| >= MAX_RECS) {
        ReplayFromGens(f, q, o, Begun(pend.txn, pend.redos + [w]));
      }
    case _ =>
  }

  lemma AutoOk(s: State, op: Op)
    requires TxnOk(s, [op])
    ensures OpOk(s, op)
  {
    hide Run, Loggable;
    assert [op][0] == op;
  }

  /** A sequence of sessions linked by events, from a store without files. */
  ghost predicate Execution(xs: seq<Session>, es: seq<Event>, gens: set<Text>) {
    && |xs| == |es| + 1
    && Open(None, None, gens) == Some(xs[0])
    && (forall i :: 0 <= i < |es| ==> EventOk(xs[i], es[i]) && Steps(xs[i], es[i], xs[i + 1]))
  }

  lemma FreshDurable(gens: set<Text>)
    ensures Durable(Open(None, None, gens).value, Hist(Fresh(gens), [], [Fresh(gens)], false))
  {
    hide Header;
    var s, h := Fresh(gens), Hist(Fresh(gens), [], [Fresh(gens)], false);
    SoundView(s);
    assert h.txns[..0] == [];
    assert MarkOk(h, 0);
    assert Header(1) + EncodeTxns([]) == Header(1);
  }

  lemma StepsUnique(x: Session, e: Event, a: Session, b: Session)
    requires EventOk(x, e) && Steps(x, e, a) && Steps(x, e, b)
    ensures a == b
  {
    hide Open, Run, Collect, TakeCheckpoint, EventOk;
  }

  lemma {:induction false} RunDurable(xs: seq<Session>, es: seq<Event>, gens: set<Text>) returns (h: Hist)
    requires Execution(xs, es, gens)
    ensures Durable(xs[|es|], h) && xs[|es|].state.gens == gens
    ensures h.collected ==> exists i :: 0 <= i < |es| && es[i].Collection?
    decreases |es|
  {
    hide Durable, Steps, EventOk, Open;
    if es == [] {
      FreshDurable(gens);
      h := Hist(Fresh(gens), [], [Fresh(gens)], false);
      FreshGens(gens);
    } else {
      var n := |es| - 1;
      assert Execution(xs[..n + 1], es[..n], gens);
      var h0 := RunDurable(xs[..n + 1], es[..n], gens);
      assert xs[..n + 1][n] == xs[n];
      var x';
      x', h := EventDurable(xs[n], h0, es[n]);
      StepsUnique(xs[n], es[n], x', xs[n + 1]);
    }
  }

  lemma FreshGens(gens: set<Text>)
    ensures Open(None, None, gens).Some? && Open(None, None, gens).value.state == Fresh(gens)
  {
  }

  /** Recovery refines the live run: after any history of committed, aborted and
      automatic transactions, collections, checkpoints and crashes, reopening the
      files gives the live store, up to what collections dropped; and exactly the
      live store if there was no collection. */
  lemma RecoveryRefines(xs: seq<Session>, es: seq<Event>, gens: set<Text>)
    requires Execution(xs, es, gens)
    ensures var x := xs[|es|];
            var r := Open(x.snap, Some(x.wal), gens);
            && r.Some? && r.value.wal == x.wal && r.value.gen == x.gen
            && View(x.state, r.value.state)
            && Collect(x.state).order == Collect(r.value.state).order
            && Collect(x.state).heap == Collect(r.value.state).heap
            && ((forall i :: 0 <= i < |es| ==> !es[i].Collection?) ==>
                  && r.value.state.order == x.state.order && r.value.state.heap == x.state.heap
                  && r.value.state.nextId == x.state.nextId
                  && RootMap(r.value.state.roots) == RootMap(x.state.roots))
  {
    hide Open, Steps, EventOk, RootMap, Collect, View;
    var x := xs[|es|];
    var h := RunDurable(xs, es, gens);
    CleanReopen(x, h);
    var s := Open(x.snap, Some(x.wal), gens).value.state;
    ViewCollect(x.state, s);
    if !h.collected { ViewExact(x.state, s); }
  }

  lemma CleanReopen(x: Session, h: Hist)
    requires Durable(x, h)
    ensures var r := Open(x.snap, Some(x.wal), x.state.gens);
            && r.Some? && r.value.wal == x.wal && r.value.gen == x.gen
            && View(x.state, r.value.state) && Wf(x.state) && Wf(r.value.state)
            && (!h.collected ==> Garbage(x.state, r.value.state) == {})
  {
    hide RedoAll, Recoverable, Fits, View, Garbage, EncodeTxns, KeysDistinct, Survivors, Wf, Open, LoadBase;
    assert x.wal[..|x.wal|] == x.wal;
    AllSurvive(h.txns, |EncodeTxns(h.txns)|);
    assert Recovered(h, |x.wal|) == |h.txns| && h.txns[..|h.txns|] == h.txns;
    var x', h' := CrashDurable(x, h, |x.wal|);
    OpenKeeps(x, |x.wal|, h, x');
  }

  lemma OpenKeeps(x: Session, cut: nat, h: Hist, x': Session)
    requires Durable(x, h) && HEADER_LEN <= cut <= |x.wal| && Open(x.snap, Some(x.wal[..cut]), x.state.gens) == Some(x')
    ensures x'.gen == x.gen
    ensures Recovered(h, cut) == |h.txns| ==> RedoStates(h.base, h.txns) == Some(x'.state)
  {
    hide RedoAll, Recoverable, Fits, View, Garbage, EncodeTxns, KeysDistinct, Survivors, Wf, LoadBase, ReplayWal, RedoTxns, RedoStates;
    CrashAtAnyByte(h.base, x.gen, 1, h.txns, cut);
    assert h.txns[..|h.txns|] == h.txns;
    RedoTxnsState(Out(h.base, HEADER_LEN, 1), HEADER_LEN, h.txns[..Recovered(h, cut)]);
  }

  lemma {:induction false} AllSurvive(ts: seq<Txn>, n: nat)
    requires TxnsFit(ts) && n == |EncodeTxns(ts)| && forall i :: 0 <= i < |ts| ==> Recoverable(ts[i])
    ensures Survivors(ts, n) == |ts|
    decreases |ts|
  {
    hide EncodeTxn, Fits, Recoverable;
    if ts != [] { AllSurvive(ts[1..], n - |EncodeTxn(ts[0])|); }
  }

  // ---- crash inside a checkpoint -------------------------------------------

  /** A crash before the rename, or after it while the old log is still whole,
      reopens to the live store; after the rename the reopened log keeps the old
      generation. Once the log file has been truncated, the store opens only if
      the whole new header was written. */
  lemma CheckpointCrash(x: Session, h: Hist, k: nat)
    requires Durable(x, h) && EventOk(x, Checkpoint) && k <= HEADER_LEN
    ensures var snap := TakeCheckpoint(x).snap;
            var before := Open(x.snap, Some(x.wal), x.state.gens);
            var after := Open(snap, Some(x.wal), x.state.gens);
            var torn := Open(snap, Some(Header(TakeCheckpoint(x).gen)[..k]), x.state.gens);
            && before.Some? && View(x.state, before.value.state)
            && after.Some? && after.value.state == Compact(x.state) && View(x.state, after.value.state)
            && after.value.wal == Header(x.gen) && after.value.gen != x.gen
            && (torn.Some? <==> k == HEADER_LEN)
            && (torn.Some? ==> torn.value.state == Compact(x.state))
  {
    hide Load, Save, Garbage, EncodeTxns, KeysDistinct, Wf, SnapFits, ObjsReadable, RootMap, Kept, RU32, Compact, View, ReplayFrom, Header;
    var s := x.state;
    var gen := (x.gen + 1) % 0x1_0000_0000;
    CleanReopen(x, h);
    LoadSave(s, gen);
    SoundReload(s);
    CompactSound(s);
    StaleLog(x.gen, EncodeTxns(h.txns), Compact(s), gen);
    TornHeader(gen, k, Compact(s));
  }

  /** A log of another generation contributes nothing and is cut to its header. */
  lemma StaleLog(old_: u32, body: seq<byte>, s: State, gen: u32)
    requires old_ != gen
    ensures ReplayWal(Header(old_) + body, s, gen, 1) == Some(Out(s, HEADER_LEN, 1))
    ensures (Header(old_) + body)[..HEADER_LEN] == Header(old_)
  {
    hide U32, RU32;
    assert At(Header(old_) + body, 0, Header(old_));
    HeaderRead(Header(old_) + body, old_);
  }

  lemma TornHeader(gen: u32, k: nat, s: State)
    requires k <= HEADER_LEN
    ensures k < HEADER_LEN ==> ReplayWal(Header(gen)[..k], s, gen, 1) == None
    ensures k == HEADER_LEN ==> ReplayWal(Header(gen)[..k], s, gen, 1) == Some(Out(s, HEADER_LEN, 1))
  {
    if k < HEADER_LEN {
      assert RU32(Header(gen)[..k], 8).Fail?;
    } else {
      assert Header(gen)[..k] == Header(gen);
      assert Header(gen) + EncodeTxns([]) == Header(gen);
      CrashAtAnyByte(s, gen, 1, [], HEADER_LEN);
    }
  }

  /** The crash window in full: after a reopen over a stale log, transactions are
      appended under the old generation, and whatever they are, the next open
      ignores all of them. */
  lemma StaleLosesCommits(x: Session, h: Hist, y: Session, lost: seq<Txn>)
    requires Durable(x, h) && EventOk(x, Checkpoint) && TxnsFit(lost)
    requires Open(TakeCheckpoint(x).snap, Some(x.wal), x.state.gens) == Some(y)
    ensures var r := Open(y.snap, Some(y.wal + EncodeTxns(lost)), x.state.gens);
            r.Some? && r.value.state == y.state == Compact(x.state) && r.value.wal == Header(x.gen)
  {
    hide Load, Save, EncodeTxns, Wf, SnapFits, ObjsReadable, Compact, View, ReplayWal, Header, Durable;
    CheckpointCrash(x, h, HEADER_LEN);
    var gen := (x.gen + 1) % 0x1_0000_0000;
    assert Sound(x.state) by { DurableSound(x, h); }
    LoadSave(x.state, gen);
    SoundReload(x.state);
    StaleLog(x.gen, EncodeTxns(lost), Compact(x.state), gen);
  }

  lemma DurableSound(x: Session, h: Hist)
    requires Durable(x, h)
    ensures Sound(x.state)
  {
  }

  /** In particular the transaction that such a session commits. */
  lemma StaleCommitLost(x: Session, h: Hist, y: Session, ops: seq<Op>)
    requires Durable(x, h) && EventOk(x, Checkpoint)
    requires Open(TakeCheckpoint(x).snap, Some(x.wal), x.state.gens) == Some(y) && TxnOk(y.state, ops)
    ensures RunOk(y.state, ops) && AllFit(Redos(Run(y.state, ops).log))
    ensures var z := CommitTxn(y, ops);
            z.state == Run(y.state, ops).state && Open(z.snap, Some(z.wal), x.state.gens).Some?
            && Open(z.snap, Some(z.wal), x.state.gens).value.state == y.state
  {
    hide Load, Save, EncodeTxn, Wf, SnapFits, ObjsReadable, Compact, Open, Header, Run, Fits;
    StaleState(x, h, y);
    TxnFits(y.state, ops, y.nextTxn);
    var t := Txn(y.nextTxn, Redos(Run(y.state, ops).log));
    assert EncodeTxns([t]) == EncodeTxn(t) by { assert [t][1..] == []; }
    StaleLosesCommits(x, h, y, [t]);
  }

  lemma StaleState(x: Session, h: Hist, y: Session)
    requires Durable(x, h) && EventOk(x, Checkpoint)
    requires Open(TakeCheckpoint(x).snap, Some(x.wal), x.state.gens) == Some(y)
    ensures y.state == Compact(x.state) && Wf(y.state)
  {
    hide Load, Save, Compact, Open, Header, View, SnapFits, ObjsReadable, Durable, EncodeTxns, Garbage, RootMap, KeysDistinct;
    CheckpointCrash(x, h, HEADER_LEN);
    DurableSound(x, h);
    CompactSound(x.state);
  }

  lemma FreshFits(gens: set<Text>)
    ensures SnapFits(Fresh(gens)) && ObjsReadable(Fresh(gens).order, Fresh(gens).heap) && Compact(Fresh(gens)) == Fresh(gens)
  {
  }

  lemma FreshCreate(gens: set<Text>, ops: seq<Op>)
    requires ops == [Op.Create(IntVal(7))]
    ensures TxnOk(Fresh(gens), ops) && 1 in Run(Fresh(gens), ops).state.heap
  {
    hide FindRoot, FindKey, PutField, PutRoot, FreeRoot;
    var s := Fresh(gens);
    var a := Apply(s, ops[0]);
    assert ops[1..] == [] && a.log + [] == a.log;
    assert Run(a.state, []) == Step(a.state, []);
    assert RunOk(a.state, ops[1..]) && RunOk(s, ops) && Run(s, ops) == a;
    assert Loggable(a.state, ops[1..]) && Loggable(s, ops);
  }

  lemma FreshEvent(gens: set<Text>) returns (x: Session, h: Hist)
    ensures Open(None, None, gens) == Some(x) && Durable(x, h) && EventOk(x, Checkpoint) && x.state == Fresh(gens)
  {
    hide Open, Durable, SnapFits, ObjsReadable;
    FreshGens(gens);
    FreshDurable(gens);
    FreshFits(gens);
    x, h := Open(None, None, gens).value, Hist(Fresh(gens), [], [Fresh(gens)], false);
  }

  /** A new store, checkpointed, crashed after the rename and reopened: the object
      that its next transaction creates is gone at the next open. */
  lemma StaleExample() returns (x: Session, y: Session, z: Session)
    ensures Open(None, None, {}) == Some(x) && EventOk(x, Checkpoint)
    ensures Open(TakeCheckpoint(x).snap, Some(x.wal), {}) == Some(y)
    ensures EventOk(y, Commit([Op.Create(IntVal(7))])) && Steps(y, Commit([Op.Create(IntVal(7))]), z)
    ensures 1 in z.state.heap
    ensures Open(z.snap, Some(z.wal), {}).Some? && Open(z.snap, Some(z.wal), {}).value.state == Fresh({})
  {
    hide Open, Durable, View, Header, TxnOk, Run, RunOk, SnapFits, ObjsReadable, Compact, Save, EncodeTxn, AllFit;
    var ops := [Op.Create(IntVal(7))];
    var h;
    x, h := FreshEvent({});
    CheckpointCrash(x, h, HEADER_LEN);
    y := Open(TakeCheckpoint(x).snap, Some(x.wal), {}).value;
    StaleState(x, h, y);
    FreshFits({});
    FreshCreate({}, ops);
    StaleCommitLost(x, h, y, ops);
    z := CommitTxn(y, ops);
  }
}
