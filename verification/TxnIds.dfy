/** Transaction ids: over every run the log holds each id at most once, in ascending
    order, until the 32-bit counter wraps. */
module TxnIds {
  import opened Bytes
  import opened Graph
  import opened Transactions
  import opened Replay
  import opened Gc
  import S = Snapshot
  import opened Wal
  import opened Recovery

  ghost predicate Ascending(ts: seq<Txn>, next: nat) {
    && (forall i, j :: 0 <= i < j < |ts| ==> ts[i].id < ts[j].id)
    && (forall i :: 0 <= i < |ts| ==> 1 <= ts[i].id < next)
  }

  lemma AscendingMore(ts: seq<Txn>, t: Txn)
    requires Ascending(ts, t.id) && t.id >= 1
    ensures Ascending(ts + [t], t.id + 1)
  {
  }

  lemma CommitIds(x: Session, h: Hist, ops: seq<Op>) returns (h': Hist)
    requires Durable(x, h) && TxnOk(x.state, ops) && Ascending(h.txns, x.nextTxn) && 1 <= x.nextTxn < 0xFFFF_FFFF
    ensures AllFit(Redos(Run(x.state, ops).log)) && Durable(CommitTxn(x, ops), h')
    ensures Ascending(h'.txns, CommitTxn(x, ops).nextTxn) && CommitTxn(x, ops).nextTxn == x.nextTxn + 1
  {
    hide Durable, Run, Ascending, EncodeTxn, Redos, TxnOk, Fits;
    assert RunOk(x.state, ops) by { CommitRuns(x.state, ops); }
    h' := CommitDurable(x, h, ops);
    AscendingMore(h.txns, Txn(x.nextTxn, Redos(Run(x.state, ops).log)));
  }

  lemma CommitRuns(s: State, ops: seq<Op>)
    requires TxnOk(s, ops)
    ensures RunOk(s, ops)
  {
    hide Run;
  }

  /** A reopened log continues one above the last id it recovered. */
  lemma CrashIds(x: Session, h: Hist, cut: nat) returns (x': Session, h': Hist)
    requires Durable(x, h) && HEADER_LEN <= cut <= |x.wal|
    requires Ascending(h.txns, x.nextTxn) && 1 <= x.nextTxn <= 0xFFFF_FFFF
    ensures Open(x.snap, Some(x.wal[..cut]), x.state.gens) == Some(x') && Durable(x', h')
    ensures h'.txns == h.txns[..Recovered(h, cut)] && Ascending(h'.txns, x'.nextTxn)
    ensures x'.nextTxn == if h'.txns == [] then 1 else h'.txns[|h'.txns| - 1].id + 1
    ensures 1 <= x'.nextTxn <= x.nextTxn
  {
    hide RedoAll, Recoverable, Fits, View, Garbage, EncodeTxns, KeysDistinct, Survivors, Wf, LoadBase, ReplayWal, RedoTxns, RedoStates, MarkOk;
    x', h' := CrashDurable(x, h, cut);
    CrashAtAnyByte(h.base, x.gen, 1, h.txns, cut);
    NextTxnAbove(Out(h.base, HEADER_LEN, 1), HEADER_LEN, h.txns[..Recovered(h, cut)]);
  }

  /** Every event keeps the ids in order, and uses up at most one. */
  lemma EventIds(x: Session, h: Hist, e: Event) returns (x': Session, h': Hist)
    requires Durable(x, h) && EventOk(x, e) && Ascending(h.txns, x.nextTxn) && 1 <= x.nextTxn < 0xFFFF_FFFF
    ensures Steps(x, e, x') && Durable(x', h')
    ensures Ascending(h'.txns, x'.nextTxn) && 1 <= x'.nextTxn <= x.nextTxn + 1
  {
    hide Durable, Run, Apply, Abort, Collect, S.Save, Header, Open, TxnOk, Redos, EncodeTxn, Fits, S.SnapFits, S.ObjsReadable;
    match e
    case Commit(ops) =>
      CommitRuns(x.state, ops);
      h' := CommitIds(x, h, ops);
      x' := CommitTxn(x, ops);
    case Rollback(ops) =>
      RollbackDurable(x, h, ops);
      x', h' := RollbackTxn(x, ops), h;
    case Auto(op) =>
      CommitRuns(x.state, [op]);
      if Skips(x.state, op) {
        x', h' := x, h;
      } else {
        h' := CommitIds(x, h, [op]);
        x' := CommitTxn(x, [op]);
      }
    case Collection =>
      CollectDurable(x, h);
      x', h' := x.(state := Collect(x.state)), h.(collected := true);
    case Checkpoint =>
      h' := CheckpointDurable(x, h);
      x' := TakeCheckpoint(x);
    case Crash(cut) => x', h' := CrashIds(x, h, cut);
  }

  /** After any run the log is the header and transactions with ascending ids, all
      below the id that comes next. */
  lemma {:induction false} RunIds(xs: seq<Session>, es: seq<Event>, gens: set<Text>) returns (h: Hist)
    requires Execution(xs, es, gens) && |es| < 0xFFFF_FFFE
    ensures Durable(xs[|es|], h) && xs[|es|].wal == Header(xs[|es|].gen) + EncodeTxns(h.txns)
    ensures Ascending(h.txns, xs[|es|].nextTxn) && 1 <= xs[|es|].nextTxn <= |es| + 1
    decreases |es|
  {
    hide Steps, EventOk, Open, Header, LoadBase, MarkOk, Current, Recoverable, Fits, Sound, EncodeTxns;
    if es == [] {
      FreshDurable(gens);
      h := Hist(Fresh(gens), [], [Fresh(gens)], false);
      FreshNext(gens);
    } else {
      var n := |es| - 1;
      assert Execution(xs[..n + 1], es[..n], gens);
      var h0 := RunIds(xs[..n + 1], es[..n], gens);
      assert xs[..n + 1][n] == xs[n];
      var x';
      x', h := EventIds(xs[n], h0, es[n]);
      StepsUnique(xs[n], es[n], x', xs[n + 1]);
    }
  }

  lemma FreshNext(gens: set<Text>)
    ensures Open(None, None, gens).Some? && Open(None, None, gens).value.nextTxn == 1
  {
  }
}
