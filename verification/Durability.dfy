/** The store in memory and its files are one system: what the store hands to the
    log at commit, abort and automatic commit are the steps of which recovery is
    proved. */
module Durability {
  import opened Bytes
  import opened Graph
  import opened Transactions
  import opened Replay
  import opened Wal
  import opened IndexRuns
  import opened ObjectStore
  import R = Recovery

  /** Appending one transaction of the journal to the log file. */
  ghost function Logged(s: R.Session, state: State, redos: seq<Redo>): R.Session
    requires AllFit(redos)
  {
    s.(state := state, nextTxn := (s.nextTxn + 1) % 0x1_0000_0000, wal := s.wal + EncodeTxn(Txn(s.nextTxn, redos)))
  }

  /** Committing the open transaction of a store and appending its records is the
      commit step of a session that stood at its begin. */
  lemma CommitIsStep(x: Full, start: State, ops: seq<Op>, s: R.Session)
    requires x.tx.Some? && TxFrom(x, start, ops) && s.state == start && R.TxnOk(start, ops)
    ensures AllFit(Redos(x.tx.value.log)) && R.EventOk(s, R.Commit(ops))
    ensures R.Steps(s, R.Commit(ops), Logged(s, x.core, Redos(x.tx.value.log)))
  {
    hide R.TxnOk, Run, RunOk, Redos, EncodeTxn, Fits, Wf;
    R.TxnFits(start, ops, s.nextTxn);
    assert RunOk(start, ops) by { TxnRuns(start, ops); }
  }

  lemma TxnRuns(s: State, ops: seq<Op>)
    requires R.TxnOk(s, ops)
    ensures RunOk(s, ops)
  {
    hide Run;
  }

  /** Rolling it back is the rollback step of that session, up to the transaction
      id it consumed. */
  lemma RollbackIsStep(x: Full, start: State, ops: seq<Op>, s: R.Session)
    requires x.tx.Some? && TxFrom(x, start, ops) && s.state == start
    ensures R.EventOk(s, R.Rollback(ops))
    ensures R.Steps(s, R.Rollback(ops),
                    s.(state := Next(x, Rollback).core, nextTxn := (s.nextTxn + 1) % 0x1_0000_0000))
  {
    hide Next, Run, RunOk, Abort, Wf;
    RollbackIs(x);
  }

  /** A bare mutator that logs a record commits it at once; one that does not
      leaves the files alone. */
  lemma AutoIsStep(x: Full, j: seq<seq<Redo>>, op: Op, y: Full, k: seq<seq<Redo>>, s: R.Session)
    requires x.tx.None? && Wf(x.core) && OpOk(x.core, op) && Applied(x, j, op, y, k)
    requires s.state == x.core && R.TxnOk(x.core, [op])
    ensures R.EventOk(s, R.Auto(op))
    ensures k == j ==> R.Steps(s, R.Auto(op), s)
    ensures k != j ==> |k| == |j| + 1 && k[..|j|] == j && AllFit(k[|j|]) && R.Steps(s, R.Auto(op), Logged(s, y.core, k[|j|]))
  {
    hide R.TxnOk, Apply, MutDerived, Redos, EncodeTxn, Fits, Wf;
    R.TxnFits(x.core, [op], s.nextTxn);
    assert RunOk(x.core, [op]) by { TxnRuns(x.core, [op]); }
    RunOne(x.core, op);
    var a := Apply(x.core, op);
    if a.log != [] {
      assert k[|j|] == Redos(a.log);
    }
  }
}
