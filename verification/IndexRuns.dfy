/** Index agreement over whole runs: every mix of mutators, declarations,
    transactions and collections keeps the derived state equal to a scan. */
module IndexRuns {
  import opened Bytes
  import opened Graph
  import opened Gc
  import opened Transactions
  import opened HashIndex
  import opened Indexes

  /** An open transaction: what it logged and the marks taken at begin. */
  datatype Tx = Tx(log: seq<Rec>, count: nat, nextId: Id, rootCount: nat)

  datatype Full = Full(core: State, derived: Derived, tx: Option<Tx>)

  datatype Event =
    | Mutate(op: Op)
    | AddHash(cls: Text, field: Text)
    | AddOrd(cls: Text, field: Text)
    | DelHash(cls: Text, field: Text)
    | DelOrd(cls: Text, field: Text)
    | Begin
    | Commit
    | Rollback
    | Collection

  // ---- one mutator ---------------------------------------------------------

  /** Only set_field and set_class touch the derived state. */
  function MutDerived(s: State, d: Derived, op: Op): Derived
    requires OpOk(s, op)
  {
    match op
    case SetField(id, key, ref) => if s.heap[id].Composite? then FieldDerived(s, d, id, key, ref) else d
    case SetClass(id, cls) =>
      if s.heap[id].Composite? && s.heap[id].cls != cls then ClassDerived(s, d, id, cls) else d
    case _ => d
  }

  /** No index misses the change: a key that does not fit its buffer brings no index
      to see a string, and a string held in an indexed field is replaced by
      set_field, not rewritten by set_str. */
  ghost predicate Maintained(s: State, d: Derived, op: Op)
    requires OpOk(s, op)
  {
    && (op.SetField? && s.heap[op.id].Composite? && |op.key| >= MAX_KEY ==> Unseen(s, d, op.id, op.key, op.ref))
    && (op.SetValue? && op.v.StrVal? && s.heap[op.id].StrVal? ==> Unindexed(s, d, op.id, op.v.s))
  }

  /** A mutator that a run may hold. */
  ghost predicate MutOk(s: State, d: Derived, op: Op) {
    OpOk(s, op) && BindOk(s, op) && Maintained(s, d, op)
  }

  lemma CreateScan(s: State, b: Body)
    requires Wf(s) && IsInit(b)
    ensures SameScan(s, Alloc(s, s.nextId, b))
  {
    hide FindKey, RootsOk, Refs;
    var t := Alloc(s, s.nextId, b);
    assert s.nextId !in s.heap;
    forall id, f ensures FieldStr(t, id, f) == FieldStr(s, id, f) {
      if id in s.heap && s.heap[id].Composite? {
        var fs := s.heap[id].fields;
        var i := FindKey(fs, f);
        if i < |fs| { FieldInside(s, id, i); }
      }
    }
  }

  lemma FieldInside(s: State, id: Id, i: nat)
    requires Wf(s) && id in s.heap && s.heap[id].Composite? && i < |s.heap[id].fields|
    ensures RefOk(s, s.heap[id].fields[i].value)
  {
    assert BodyOk(s, s.heap[id]);
    assert s.heap[id].fields[i].value in Refs(s.heap[id]);
  }

  /** Replacing a body that is neither composite nor string by another such. */
  lemma OtherScan(s: State, id: Id, b: Body)
    requires id in s.heap && !s.heap[id].Composite? && !s.heap[id].StrVal? && !b.Composite? && !b.StrVal?
    ensures SameScan(s, Put(s, id, b))
  {
    hide FindKey;
  }

  lemma RootScan(s: State, rs: seq<Root>)
    ensures SameScan(s, s.(roots := rs))
  {
  }

  lemma ValueAgrees(s: State, d: Derived, op: Op)
    requires Wf(s) && Agree(s, d) && OpOk(s, op) && op.SetValue?
    ensures Agree(Apply(s, op).state, d) <==> Maintained(s, d, op)
  {
    hide Wf, Agree, SameScan, Unindexed, FindKey, FindRoot;
    if SameKind(s.heap[op.id], op.v) {
      if op.v.StrVal? {
        SetStrExact(s, d, op.id, op.v.s);
      } else {
        OtherScan(s, op.id, op.v);
        AgreeSame(s, Put(s, op.id, op.v), d);
      }
    }
  }

  lemma FieldAgrees(s: State, d: Derived, op: Op)
    requires Wf(s) && Agree(s, d) && OpOk(s, op) && op.SetField?
    ensures Agree(Apply(s, op).state, MutDerived(s, d, op)) <==> Maintained(s, d, op)
  {
    hide Wf, Agree, Unseen, FindKey, FieldDerived, PutField, Put;
    if s.heap[op.id].Composite? {
      if |op.key| < MAX_KEY {
        FieldAgree(s, d, op.id, op.key, op.ref);
      } else {
        LongFieldExact(s, d, op.id, op.key, op.ref);
      }
    }
  }

  lemma ListAgrees(s: State, d: Derived, op: Op)
    requires Agree(s, d) && OpOk(s, op) && (op.ListAppend? || op.ListSet? || op.ListInsert? || op.ListRemove?)
    ensures Agree(Apply(s, op).state, d)
  {
    hide Agree, SameScan, FindKey, FindRoot;
    var t := Apply(s, op).state;
    if Apply(s, op).log != [] {
      assert t == Put(s, op.id, t.heap[op.id]);
      OtherScan(s, op.id, t.heap[op.id]);
      AgreeSame(s, t, d);
    }
  }

  lemma RootAgrees(s: State, d: Derived, op: Op)
    requires Agree(s, d) && OpOk(s, op) && (op.Bind? || op.Unbind?)
    ensures Agree(Apply(s, op).state, d)
  {
    hide Agree, SameScan, FindKey, FindRoot, PutRoot, FreeRoot;
    var t := Apply(s, op).state;
    RootScan(s, t.roots);
    AgreeSame(s, t, d);
  }

  /** A mutator keeps the derived state in agreement with a scan exactly if no index
      misses its change. */
  lemma MutateAgree(s: State, d: Derived, op: Op)
    requires Wf(s) && Agree(s, d) && OpOk(s, op)
    ensures Agree(Apply(s, op).state, MutDerived(s, d, op)) <==> Maintained(s, d, op)
  {
    hide Wf, Agree, SameScan, Unindexed, FindKey, FindRoot, FieldDerived, ClassDerived, PutField, Unseen;
    match op
    case Create(init) =>
      if Apply(s, op).log != [] {
        CreateScan(s, init);
        AgreeSame(s, Apply(s, op).state, d);
      }
    case SetValue(_, _) => ValueAgrees(s, d, op);
    case SetField(_, _, _) => FieldAgrees(s, d, op);
    case SetClass(id, cls) =>
      if s.heap[id].Composite? && s.heap[id].cls != cls { ClassChangeAgree(s, d, id, cls); }
    case Bind(_, _) => RootAgrees(s, d, op);
    case Unbind(_) => RootAgrees(s, d, op);
    case _ => ListAgrees(s, d, op);
  }

  // ---- runs ----------------------------------------------------------------

  ghost predicate EventOk(x: Full, e: Event) {
    e.Mutate? ==> MutOk(x.core, x.derived, e.op)
  }

  /** Begin inside a transaction, commit or abort outside one and a collection
      inside one are refused. */
  ghost function Next(x: Full, e: Event): Full
    requires EventOk(x, e)
  {
    var s, d := x.core, x.derived;
    match e
    case Mutate(op) =>
      var a := Apply(s, op);
      Full(a.state, MutDerived(s, d, op), if x.tx.None? then None else Some(x.tx.value.(log := x.tx.value.log + a.log)))
    case AddHash(cls, field) => x.(derived := DeclareHash(s, d, cls, field))
    case AddOrd(cls, field) => x.(derived := DeclareOrd(s, d, cls, field))
    case DelHash(cls, field) => x.(derived := DropHash(d, cls, field))
    case DelOrd(cls, field) => x.(derived := DropOrd(d, cls, field))
    case Begin => if x.tx.Some? then x else x.(tx := Some(Tx([], |s.order|, s.nextId, |s.roots|)))
    case Commit => x.(tx := None)
    case Rollback =>
      if x.tx.None? then x
      else
        var t := Abort(s, x.tx.value.log, x.tx.value.count, x.tx.value.nextId, x.tx.value.rootCount);
        Full(t, Rebuild(t, d), None)
    case Collection => if x.tx.Some? then x else Full(Collect(s), Rebuild(Collect(s), d), None)
  }

  /** The open transaction is a run from the state at begin. */
  ghost predicate TxFrom(x: Full, start: State, ops: seq<Op>)
    requires x.tx.Some?
  {
    && Wf(start) && RunOk(start, ops) && Run(start, ops) == Step(x.core, x.tx.value.log)
    && x.tx.value.count == |start.order| && x.tx.value.nextId == start.nextId && x.tx.value.rootCount == |start.roots|
  }

  ghost predicate Inv(x: Full) {
    && Wf(x.core) && Agree(x.core, x.derived)
    && (x.tx.Some? ==> exists start, ops :: TxFrom(x, start, ops))
  }

  lemma {:induction false} RunSnoc(s: State, ops: seq<Op>, op: Op)
    requires RunOk(s, ops) && OpOk(Run(s, ops).state, op) && BindOk(Run(s, ops).state, op)
    ensures RunOk(s, ops + [op])
    ensures var a := Apply(Run(s, ops).state, op);
            Run(s, ops + [op]) == Step(a.state, Run(s, ops).log + a.log)
    decreases |ops|
  {
    hide Apply, OpOk, BindOk;
    if ops == [] {
      assert [op][1..] == [] && ops + [op] == [op];
      var a := Apply(s, op);
      assert a.log + [] == a.log && [] + a.log == a.log;
    } else {
      var a := Apply(s, ops[0]);
      assert (ops + [op])[1..] == ops[1..] + [op];
      RunSnoc(a.state, ops[1..], op);
      var b := Run(a.state, ops[1..]);
      var c := Apply(b.state, op);
      assert a.log + (b.log + c.log) == (a.log + b.log) + c.log;
    }
  }

  lemma MutateInv(x: Full, e: Event)
    requires Inv(x) && EventOk(x, e) && e.Mutate?
    ensures Inv(Next(x, e))
  {
    hide Wf, Agree, Apply, MutDerived, RunOk, Run, OpOk, BindOk, Maintained;
    ApplyWf(x.core, e.op);
    MutateAgree(x.core, x.derived, e.op);
    if x.tx.Some? {
      var start, ops :| TxFrom(x, start, ops);
      RunSnoc(start, ops, e.op);
      assert TxFrom(Next(x, e), start, ops + [e.op]);
    }
  }

  lemma BeginInv(x: Full)
    requires Inv(x)
    ensures Inv(Next(x, Begin)) && Inv(Next(x, Commit))
  {
    hide Wf, Agree;
    if x.tx.None? {
      assert TxFrom(Next(x, Begin), x.core, []);
    }
  }

  lemma AgreeDecls(s: State, d: Derived)
    requires Agree(s, d)
    ensures DeclsOk(d)
  {
    hide HashAgree, OrdAgree, ClassAgree, DeclOk;
  }

  /** Rolling back returns to the store at begin, with its indexes rebuilt. */
  lemma RollbackInv(x: Full)
    requires Inv(x)
    ensures Inv(Next(x, Rollback))
    ensures x.tx.Some? ==> forall start, ops :: TxFrom(x, start, ops) ==> SameStore(Next(x, Rollback).core, start)
  {
    hide Wf, Agree, Rebuild, Abort, DeclsOk, Run, RunOk, SameStore;
    if x.tx.Some? {
      forall start, ops | TxFrom(x, start, ops)
        ensures SameStore(Next(x, Rollback).core, start) && Wf(Next(x, Rollback).core)
      {
        AbortIdentity(start, ops);
      }
      AgreeDecls(x.core, x.derived);
      RebuildAgree(Next(x, Rollback).core, x.derived);
    }
  }

  lemma CollectInv(x: Full)
    requires Inv(x)
    ensures Inv(Next(x, Collection))
  {
    hide Wf, Agree, Rebuild, Collect, DeclsOk;
    if x.tx.None? {
      CollectWf(x.core);
      AgreeDecls(x.core, x.derived);
      RebuildAgree(Collect(x.core), x.derived);
    }
  }

  lemma DeclareInv(x: Full, e: Event)
    requires Inv(x) && (e.AddHash? || e.AddOrd? || e.DelHash? || e.DelOrd?)
    ensures Inv(Next(x, e))
  {
    hide Wf, Agree, DeclareHash, DeclareOrd, DropHash, DropOrd, Run, RunOk;
    DeclareAgree(x.core, x.derived, e.cls, e.field);
    DropAgree(x.core, x.derived, e.cls, e.field);
    if x.tx.Some? {
      var start, ops :| TxFrom(x, start, ops);
      assert TxFrom(Next(x, e), start, ops);
    }
  }

  lemma NextInv(x: Full, e: Event)
    requires Inv(x) && EventOk(x, e)
    ensures Inv(Next(x, e))
  {
    hide Inv, Next;
    match e
    case Mutate(_) => MutateInv(x, e);
    case Begin => BeginInv(x);
    case Commit => BeginInv(x);
    case Rollback => RollbackInv(x);
    case Collection => CollectInv(x);
    case _ => DeclareInv(x, e);
  }

  ghost predicate Execution(xs: seq<Full>, es: seq<Event>, gens: set<Text>) {
    && |xs| == |es| + 1 && xs[0] == Full(State([], map[], 1, [], gens), Derived([], [], []), None)
    && forall i :: 0 <= i < |es| ==> EventOk(xs[i], es[i]) && xs[i + 1] == Next(xs[i], es[i])
  }

  lemma EmptyInv(gens: set<Text>)
    ensures Inv(Full(State([], map[], 1, [], gens), Derived([], [], []), None))
  {
    hide FindClass;
    var s := State([], map[], 1, [], gens);
    forall c: Text ensures ListAgree(s, [], c) {
      NoMembers(c);
    }
  }

  /** In every reachable state each class list, hash entry and ordered entry
      holds once each object that a full scan would select, and no other. */
  lemma {:induction false} RunAgrees(xs: seq<Full>, es: seq<Event>, gens: set<Text>, k: nat)
    requires Execution(xs, es, gens) && k <= |es|
    ensures Inv(xs[k])
  {
    hide Inv, Next, EventOk;
    if k == 0 {
      EmptyInv(gens);
    } else {
      RunAgrees(xs, es, gens, k - 1);
      NextInv(xs[k - 1], es[k - 1]);
    }
  }

  // ---- find_by_field -------------------------------------------------------

  predicate Matches(s: State, id: Id, cls: Text, key: Text, value: Text) {
    IsClass(s, id, cls) && FieldStr(s, id, key) == Some(value)
  }

  /** An object of the class whose first field of that key refers to that string. */
  lemma MatchesExact(s: State, id: Id, cls: Text, key: Text, value: Text)
    ensures Matches(s, id, cls, key, value) <==>
            && cls != [] && id in s.heap && s.heap[id].Composite? && s.heap[id].cls == cls
            && var fs := s.heap[id].fields;
            exists i :: 0 <= i < |fs| && fs[i].key == key && (forall j :: 0 <= j < i ==> fs[j].key != key)
                        && fs[i].value in s.heap && s.heap[fs[i].value] == StrVal(value)
  {
    hide FindKey;
  }

  lemma EntryMatches(s: State, d: Derived, i: nat, value: Text)
    requires Agree(s, d) && i < |d.hash|
    ensures forall id :: id in Items(d.hash[i].index, value) <==> Matches(s, id, d.hash[i].cls, d.hash[i].field, value)
  {
    hide IsClass, FieldStr, Items, Valid, OrdAgree, ClassAgree;
    assert HashAgree(s, d.hash[i]) && ValueAgree(s, d.hash[i], value);
  }

  lemma ListMembers(s: State, d: Derived, cls: Text)
    requires Agree(s, d)
    ensures forall id :: id in Members(d.classes, cls) <==> IsClass(s, id, cls)
  {
    hide IsClass, HashAgree, OrdAgree;
    assert ListAgree(s, d.classes, cls);
  }

  /** The indexed lookup, or the walk over the class list when there is no index,
      finds an object exactly when a scan of the store would. */
  method FindByField(s: State, d: Derived, cls: Text, key: Text, value: Text) returns (r: Option<Id>)
    requires Agree(s, d)
    ensures r.Some? ==> Matches(s, r.value, cls, key, value)
    ensures r.None? ==> forall id :: !Matches(s, id, cls, key, value)
  {
    hide Agree, IsClass, FieldStr, Items, Members, FindHash;
    var i := FindHash(d.hash, cls, key);
    if i < |d.hash| {
      EntryMatches(s, d, i, value);
      var items := Items(d.hash[i].index, value);
      if |items| > 0 {
        assert items[0] in items;
        return Some(items[0]);
      }
      return None;
    }
    ListMembers(s, d, cls);
    var members := Members(d.classes, cls);
    for k := 0 to |members|
      invariant forall j :: 0 <= j < k ==> FieldStr(s, members[j], key) != Some(value)
    {
      if FieldStr(s, members[k], key) == Some(value) {
        assert members[k] in members;
        return Some(members[k]);
      }
    }
    return None;
  }
}
