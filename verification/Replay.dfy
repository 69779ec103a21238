/** Redoing the log of a committed run reproduces the live store, up to garbage
    that a collection dropped without logging it. */
module Replay {
  import opened Bytes
  import opened Graph
  import opened Gc
  import opened Transactions

  /** `t` holds the objects of `s`, unchanged and in order, perhaps among others;
      next id and root map agree, while root slots may differ. */
  ghost predicate View(s: State, t: State) {
    && s.heap.Keys <= t.heap.Keys
    && (forall id :: id in s.heap ==> t.heap[id] == s.heap[id])
    && Kept(t.order, s.heap.Keys) == s.order
    && (forall id :: id in t.order <==> id in t.heap)
    && (forall id :: id in t.heap ==> id < t.nextId)
    && s.nextId == t.nextId && s.gens == t.gens
    && RootMap(s.roots) == RootMap(t.roots) && UsedDistinct(t.roots)
  }

  /** What `t` holds beyond `s`. */
  ghost function Garbage(s: State, t: State): set<Id> { t.heap.Keys - s.heap.Keys }

  lemma {:induction false} KeptAgree(order: seq<Id>, a: set<Id>, b: set<Id>)
    requires forall id :: id in order ==> (id in a <==> id in b)
    ensures Kept(order, a) == Kept(order, b)
  {
    if order != [] { KeptAgree(order[..|order| - 1], a, b); }
  }

  lemma KeptAppend(order: seq<Id>, keep: set<Id>, id: Id)
    requires id !in order
    ensures Kept(order + [id], keep + {id}) == Kept(order, keep) + [id]
  {
    assert (order + [id])[..|order|] == order;
    KeptAgree(order, keep, keep + {id});
  }

  lemma {:induction false} KeptAll(order: seq<Id>, a: set<Id>)
    requires forall id :: id in order ==> id in a
    ensures Kept(order, a) == order
  {
    if order != [] {
      KeptAll(order[..|order| - 1], a);
      assert order[..|order| - 1] + [order[|order| - 1]] == order;
    }
  }

  lemma ViewSelf(s: State)
    requires Wf(s)
    ensures View(s, s)
  {
    KeptAll(s.order, s.heap.Keys);
  }

  /** Without garbage the two stores are equal but for the slots of roots. */
  lemma ViewExact(s: State, t: State)
    requires View(s, t) && Garbage(s, t) == {}
    ensures t.order == s.order && t.heap == s.heap && t.nextId == s.nextId
    ensures RootMap(t.roots) == RootMap(s.roots)
  {
    forall id | id in t.heap ensures id in s.heap {
      assert id !in Garbage(s, t);
    }
    KeptAll(t.order, s.heap.Keys);
  }

  /** Collecting both stores removes the difference. */
  lemma ViewCollect(s: State, t: State)
    requires Wf(s) && Wf(t) && View(s, t)
    ensures Collect(s).order == Collect(t).order && Collect(s).heap == Collect(t).heap
    ensures View(Collect(s), t)
  {
    hide Refs, Kept, RootMap, Reaches;
    ReachedSame(s, t);
    assert Reached(s) <= s.heap.Keys;
    KeptTwice(t.order, s.heap.Keys, Reached(s));
    assert Collect(s).heap.Keys == Reached(s);
    assert Collect(t).heap.Keys == Reached(s);
  }

  lemma {:induction false} KeptTwice(order: seq<Id>, a: set<Id>, b: set<Id>)
    requires b <= a
    ensures Kept(Kept(order, a), b) == Kept(order, b)
  {
    if order != [] {
      var front, last := order[..|order| - 1], order[|order| - 1];
      KeptTwice(front, a, b);
      var k := Kept(front, a);
      assert (k + [last])[..|k|] == k;
    }
  }

  lemma ReachedSame(s: State, t: State)
    requires Wf(s) && Wf(t) && View(s, t)
    ensures Reached(s) == Reached(t)
  {
    hide Refs, Kept, RootMap, Reaches;
    ReachedClosed(s); ReachedClosed(t);
    assert Closed(t, Reached(s)) by { ClosedAcross(s, t, Reached(s)); }
    assert Closed(s, Reached(t) * s.heap.Keys) by { ClosedBack(s, t, Reached(t)); }
    forall id | id in Reached(t) ensures id in Reached(s) {
      InsideClosed(t, Reached(s), id);
    }
    forall id | id in Reached(s) ensures id in Reached(t) {
      InsideClosed(s, Reached(t) * s.heap.Keys, id);
    }
  }

  lemma InsideClosed(s: State, m: set<Id>, id: Id)
    requires Wf(s) && Closed(s, m) && id in Reached(s)
    ensures id in m
  {
    var p :| Path(s, p) && p[|p| - 1] == id;
    PathInside(s, m, p);
  }

  /** A used root of one store is a used root of the other with the same object. */
  lemma RootAcross(s: State, t: State, i: nat) returns (j: nat)
    requires UsedDistinct(t.roots) && RootMap(s.roots) == RootMap(t.roots)
    requires i < |t.roots| && t.roots[i].used
    ensures j < |s.roots| && s.roots[j].used && s.roots[j].obj == t.roots[i].obj
  {
    var n := t.roots[i].name;
    FindRootIs(t.roots, n, i);
    RootMapFind(t.roots, n); RootMapFind(s.roots, n);
    j := FindRoot(s.roots, n);
  }

  lemma ClosedAcross(s: State, t: State, m: set<Id>)
    requires Wf(s) && Wf(t) && View(s, t) && Closed(s, m) && m <= s.heap.Keys
    ensures Closed(t, m)
  {
    hide Refs, Kept, RootMap;
    forall i | 0 <= i < |t.roots| && t.roots[i].used && t.roots[i].obj != 0 ensures t.roots[i].obj in m {
      var j := RootAcross(s, t, i);
    }
  }

  lemma ClosedBack(s: State, t: State, m: set<Id>)
    requires Wf(s) && Wf(t) && View(s, t) && Closed(t, m)
    ensures Closed(s, m * s.heap.Keys)
  {
    hide Refs, Kept, RootMap;
    forall i | 0 <= i < |s.roots| && s.roots[i].used && s.roots[i].obj != 0
      ensures s.roots[i].obj in m * s.heap.Keys
    {
      var j := RootAcross(t, s, i);
      assert RootOk(s, s.roots[i]);
    }
    forall a, b | a in m * s.heap.Keys && a in s.heap && b in Refs(s.heap[a]) && b != 0
      ensures b in m * s.heap.Keys
    {
      assert BodyOk(s, s.heap[a]);
    }
  }

  // ---- redo ----------------------------------------------------------------

  function RedoAll(s: State, ws: seq<Redo>): Option<State>
    decreases |ws|
  {
    if ws == [] then Some(s)
    else
      var r := RedoOne(s, ws[0]);
      if r.None? then None else RedoAll(r.value, ws[1..])
  }

  function Redos(log: seq<Rec>): (ws: seq<Redo>)
    ensures |ws| == |log|
    ensures forall i :: 0 <= i < |log| ==> ws[i] == log[i].redo
  {
    seq(|log|, i requires 0 <= i < |log| => log[i].redo)
  }

  /** Keys that the log can represent at every step of the run. */
  ghost predicate Loggable(s: State, ops: seq<Op>)
    requires RunOk(s, ops)
    decreases |ops|
  {
    ops == [] || (KeyOk(s, ops[0]) && Loggable(Apply(s, ops[0]).state, ops[1..]))
  }

  /** Same effect on the store, seen from the live side. */
  ghost predicate Follows(s: State, t: State, s': State, t': State) {
    View(s', t') && Garbage(s', t') == Garbage(s, t)
  }

  lemma ViewPut(s: State, t: State, id: Id, b: Body)
    requires View(s, t) && id in s.heap
    ensures Follows(s, t, Put(s, id, b), Put(t, id, b))
  {
    hide Kept, RootMap;
    assert Put(s, id, b).heap.Keys == s.heap.Keys && Put(t, id, b).heap.Keys == t.heap.Keys;
  }

  lemma ViewAlloc(s: State, t: State, b: Body)
    requires Wf(s) && View(s, t)
    ensures Follows(s, t, Alloc(s, s.nextId, b), Alloc(t, s.nextId, b))
  {
    hide RootMap, Kept;
    var id := s.nextId;
    var s', t' := Alloc(s, id, b), Alloc(t, id, b);
    assert id !in s.heap && id !in t.heap;
    assert s'.heap.Keys == s.heap.Keys + {id} && t'.heap.Keys == t.heap.Keys + {id};
    KeptAppend(t.order, s.heap.Keys, id);
  }

  lemma PutRootMap(rs: seq<Root>, name: Text, ref: Id)
    requires UsedDistinct(rs) && |name| < MAX_KEY
    ensures UsedDistinct(PutRoot(rs, name, ref)) && RootMap(PutRoot(rs, name, ref)) == RootMap(rs)[name := ref]
  {
    hide RootMap, FindRoot, FindUnused, FindKey;
    if FindRoot(rs, name) < |rs| { RebindMap(rs, name, ref); } else { AppendRootMap(rs, name, ref); }
  }

  lemma RedoBind(s: State, t: State, op: Op)
    requires Wf(s) && View(s, t) && op.Bind? && OpOk(s, op) && BindOk(s, op)
    ensures Follows(s, t, Apply(s, op).state, t.(roots := PutRoot(t.roots, Trunc(op.name), op.ref)))
  {
    hide RootMap, FindRoot, FindUnused, FindKey, Kept;
    BindDistinct(s, op);
    PutRootMap(t.roots, Trunc(op.name), op.ref);
  }

  /** A root name is bound alike by both sides exactly when it fits, does not
      collide once truncated, or already names the same object: otherwise the
      live store keeps finding the old slot and replay overwrites it. */
  lemma RedoBindExact(s: State, op: Op)
    requires Wf(s) && op.Bind?
    ensures RootMap(PutRoot(s.roots, Trunc(op.name), op.ref)) == RootMap(PutRoot(s.roots, op.name, op.ref)) <==>
            BindOk(s, op) || (Trunc(op.name) in RootMap(s.roots) && RootMap(s.roots)[Trunc(op.name)] == op.ref)
  {
    hide RootMap, FindRoot, FindUnused, FindKey, BodyOk;
    var rs, n := s.roots, Trunc(op.name);
    PutRootMap(rs, n, op.ref);
    if BindOk(s, op) {
      BindDistinct(s, op);
    } else {
      BoundName(s, op);
      RootMapFind(rs, n);
      var rs' := rs + [Root(n, op.ref, true)];
      assert rs' == PutRoot(rs, op.name, op.ref);
      AppendShadowed(rs, Root(n, op.ref, true));
    }
  }

  /** A slot behind one of the same name is never found. */
  lemma AppendShadowed(rs: seq<Root>, r: Root)
    requires FindRoot(rs, r.name) < |rs|
    ensures RootMap(rs + [r]) == RootMap(rs)
  {
    hide RootMap, FindRoot;
    RootMapOf(rs);
    forall n: Text
      ensures FindRoot(rs + [r], n) < |rs| + 1 <==> FindRoot(rs, n) < |rs|
      ensures FindRoot(rs, n) < |rs| ==> FindRoot(rs + [r], n) == FindRoot(rs, n)
    {
      AppendFind(rs, r, n);
    }
    RootMapExt(rs + [r], RootMap(rs));
  }

  lemma RedoUnbind(s: State, t: State, op: Op)
    requires Wf(s) && View(s, t) && op.Unbind? && Apply(s, op).log != []
    ensures Trunc(op.name) == op.name
    ensures Follows(s, t, Apply(s, op).state, t.(roots := FreeRoot(t.roots, op.name)))
  {
    hide RootMap, FindRoot, FindUnused, FindKey, Kept;
    assert RootOk(s, s.roots[FindRoot(s.roots, op.name)]);
    FreeRootMap(s.roots, op.name);
    FreeRootMap(t.roots, op.name);
  }

  /** A key that fits, or whose truncation is new, is set alike by both sides;
      any other key is appended live but overwrites on replay. */
  lemma RedoFieldExact(fs: seq<Field>, key: Text, ref: Id)
    requires forall i :: 0 <= i < |fs| ==> |fs[i].key| < MAX_KEY
    ensures PutField(fs, Trunc(key), ref) == PutField(fs, key, ref) <==>
            |key| < MAX_KEY || FindKey(fs, Trunc(key)) == |fs|
  {
    if |key| >= MAX_KEY {
      assert FindKey(fs, key) == |fs|;
      assert |PutField(fs, key, ref)| == |fs| + 1;
    }
  }

  /** Any key of 64 bytes or more that has been set before: set again, it is appended
      live and overwritten by its replay. */
  lemma RedoFieldDiffers(key: Text)
    requires |key| >= MAX_KEY
    ensures var s := State([1, 2], map[1 := Composite([], [Field(Trunc(key), 2)]), 2 := IntVal(7)], 3, [], {});
            var a := Apply(s, SetField(1, key, 2));
            && Wf(s) && a.log != []
            && var r := RedoOne(s, a.log[0].redo);
            r.Some? && |r.value.heap[1].fields| == 1 && |a.state.heap[1].fields| == 2
  {
    hide FindKey, Trunc;
    var s := State([1, 2], map[1 := Composite([], [Field(Trunc(key), 2)]), 2 := IntVal(7)], 3, [], {});
    var fs := s.heap[1].fields;
    assert fs[0].value == 2;
    assert BodyOk(s, s.heap[1]) && BodyOk(s, s.heap[2]);
    assert FindKey(fs, key) == 1 by { assert fs[0].key != key; }
    assert FindKey(fs, Trunc(key)) == 0 by { assert fs[0].key == Trunc(key); }
  }

  /** Any name of 64 bytes or more whose truncation is bound: bound to another object,
      it is not found live and rebinds the root on replay. */
  lemma RedoBindDiffers(name: Text)
    requires |name| >= MAX_KEY
    ensures var s := State([1, 2], map[1 := IntVal(7), 2 := IntVal(8)], 3, [Root(Trunc(name), 1, true)], {});
            var a := Apply(s, Bind(name, 2));
            && Wf(s) && a.log != []
            && var r := RedoOne(s, a.log[0].redo);
            r.Some? && RootMap(r.value.roots) != RootMap(a.state.roots)
  {
    hide FindKey, Trunc, PutRoot, FindRoot;
    var s := State([1, 2], map[1 := IntVal(7), 2 := IntVal(8)], 3, [Root(Trunc(name), 1, true)], {});
    assert BodyOk(s, s.heap[1]) && BodyOk(s, s.heap[2]);
    assert RootMap(s.roots) == map[Trunc(name) := 1] by { assert s.roots[1..] == []; }
    assert FindRoot(s.roots, Trunc(name)) == 0 by { assert s.roots[0].used && s.roots[0].name == Trunc(name); }
    hide RootMap;
    RedoBindExact(s, Bind(name, 2));
    assert Trunc(Trunc(name)) == Trunc(name);
  }

  lemma RedoSetField(s: State, t: State, op: Op)
    requires Wf(s) && View(s, t) && op.SetField? && OpOk(s, op) && KeyOk(s, op) && Apply(s, op).log != []
    ensures RedoOne(t, Apply(s, op).log[0].redo) == Some(Put(t, op.id, Apply(s, op).state.heap[op.id]))
  {
    hide RootMap, FindRoot, FindUnused, FindKey, Kept, PutField;
    assert BodyOk(s, s.heap[op.id]);
    RedoFieldExact(s.heap[op.id].fields, op.key, op.ref);
  }

  /** One mutator and the redo of its record, on stores that look the same. */
  lemma RedoStep(s: State, t: State, op: Op)
    requires Wf(s) && View(s, t) && OpOk(s, op) && BindOk(s, op) && KeyOk(s, op)
    requires Apply(s, op).log != []
    ensures RedoOne(t, Apply(s, op).log[0].redo).Some?
    ensures Follows(s, t, Apply(s, op).state, RedoOne(t, Apply(s, op).log[0].redo).value)
  {
    hide RootMap, FindRoot, FindUnused, FindKey, Kept, PutField, PutRoot, FreeRoot, Follows, Wf;
    if op.Bind? {
      RedoBind(s, t, op);
    } else if op.Unbind? {
      RedoUnbind(s, t, op);
    } else if op.Create? {
      ViewAlloc(s, t, op.init);
    } else {
      if op.SetField? { RedoSetField(s, t, op); }
      ViewPut(s, t, op.id, Apply(s, op).state.heap[op.id]);
    }
  }

  /** The mutator whose effect the redo of a record has. */
  function Norm(op: Op): Op {
    match op
    case SetField(id, key, ref) => SetField(id, Trunc(key), ref)
    case Bind(name, ref) => Bind(Trunc(name), ref)
    case _ => op
  }

  lemma RedoLikeApply(s: State, t: State, op: Op)
    requires OpOk(s, op) && OpOk(t, Norm(op)) && Apply(s, op).log != []
    requires 0 !in t.heap && s.nextId == t.nextId && s.gens == t.gens
    requires !op.Create? && !op.Bind? && !op.Unbind? ==> t.heap[op.id] == s.heap[op.id]
    requires op.Unbind? ==> FindRoot(t.roots, op.name) < |t.roots| && |op.name| < MAX_KEY
    ensures RedoOne(t, Apply(s, op).log[0].redo) == Some(Apply(t, Norm(op)).state)
  {
    hide FindRoot, FindKey, PutField, PutRoot, FreeRoot;
  }

  lemma RedoIsApply(s: State, t: State, op: Op)
    requires Wf(s) && Wf(t) && View(s, t) && OpOk(s, op) && BindOk(s, op) && KeyOk(s, op)
    requires Apply(s, op).log != []
    ensures OpOk(t, Norm(op)) && RedoOne(t, Apply(s, op).log[0].redo) == Some(Apply(t, Norm(op)).state)
  {
    hide RootMap, FindRoot, FindUnused, FindKey, Kept, RedoOne, Apply;
    if op.Unbind? {
      assert FindRoot(s.roots, op.name) < |s.roots| && |op.name| < MAX_KEY by { UnbindFound(s, op); }
      RootMapFind(s.roots, op.name);
      RootMapFind(t.roots, op.name);
    }
    RedoLikeApply(s, t, op);
  }

  lemma UnbindFound(s: State, op: Op)
    requires Wf(s) && op.Unbind? && Apply(s, op).log != []
    ensures FindRoot(s.roots, op.name) < |s.roots| && |op.name| < MAX_KEY
  {
    assert RootOk(s, s.roots[FindRoot(s.roots, op.name)]);
  }

  /** Redo keeps the rebuilt store sound. */
  lemma RedoSound(s: State, t: State, op: Op)
    requires Wf(s) && Sound(t) && View(s, t) && OpOk(s, op) && BindOk(s, op) && KeyOk(s, op)
    requires Apply(s, op).log != []
    ensures RedoOne(t, Apply(s, op).log[0].redo).Some?
    ensures Sound(RedoOne(t, Apply(s, op).log[0].redo).value)
  {
    hide Apply, RedoOne, View, Wf;
    RedoIsApply(s, t, op);
    ApplySound(t, Norm(op));
  }

  lemma {:induction false} RedoAllSplit(s: State, a: seq<Redo>, b: seq<Redo>)
    ensures RedoAll(s, a + b) ==
            if RedoAll(s, a).None? then None else RedoAll(RedoAll(s, a).value, b)
    decreases |a|
  {
    hide RedoOne;
    if a == [] {
      assert a + b == b;
    } else {
      assert (a + b)[0] == a[0] && (a + b)[1..] == a[1..] + b;
      var r := RedoOne(s, a[0]);
      if r.Some? { RedoAllSplit(r.value, a[1..], b); }
    }
  }

  /** Replaying what a run logged takes a store that looks like its start to one
      that looks like its end, with the same garbage. */
  lemma {:induction false} RedoRun(s: State, t: State, ops: seq<Op>)
    requires Wf(s) && Sound(t) && View(s, t) && RunOk(s, ops) && Loggable(s, ops)
    ensures RedoAll(t, Redos(Run(s, ops).log)).Some?
    ensures Follows(s, t, Run(s, ops).state, RedoAll(t, Redos(Run(s, ops).log)).value)
    ensures Sound(RedoAll(t, Redos(Run(s, ops).log)).value)
    decreases |ops|
  {
    hide Apply, RedoOne, Wf, View, Kept, Sound;
    if ops != [] {
      var a := Apply(s, ops[0]);
      var b := Run(a.state, ops[1..]);
      ApplyWf(s, ops[0]);
      assert Redos(a.log + b.log) == Redos(a.log) + Redos(b.log);
      RedoAllSplit(t, Redos(a.log), Redos(b.log));
      if a.log == [] {
        assert a.state == s;
        RedoRun(a.state, t, ops[1..]);
      } else {
        RedoStep(s, t, ops[0]);
        RedoSound(s, t, ops[0]);
        var ws := Redos(a.log);
        assert ws == [a.log[0].redo] && ws[1..] == [];
        RedoRun(a.state, RedoOne(t, ws[0]).value, ops[1..]);
      }
    }
  }
}
