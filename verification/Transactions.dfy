/** Transactions over the object graph: running a body, undoing it in reverse,
    and the bulk rewind of abort. */
module Transactions {
  import opened Bytes
  import opened Graph

  ghost predicate RunOk(s: State, ops: seq<Op>)
    decreases |ops|
  {
    ops == [] ||
    (OpOk(s, ops[0]) && BindOk(s, ops[0]) && RunOk(Apply(s, ops[0]).state, ops[1..]))
  }

  /** Perform the mutators in turn, concatenating what they log. */
  ghost function Run(s: State, ops: seq<Op>): Step
    requires RunOk(s, ops)
    decreases |ops|
  {
    if ops == [] then Step(s, [])
    else
      var a := Apply(s, ops[0]);
      var b := Run(a.state, ops[1..]);
      Step(b.state, a.log + b.log)
  }

  // ---- well-formedness is kept --------------------------------------------

  lemma PutWf(s: State, id: Id, b: Body)
    requires Wf(s) && id in s.heap && BodyOk(s, b)
    ensures Wf(Put(s, id, b))
  {
    hide RootMap, FindRoot, FindUnused, FindKey;
    var t := Put(s, id, b);
    assert t.heap.Keys == s.heap.Keys;
    forall k | k in t.heap ensures BodyOk(t, t.heap[k]) {
      assert BodyOk(s, t.heap[k]);
    }
  }

  lemma AllocWf(s: State, b: Body)
    requires Wf(s) && BodyOk(s, b)
    ensures Wf(Alloc(s, s.nextId, b))
  {
    hide RootMap, FindRoot, FindUnused, FindKey;
    var t := Alloc(s, s.nextId, b);
    assert s.nextId !in s.heap;
    assert t.heap.Keys == s.heap.Keys + {s.nextId};
    forall k | k in t.heap ensures BodyOk(t, t.heap[k]) {
      assert BodyOk(s, t.heap[k]);
    }
  }

  lemma FieldRefs(fs: seq<Field>, key: Text, ref: Id)
    ensures Refs(Composite([], PutField(fs, key, ref))) <= Refs(Composite([], fs)) + {ref}
  {
  }

  lemma RootsWf(s: State, rs: seq<Root>)
    requires Wf(s) && UsedDistinct(rs)
    requires forall i :: 0 <= i < |rs| ==> RootOk(s, rs[i])
    ensures Wf(s.(roots := rs))
  {
    hide RootMap, FindRoot, FindUnused, FindKey;
    var t := s.(roots := rs);
    forall k | k in t.heap ensures BodyOk(t, t.heap[k]) {
      assert BodyOk(s, s.heap[k]);
    }
  }

  lemma BindDistinct(s: State, op: Op)
    requires Wf(s) && op.Bind? && BindOk(s, op)
    ensures UsedDistinct(PutRoot(s.roots, op.name, op.ref))
    ensures RootMap(PutRoot(s.roots, op.name, op.ref)) == RootMap(s.roots)[Trunc(op.name) := op.ref]
  {
    hide RootMap, FindRoot, FindUnused, FindKey;
    var i := FindRoot(s.roots, op.name);
    if i < |s.roots| {
      RebindMap(s.roots, op.name, op.ref);
    } else {
      AppendRootMap(s.roots, Trunc(op.name), op.ref);
    }
  }

  lemma ListWf(s: State, op: Op)
    requires Wf(s) && OpOk(s, op) && (op.ListAppend? || op.ListSet? || op.ListInsert? || op.ListRemove?)
    requires Apply(s, op).log != []
    ensures BodyOk(s, Apply(s, op).state.heap[op.id])
    ensures Apply(s, op).state == Put(s, op.id, Apply(s, op).state.heap[op.id])
  {
    hide FindRoot, FindUnused, FindKey, RootsOk, UsedDistinct;
    assert BodyOk(s, s.heap[op.id]);
    var items := s.heap[op.id].items;
    match op
    case ListAppend(_, ref) => assert forall k :: 0 <= k < |items| ==> items[k] in Refs(s.heap[op.id]);
    case ListSet(_, i, ref) => assert forall k :: 0 <= k < |items| ==> items[k] in Refs(s.heap[op.id]);
    case ListInsert(_, i, ref) => InsertRefs(items, i, ref);
    case ListRemove(_, i) => RemoveRefs(items, i);
  }

  lemma FieldWf(s: State, op: Op)
    requires Wf(s) && OpOk(s, op) && op.SetField? && s.heap[op.id].Composite?
    ensures BodyOk(s, s.heap[op.id].(fields := PutField(s.heap[op.id].fields, op.key, op.ref)))
  {
    hide FindRoot, FindUnused, FindKey, RootsOk, UsedDistinct;
    assert BodyOk(s, s.heap[op.id]);
    FieldRefs(s.heap[op.id].fields, op.key, op.ref);
  }

  lemma ApplyWf(s: State, op: Op)
    requires Wf(s) && OpOk(s, op) && BindOk(s, op)
    ensures Wf(Apply(s, op).state)
    ensures s.heap.Keys <= Apply(s, op).state.heap.Keys
  {
    hide FindRoot, FindUnused, FindKey, Wf, PutField, PutRoot, FreeRoot;
    if Apply(s, op).log != [] {
      match op
      case Create(init) => AllocWf(s, init);
      case SetValue(id, v) => PutWf(s, id, v);
      case SetField(id, key, ref) =>
        FieldWf(s, op);
        PutWf(s, id, s.heap[id].(fields := PutField(s.heap[id].fields, key, ref)));
      case Bind(name, ref) => BindWf(s, op);
      case Unbind(name) => UnbindWf(s, op);
      case SetClass(id, cls) =>
        BodyInside(s, id);
        PutWf(s, id, s.heap[id].(cls := cls));
      case _ =>
        ListWf(s, op);
        PutWf(s, op.id, Apply(s, op).state.heap[op.id]);
    }
  }

  lemma BodyInside(s: State, id: Id)
    requires Wf(s) && id in s.heap
    ensures BodyOk(s, s.heap[id])
  {
  }

  lemma BindWf(s: State, op: Op)
    requires Wf(s) && OpOk(s, op) && BindOk(s, op) && op.Bind?
    ensures Wf(s.(roots := PutRoot(s.roots, op.name, op.ref)))
  {
    hide RootMap, FindRoot, FindUnused, FindKey;
    BindDistinct(s, op);
    RootsWf(s, PutRoot(s.roots, op.name, op.ref));
  }

  lemma UnbindWf(s: State, op: Op)
    requires Wf(s) && op.Unbind?
    ensures Wf(s.(roots := FreeRoot(s.roots, op.name)))
  {
    hide RootMap, FindRoot, FindUnused, FindKey;
    FreeRootMap(s.roots, op.name);
    RootsWf(s, FreeRoot(s.roots, op.name));
  }

  lemma InsertRefs(items: seq<Id>, i: nat, ref: Id)
    requires i <= |items|
    ensures Refs(ListVal(InsertAt(items, i, ref))) <= Refs(ListVal(items)) + {ref}
  {
    var t := InsertAt(items, i, ref);
    forall k | 0 <= k < |t| ensures t[k] in Refs(ListVal(items)) + {ref} {
      if k < i { assert t[k] == items[k]; } else if k > i { assert t[k] == items[k - 1]; }
    }
  }

  lemma RemoveRefs(items: seq<Id>, i: nat)
    requires i < |items|
    ensures Refs(ListVal(RemoveAt(items, i))) <= Refs(ListVal(items))
  {
    var t := RemoveAt(items, i);
    forall k | 0 <= k < |t| ensures t[k] in Refs(ListVal(items)) {
      if k < i { assert t[k] == items[k]; } else { assert t[k] == items[k + 1]; }
    }
  }

  lemma {:induction false} RunWf(s: State, ops: seq<Op>)
    requires Wf(s) && RunOk(s, ops)
    ensures Wf(Run(s, ops).state)
    decreases |ops|
  {
    hide Apply, Wf;
    hide RootMap, FindRoot, FindUnused, FindKey;
    if ops != [] {
      ApplyWf(s, ops[0]);
      RunWf(Apply(s, ops[0]).state, ops[1..]);
    }
  }

  lemma PutFieldDistinct(b: Body, key: Text, ref: Id)
    requires b.Composite? && KeysDistinct(b)
    requires |key| < MAX_KEY || FindKey(b.fields, Trunc(key)) == |b.fields|
    ensures KeysDistinct(b.(fields := PutField(b.fields, key, ref)))
  {
  }

  /** Field keys stay distinct as long as truncation does not make two collide. */
  lemma ApplySound(s: State, op: Op)
    requires Sound(s) && OpOk(s, op) && BindOk(s, op) && KeyOk(s, op)
    ensures Sound(Apply(s, op).state)
  {
    hide RootMap, FindRoot, FindUnused, FindKey, Wf, PutField, PutRoot, FreeRoot;
    ApplyWf(s, op);
    if op.SetField? && s.heap[op.id].Composite? {
      PutFieldDistinct(s.heap[op.id], op.key, op.ref);
    }
  }

  // ---- abort ---------------------------------------------------------------

  function UndoAll(s: State, log: seq<Rec>): State
    decreases |log|
  {
    if log == [] then s else UndoAll(UndoOne(s, log[|log| - 1]), log[..|log| - 1])
  }

  /** Drop trailing unused slots, but none that existed at begin. */
  function ShrinkRoots(rs: seq<Root>, keep: nat): seq<Root> {
    if |rs| > keep && !rs[|rs| - 1].used then ShrinkRoots(rs[..|rs| - 1], keep) else rs
  }

  /** Reverse undo, then the bulk rewind to the marks taken at begin. */
  function Abort(s: State, log: seq<Rec>, count: nat, nextId: Id, rootCount: nat): State {
    var t := UndoAll(s, log);
    var kept := if count <= |t.order| then t.order[..count] else t.order;
    t.(order := kept, heap := map id | id in kept && id in t.heap :: t.heap[id],
       nextId := nextId, roots := ShrinkRoots(t.roots, rootCount))
  }

  /** `t` is `s` plus objects created later and unused root slots: same objects
      at the front of the table, same root map, every name at a slot no later. */
  ghost predicate Extends(t: State, s: State) {
    && s.order <= t.order && t.gens == s.gens
    && (forall id :: id in s.heap ==> id in t.heap && t.heap[id] == s.heap[id])
    && RootsExtend(t.roots, s.roots)
  }

  ghost predicate RootsExtend(t: seq<Root>, s: seq<Root>) {
    UsedDistinct(t) && RootMap(t) == RootMap(s) && SlotsExtend(t, s)
  }

  ghost predicate SlotsExtend(t: seq<Root>, s: seq<Root>) {
    && |s| <= |t|
    && (forall i :: 0 <= i < |s| ==> t[i].name == s[i].name)
    && (forall i :: 0 <= i < |t| && !t[i].used ==> t[i].obj == 0)
    && (forall i, j :: 0 <= i < |s| && 0 <= j < |t| && s[i].used && t[j].used && s[i].name == t[j].name
                       ==> j <= i)
  }

  lemma DropLastAppended(fs: seq<Field>, f: Field)
    ensures DropLastKey(fs + [f], f.key) == fs
  {
    assert (fs + [f])[..|fs|] == fs;
  }

  lemma KeyStays(fs: seq<Field>, key: Text, ref: Id)
    requires FindKey(fs, key) < |fs|
    ensures FindKey(PutField(fs, key, ref), key) == FindKey(fs, key)
  {
  }

  lemma UndoPutField(fs: seq<Field>, key: Text, ref: Id)
    requires forall i :: 0 <= i < |fs| ==> |fs[i].key| < MAX_KEY
    ensures var i := FindKey(fs, key);
            var fs' := PutField(fs, key, ref);
            if i < |fs| then FindKey(fs', Trunc(key)) == i < |fs'| && fs'[i := Field(fs'[i].key, fs[i].value)] == fs
            else DropLastKey(fs', Trunc(key)) == fs
  {
    var i := FindKey(fs, key);
    if i < |fs| {
      KeyStays(fs, key, ref);
    } else {
      DropLastAppended(fs, Field(Trunc(key), ref));
    }
  }

  lemma UndoSetField(s: State, id: Id, key: Text, ref: Id, t: State)
    requires id in s.heap && s.heap[id].Composite? && BodyOk(s, s.heap[id])
    requires id in t.heap && t.heap[id] == s.heap[id].(fields := PutField(s.heap[id].fields, key, ref))
    ensures var fs := s.heap[id].fields;
            var i := FindKey(fs, key);
            UndoOne(t, Rec(WSetField(id, Trunc(key), ref),
                           PrevRef(i < |fs|, if i < |fs| then fs[i].value else 0))) == Put(t, id, s.heap[id])
  {
    hide FindKey, DropLastKey, PutField, FindRoot;
    UndoPutField(s.heap[id].fields, key, ref);
  }

  lemma UndoListOp(s: State, op: Op, t: State)
    requires OpOk(s, op) && (op.ListAppend? || op.ListSet? || op.ListInsert? || op.ListRemove?)
    requires Apply(s, op).log != []
    requires op.id in t.heap && t.heap[op.id] == Apply(s, op).state.heap[op.id]
    ensures UndoOne(t, Apply(s, op).log[0]) == Put(t, op.id, s.heap[op.id])
  {
    hide RootMap, FindRoot, FindUnused, FindKey, RefOk, PutField, PutRoot, FreeRoot, ReviveRoot, DropLastKey;
    var items := s.heap[op.id].items;
    match op
    case ListAppend(_, ref) => assert (items + [ref])[..|items|] == items;
    case ListSet(_, i, ref) => assert items[i := ref][i := items[i]] == items;
    case ListInsert(_, i, ref) => assert RemoveAt(InsertAt(items, i, ref), i) == items;
    case ListRemove(_, i) => assert InsertAt(RemoveAt(items, i), i, items[i]) == items;
  }

  lemma RebindSlots(rs: seq<Root>, k: nat, ref: Id, t: seq<Root>, i: nat, back: Id)
    requires k < |rs| && rs[k].used && i < |t| && t[i].used
    requires SlotsExtend(t, rs[k := rs[k].(obj := ref)])
    ensures SlotsExtend(t[i := t[i].(obj := back)], rs)
  {
    hide RootMap, FindRoot, FindUnused, FindKey;
    var rs' := rs[k := rs[k].(obj := ref)];
    assert forall j :: 0 <= j < |rs| ==> rs'[j].name == rs[j].name && rs'[j].used == rs[j].used;
  }

  lemma UndoRebind(rs: seq<Root>, name: Text, ref: Id, t: seq<Root>)
    requires UsedDistinct(rs) && FindRoot(rs, name) < |rs|
    requires RootsExtend(t, PutRoot(rs, name, ref))
    ensures var i := FindRoot(t, name);
            i < |t| && RootsExtend(t[i := t[i].(obj := rs[FindRoot(rs, name)].obj)], rs)
  {
    hide RootMap, FindRoot, FindUnused, FindKey;
    var k := FindRoot(rs, name);
    var back := rs[k].obj;
    RebindMap(rs, name, ref);
    RootMapFind(t, name);
    RootMapFind(rs, name);
    RebindMap(t, name, back);
    assert RootMap(rs)[name := ref][name := back] == RootMap(rs);
    RebindSlots(rs, k, ref, t, FindRoot(t, name), back);
  }

  lemma UndoFreshBind(rs: seq<Root>, name: Text, ref: Id, t: seq<Root>)
    requires UsedDistinct(rs) && FindRoot(rs, name) == |rs|
    requires RootsExtend(t, rs + [Root(name, ref, true)])
    ensures RootsExtend(FreeRoot(t, name), rs)
  {
    hide RootMap, FindRoot, FindUnused, FindKey;
    AppendRootMap(rs, name, ref);
    FreeRootMap(t, name);
    RootMapFind(rs, name);
    assert RootMap(rs)[name := ref] - {name} == RootMap(rs);
    assert forall i :: 0 <= i < |rs| ==> (rs + [Root(name, ref, true)])[i] == rs[i];
  }

  lemma ReviveSlots(rs: seq<Root>, k: nat, t: seq<Root>, ref: Id)
    requires k < |rs| && rs[k].used && k < |t| && !t[k].used && t[k].name == rs[k].name
    requires SlotsExtend(t, rs[k := rs[k].(obj := 0, used := false)])
    requires FindRoot(t, rs[k].name) == |t|
    ensures SlotsExtend(ReviveRoot(t, rs[k].name, ref), rs)
  {
    hide RootMap, FindRoot, FindUnused;
    var rs' := rs[k := rs[k].(obj := 0, used := false)];
    assert forall j :: 0 <= j < |rs| ==> rs'[j].name == rs[j].name && (j != k ==> rs'[j] == rs[j]);
  }

  lemma UndoUnbind(rs: seq<Root>, name: Text, t: seq<Root>)
    requires UsedDistinct(rs) && FindRoot(rs, name) < |rs|
    requires RootsExtend(t, FreeRoot(rs, name))
    ensures RootsExtend(ReviveRoot(t, name, rs[FindRoot(rs, name)].obj), rs)
  {
    hide RootMap, FindRoot, FindUnused, FindKey;
    var k := FindRoot(rs, name);
    var ref := rs[k].obj;
    FreeRootMap(rs, name);
    RootMapFind(t, name);
    RootMapFind(rs, name);
    assert FreeRoot(rs, name)[k].name == name;
    assert t[k].name == name && !t[k].used;
    ReviveRootMap(t, name, ref);
    assert (RootMap(rs) - {name})[name := ref] == RootMap(rs);
    ReviveSlots(rs, k, t, ref);
  }

  /** Giving back the body of one object of `s`. */
  lemma ExtendsPut(t: State, s: State, id: Id, b: Body)
    requires id in s.heap && Extends(t, Put(s, id, b))
    ensures Extends(Put(t, id, s.heap[id]), s)
  {
    hide RootMap, FindRoot, FindUnused, FindKey;
  }

  /** A name found among the roots is one that fits. */
  lemma BoundName(s: State, op: Op)
    requires Wf(s) && op.Bind?
    ensures UsedDistinct(s.roots)
    ensures FindRoot(s.roots, op.name) < |s.roots| ==> Trunc(op.name) == op.name
    ensures BindOk(s, op) && FindRoot(s.roots, op.name) == |s.roots| ==> FindRoot(s.roots, Trunc(op.name)) == |s.roots|
  {
    hide FindRoot;
    assert forall i :: 0 <= i < |s.roots| ==> |s.roots[i].name| < MAX_KEY;
  }

  lemma UndoBindStep(s: State, op: Op, t: State)
    requires Wf(s) && OpOk(s, op) && BindOk(s, op) && op.Bind? && Extends(t, Apply(s, op).state)
    ensures Extends(UndoOne(t, Apply(s, op).log[0]), s)
  {
    hide RootMap, FindRoot, FindUnused, FindKey, BodyOk, Refs, DropLastKey, InsertAt, RemoveAt, RootsExtend;
    BoundName(s, op);
    if FindRoot(s.roots, op.name) < |s.roots| {
      UndoRebind(s.roots, op.name, op.ref, t.roots);
    } else {
      UndoFreshBind(s.roots, Trunc(op.name), op.ref, t.roots);
    }
  }

  lemma UndoUnbindStep(s: State, op: Op, t: State)
    requires Wf(s) && op.Unbind? && Apply(s, op).log != [] && Extends(t, Apply(s, op).state)
    ensures Extends(UndoOne(t, Apply(s, op).log[0]), s)
  {
    hide RootMap, FindRoot, FindUnused, FindKey;
    var k := FindRoot(s.roots, op.name);
    assert RootOk(s, s.roots[k]);
    UndoUnbind(s.roots, op.name, t.roots);
  }

  lemma UndoCreateStep(s: State, op: Op, t: State)
    requires Wf(s) && OpOk(s, op) && op.Create? && Apply(s, op).log != [] && Extends(t, Apply(s, op).state)
    ensures Extends(UndoOne(t, Apply(s, op).log[0]), s)
  {
    hide RootMap, FindRoot, FindUnused, FindKey;
    assert s.nextId !in s.heap;
  }

  lemma UndoBodyStep(s: State, op: Op, t: State)
    requires Wf(s) && OpOk(s, op) && !op.Bind? && !op.Unbind? && !op.Create?
    requires Apply(s, op).log != [] && Extends(t, Apply(s, op).state)
    ensures Extends(UndoOne(t, Apply(s, op).log[0]), s)
  {
    hide RootMap, FindRoot, FindUnused, FindKey, RootsOk, BodyOk, RootsExtend, PutField, DropLastKey, InsertAt, RemoveAt,
         PutRoot, FreeRoot, ReviveRoot;
    var a := Apply(s, op);
    var id := op.id;
    assert a.state == Put(s, id, a.state.heap[id]);
    assert UndoOne(t, a.log[0]) == Put(t, id, s.heap[id]) by {
      if op.SetField? {
        BodyInside(s, id);
        UndoSetField(s, id, op.key, op.ref, t);
      } else if !op.SetValue? && !op.SetClass? {
        UndoListOp(s, op, t);
      }
    }
    ExtendsPut(t, s, id, a.state.heap[id]);
  }

  /** One step back: undoing a record takes any extension of the state after the
      mutator to an extension of the state before it. */
  lemma UndoStep(s: State, op: Op, t: State)
    requires Wf(s) && OpOk(s, op) && BindOk(s, op) && Extends(t, Apply(s, op).state)
    ensures Extends(UndoAll(t, Apply(s, op).log), s)
  {
    hide RootMap, FindRoot, FindUnused, FindKey;
    var a := Apply(s, op);
    if a.log != [] {
      UndoAllOne(t, a.log);
      if op.Create? {
        UndoCreateStep(s, op, t);
      } else if op.Bind? {
        UndoBindStep(s, op, t);
      } else if op.Unbind? {
        UndoUnbindStep(s, op, t);
      } else {
        UndoBodyStep(s, op, t);
      }
    }
  }

  lemma UndoAllOne(t: State, log: seq<Rec>)
    requires |log| == 1
    ensures UndoAll(t, log) == UndoOne(t, log[0])
  {
    assert log[..0] == [];
  }

  lemma {:induction false} UndoAllSplit(t: State, a: seq<Rec>, b: seq<Rec>)
    ensures UndoAll(t, a + b) == UndoAll(UndoAll(t, b), a)
    decreases |b|
  {
    if b == [] {
      assert a + b == a;
    } else {
      var ab, n := a + b, |b| - 1;
      assert ab[|ab| - 1] == b[n] && ab[..|ab| - 1] == a + b[..n];
      UndoAllSplit(UndoOne(t, b[n]), a, b[..n]);
    }
  }

  lemma {:induction false} UndoRun(s: State, ops: seq<Op>, t: State)
    requires Wf(s) && RunOk(s, ops) && Extends(t, Run(s, ops).state)
    ensures Extends(UndoAll(t, Run(s, ops).log), s)
    decreases |ops|
  {
    hide Apply, Wf, UndoOne, Extends;
    hide RootMap, FindRoot, FindUnused, FindKey;
    if ops != [] {
      var a := Apply(s, ops[0]);
      var b := Run(a.state, ops[1..]);
      ApplyWf(s, ops[0]);
      UndoRun(a.state, ops[1..], t);
      UndoStep(s, ops[0], UndoAll(t, b.log));
      UndoAllSplit(t, a.log, b.log);
    }
  }

  lemma {:induction false} ShrinkToMark(t: seq<Root>, keep: nat)
    requires keep <= |t| && forall i :: keep <= i < |t| ==> !t[i].used
    ensures ShrinkRoots(t, keep) == t[..keep]
    decreases |t|
  {
    if |t| > keep {
      ShrinkToMark(t[..|t| - 1], keep);
      assert t[..|t| - 1][..keep] == t[..keep];
    }
  }

  lemma {:induction false} UnusedTail(t: seq<Root>, keep: nat)
    requires keep <= |t| && forall i :: keep <= i < |t| ==> !t[i].used
    ensures RootMap(t[..keep]) == RootMap(t)
    decreases |t|
  {
    RootMapOf(t);
    forall n: Text
      ensures FindRoot(t[..keep], n) < keep <==> FindRoot(t, n) < |t|
      ensures FindRoot(t, n) < |t| ==> FindRoot(t[..keep], n) == FindRoot(t, n)
    {
      var k := FindRoot(t, n);
      if k < |t| { FindRootIs(t[..keep], n, k); } else { FindRootIs(t[..keep], n, keep); }
    }
    RootMapExt(t[..keep], RootMap(t));
  }

  lemma RootsRestored(t: seq<Root>, s: seq<Root>)
    requires RootsExtend(t, s)
    ensures |ShrinkRoots(t, |s|)| == |s|
    ensures forall i :: 0 <= i < |s| ==> ShrinkRoots(t, |s|)[i].name == s[i].name
    ensures RootMap(ShrinkRoots(t, |s|)) == RootMap(s) && UsedDistinct(ShrinkRoots(t, |s|))
    ensures forall i :: 0 <= i < |s| && !ShrinkRoots(t, |s|)[i].used ==> ShrinkRoots(t, |s|)[i].obj == 0
  {
    hide RootMap, FindRoot, FindUnused, FindKey;
    forall i | |s| <= i < |t| ensures !t[i].used {
      if t[i].used {
        FindRootIs(t, t[i].name, i);
        RootMapFind(t, t[i].name); RootMapFind(s, t[i].name);
      }
    }
    ShrinkToMark(t, |s|);
    UnusedTail(t, |s|);
  }

  lemma RewindRestores(u: State, s: State)
    requires Wf(s) && Extends(u, s)
    ensures u.order[..|s.order|] == s.order
    ensures (map id | id in s.order && id in u.heap :: u.heap[id]) == s.heap
  {
  }

  /** Abort is the identity: whatever the body did, the objects, their order,
      field and list order, class tags, next id and root map are those at begin,
      with the same named slots, and nothing refers to a freed object. */
  lemma AbortIdentity(s: State, ops: seq<Op>)
    requires Wf(s) && RunOk(s, ops)
    ensures var r := Run(s, ops);
            var t := Abort(r.state, r.log, |s.order|, s.nextId, |s.roots|);
            SameStore(t, s) && Wf(t)
  {
    hide RootMap, FindRoot, FindUnused, FindKey;
    var r := Run(s, ops);
    RunWf(s, ops);
    ExtendsSelf(r.state);
    UndoRun(s, ops, r.state);
    var u := UndoAll(r.state, r.log);
    RewindRestores(u, s);
    RootsRestored(u.roots, s.roots);
    SurvivorsOk(s, Abort(r.state, r.log, |s.order|, s.nextId, |s.roots|));
  }

  /** Equal stores, except that a name may sit in another slot of that name. */
  ghost predicate SameStore(t: State, s: State) {
    && t.order == s.order && t.heap == s.heap && t.nextId == s.nextId && t.gens == s.gens
    && RootMap(t.roots) == RootMap(s.roots) && |t.roots| == |s.roots|
    && (forall i :: 0 <= i < |s.roots| ==> t.roots[i].name == s.roots[i].name)
  }

  lemma ExtendsSelf(s: State)
    requires Wf(s)
    ensures Extends(s, s)
  {
  }

  /** Nothing that survives refers to a freed object. */
  lemma SurvivorsOk(s: State, t: State)
    requires Wf(s) && SameStore(t, s) && UsedDistinct(t.roots)
    requires forall i :: 0 <= i < |t.roots| && !t.roots[i].used ==> t.roots[i].obj == 0
    ensures Wf(t)
  {
    hide RootMap, FindRoot, FindUnused, FindKey;
    forall i | 0 <= i < |t.roots| ensures RootOk(t, t.roots[i]) {
      assert RootOk(s, s.roots[i]);
      if t.roots[i].used {
        FindRootIs(t.roots, t.roots[i].name, i);
        RootMapFind(t.roots, t.roots[i].name); RootMapFind(s.roots, t.roots[i].name);
        assert RootOk(s, s.roots[FindRoot(s.roots, t.roots[i].name)]);
      }
    }
    forall k | k in t.heap ensures BodyOk(t, t.heap[k]) {
      assert BodyOk(s, s.heap[k]);
    }
  }

  // ---- names that do not fit -----------------------------------------------

  /** A name of 64 bytes or more that collides, once truncated, with a root in
      use: abort frees the old slot instead of the new one and cannot shrink. */
  lemma CollidingBind(s: State, op: Op)
    requires Wf(s) && OpOk(s, op) && op.Bind? && !BindOk(s, op)
    ensures var r := Apply(s, op);
            |Abort(r.state, r.log, |s.order|, s.nextId, |s.roots|).roots| == |s.roots| + 1
  {
    hide RootMap, FindRoot, FindUnused, FindKey;
    var rs, name := s.roots, Trunc(op.name);
    assert forall i :: 0 <= i < |rs| ==> |rs[i].name| < MAX_KEY;
    var r := Apply(s, op);
    var rs' := rs + [Root(name, op.ref, true)];
    FindRootIs(rs', name, FindRoot(rs, name));
    UndoAllOne(r.state, r.log);
    assert UndoAll(r.state, r.log).roots == FreeRoot(rs', name);
  }

  lemma RunOne(s: State, op: Op)
    requires OpOk(s, op) && BindOk(s, op)
    ensures RunOk(s, [op]) && Run(s, [op]) == Apply(s, op)
  {
    hide Apply, OpOk, BindOk;
    assert [op][1..] == [];
    assert Apply(s, op).log + [] == Apply(s, op).log;
  }

  /** Undoing a bind restores the store exactly when the name fits, or does not
      collide once truncated. */
  lemma AbortBindExact(s: State, op: Op)
    requires Wf(s) && OpOk(s, op) && op.Bind?
    ensures var r := Apply(s, op);
            SameStore(Abort(r.state, r.log, |s.order|, s.nextId, |s.roots|), s) <==> BindOk(s, op)
  {
    hide Apply, Wf, OpOk, BindOk, Abort, RootMap;
    if BindOk(s, op) {
      RunOne(s, op);
      AbortIdentity(s, [op]);
    } else {
      CollidingBind(s, op);
    }
  }

  /** A root "a…a" of 63 bytes and a bind of 64 of them. */
  lemma CollisionExists()
    ensures var n := seq(63, _ => 97 as byte);
            var s := State([1], map[1 := IntVal(0)], 2, [Root(n, 1, true)], {});
            var op := Bind(n + [97], 1);
            Wf(s) && OpOk(s, op) && !BindOk(s, op)
  {
    var n := seq(63, _ => 97 as byte);
    assert (n + [97])[..63] == n;
  }
}
