/** The store as it is updated in place: mutators with their log records and
    index maintenance, begin, commit, abort and collection. */
module ObjectStore {
  import opened Bytes
  import opened Graph
  import opened Gc
  import opened Transactions
  import opened Replay
  import opened HashIndex
  import opened Indexes
  import opened IndexRuns
  import opened Effects
  import Ord = OrderedIndex

  // ---- searches ------------------------------------------------------------

  method SearchKey(fs: seq<Field>, key: Text) returns (i: nat)
    ensures i == FindKey(fs, key)
  {
    hide FindKey;
    i := 0;
    while i < |fs| && fs[i].key != key
      invariant i <= |fs| && forall j :: 0 <= j < i ==> fs[j].key != key
    {
      i := i + 1;
    }
    FindKeyIs(fs, key, i);
  }

  /** Overwrite the field of that key, or append one. */
  method StoreField(fs: seq<Field>, key: Text, ref: Id) returns (i: nat, r: seq<Field>)
    ensures i == FindKey(fs, key) && r == PutField(fs, key, ref) && FieldSet(fs, r, key, ref)
  {
    hide FindKey;
    i := SearchKey(fs, key);
    r := if i < |fs| then fs[i := Field(fs[i].key, ref)] else fs + [Field(Trunc(key), ref)];
  }

  method SearchRoot(rs: seq<Root>, name: Text) returns (i: nat)
    ensures i == FindRoot(rs, name)
  {
    hide FindRoot;
    i := 0;
    while i < |rs| && !(rs[i].used && rs[i].name == name)
      invariant i <= |rs| && forall j :: 0 <= j < i ==> !(rs[j].used && rs[j].name == name)
    {
      i := i + 1;
    }
    FindRootIs(rs, name, i);
  }

  method SearchUnused(rs: seq<Root>, name: Text) returns (i: nat)
    ensures i == FindUnused(rs, name)
  {
    hide FindUnused;
    i := 0;
    while i < |rs| && !(!rs[i].used && rs[i].name == name)
      invariant i <= |rs| && forall j :: 0 <= j < i ==> !(!rs[j].used && rs[j].name == name)
    {
      i := i + 1;
    }
    FindUnusedIs(rs, name, i);
  }

  lemma FindUnusedIs(rs: seq<Root>, name: Text, i: nat)
    requires i <= |rs| && (i < |rs| ==> !rs[i].used && rs[i].name == name)
    requires forall j :: 0 <= j < i ==> !(!rs[j].used && rs[j].name == name)
    ensures FindUnused(rs, name) == i
  {
  }

  /** Scan from the back for the field to drop. */
  method DropKey(fs: seq<Field>, key: Text) returns (r: seq<Field>)
    ensures r == DropLastKey(fs, key)
  {
    var i := |fs|;
    ghost var tail: seq<Field> := [];
    assert fs[..i] == fs && DropLastKey(fs, key) + [] == DropLastKey(fs, key);
    while i > 0
      invariant 0 <= i <= |fs| && tail == fs[i..] && DropLastKey(fs, key) == DropLastKey(fs[..i], key) + tail
    {
      assert fs[..i][..i - 1] == fs[..i - 1];
      if fs[i - 1].key == key {
        return fs[..i - 1] + fs[i..];
      }
      assert DropLastKey(fs[..i - 1], key) + [fs[i - 1]] + tail == DropLastKey(fs[..i - 1], key) + ([fs[i - 1]] + tail);
      tail := [fs[i - 1]] + tail;
      i := i - 1;
    }
    return fs;
  }

  // ---- derived state -------------------------------------------------------

  method RescanClasses(order: seq<Id>, s: State) returns (cs: seq<ClassList>)
    ensures cs == ScanClasses(s, order)
  {
    hide AddMember;
    cs := [];
    for i := 0 to |order|
      invariant cs == ScanClasses(s, order[..i])
    {
      assert order[..i + 1][..i] == order[..i];
      var id := order[i];
      if id in s.heap && s.heap[id].Composite? && s.heap[id].cls != [] {
        cs := AddMember(cs, s.heap[id].cls, id);
      }
    }
    assert order[..|order|] == order;
  }

  method RescanHash(s: State, field: Text, ids: seq<Id>) returns (x: Index)
    ensures x == ScanHash(s, field, ids)
  {
    hide Insert, FieldStr;
    x := EMPTY;
    for i := 0 to |ids|
      invariant x == ScanHash(s, field, ids[..i])
    {
      assert ids[..i + 1][..i] == ids[..i];
      var v := FieldStr(s, ids[i], field);
      if v.Some? { x := Insert(x, v.value, ids[i]); }
    }
    assert ids[..|ids|] == ids;
  }

  method RescanOrd(s: State, field: Text, ids: seq<Id>) returns (es: seq<Entry>)
    ensures es == ScanOrd(s, field, ids)
  {
    hide Ord.Insert, FieldStr;
    es := [];
    for i := 0 to |ids|
      invariant es == ScanOrd(s, field, ids[..i])
    {
      assert ids[..i + 1][..i] == ids[..i];
      var v := FieldStr(s, ids[i], field);
      if v.Some? { es := Ord.Insert(es, v.value, ids[i]); }
    }
    assert ids[..|ids|] == ids;
  }

  /** All derived state anew, declaration by declaration. */
  method RebuildAll(s: State, d: Derived) returns (r: Derived)
    ensures r == Rebuild(s, d)
  {
    hide ScanClasses, ScanHash, ScanOrd, Members;
    var cs := RescanClasses(s.order, s);
    var hash := d.hash;
    for i := 0 to |d.hash|
      invariant |hash| == |d.hash| && (forall j :: i <= j < |hash| ==> hash[j] == d.hash[j])
      invariant forall j :: 0 <= j < i ==> hash[j] == Rebuild(s, d).hash[j]
    {
      var x := RescanHash(s, hash[i].field, Members(cs, hash[i].cls));
      hash := hash[i := hash[i].(index := x)];
    }
    var ord := d.ord;
    for i := 0 to |d.ord|
      invariant |ord| == |d.ord| && (forall j :: i <= j < |ord| ==> ord[j] == d.ord[j])
      invariant forall j :: 0 <= j < i ==> ord[j] == Rebuild(s, d).ord[j]
    {
      var es := RescanOrd(s, ord[i].field, Members(cs, ord[i].cls));
      ord := ord[i := ord[i].(entries := es)];
    }
    assert hash == Rebuild(s, d).hash && ord == Rebuild(s, d).ord;
    return Derived(cs, hash, ord);
  }

  /** Collected survivors, in table order. */
  method SweepTable(order: seq<Id>, keep: set<Id>) returns (r: seq<Id>)
    ensures r == Kept(order, keep)
  {
    r := [];
    for i := 0 to |order|
      invariant r == Kept(order[..i], keep)
    {
      assert order[..i + 1][..i] == order[..i];
      if order[i] in keep { r := r + [order[i]]; }
    }
    assert order[..|order|] == order;
  }

  // ---- the store -----------------------------------------------------------

  /** One mutator: its effect on the graph, the indexes, the open transaction, and
      what it hands to the write-ahead log when there is none. */
  ghost predicate Applied(x: Full, j: seq<seq<Redo>>, op: Op, y: Full, k: seq<seq<Redo>>)
    requires OpOk(x.core, op)
  {
    var a := Apply(x.core, op);
    && y.core == a.state && y.derived == MutDerived(x.core, x.derived, op)
    && y.tx == (if x.tx.None? then None else Some(x.tx.value.(log := x.tx.value.log + a.log)))
    && k == if x.tx.None? && a.log != [] then j + [Redos(a.log)] else j
  }

  lemma AppliedInv(x: Full, j: seq<seq<Redo>>, op: Op, y: Full, k: seq<seq<Redo>>)
    requires Inv(x) && MutOk(x.core, x.derived, op) && Applied(x, j, op, y, k)
    ensures Inv(y)
  {
    hide Inv, MutOk, Apply, MutDerived;
    assert EventOk(x, Mutate(op)) && y == Next(x, Mutate(op));
    NextInv(x, Mutate(op));
  }

  lemma RollbackIs(x: Full)
    ensures Next(x, Event.Rollback) ==
            if x.tx.None? then x
            else
              var t := Abort(x.core, x.tx.value.log, x.tx.value.count, x.tx.value.nextId, x.tx.value.rootCount);
              Full(t, Rebuild(t, x.derived), None)
  {
    hide Abort, Rebuild, Apply, MutDerived, Collect, DeclareHash, DeclareOrd, DropHash, DropOrd;
  }

  lemma CollectionIs(x: Full)
    ensures Next(x, Event.Collection) ==
            if x.tx.Some? then x else Full(Collect(x.core), Rebuild(Collect(x.core), x.derived), None)
  {
    hide Abort, Rebuild, Apply, MutDerived, Collect, DeclareHash, DeclareOrd, DropHash, DropOrd;
  }

  class Store {
    var order: seq<Id>
    var heap: map<Id, Body>
    var nextId: Id
    var roots: seq<Root>
    const gens: set<Text>

    var derived: Derived

    var active: bool
    var log: seq<Rec>
    var beginCount: nat
    var beginNextId: Id
    var beginRoots: nat

    /** Transactions handed to the write-ahead log, oldest first. */
    var journal: seq<seq<Redo>>

    function Core(): State
      reads this
    {
      State(order, heap, nextId, roots, gens)
    }

    function Contents(): Full
      reads this
    {
      Full(Core(), derived, if active then Some(Tx(log, beginCount, beginNextId, beginRoots)) else None)
    }

    constructor (types: set<Text>)
      ensures Contents() == Full(State([], map[], 1, [], types), Derived([], [], []), None) && Inv(Contents())
      ensures journal == []
    {
      order, heap, nextId, roots, gens := [], map[], 1, [], types;
      derived := Derived([], [], []);
      active, log, beginCount, beginNextId, beginRoots := false, [], 0, 0, 0;
      journal := [];
      new;
      EmptyInv(types);
    }

    /** Log a record; outside a transaction it is committed at once. */
    method Push(r: Rec)
      modifies this`log, this`journal
      ensures active ==> log == old(log) + [r] && journal == old(journal)
      ensures !active ==> log == old(log) && journal == old(journal) + [[r.redo]]
    {
      if active { log := log + [r]; } else { journal := journal + [[r.redo]]; }
    }

    method NewObject(init: Body) returns (id: Id)
      requires OpOk(Core(), Create(init))
      modifies this
      ensures Applied(old(Contents()), old(journal), Create(init), Contents(), journal)
      ensures id == if Apply(old(Core()), Create(init)).log == [] then 0 else old(nextId)
      ensures init.VListVal? && init.gen !in gens ==>
                id == 0 && heap == old(heap) && order == old(order) && nextId == old(nextId)
      ensures !(init.VListVal? && init.gen !in gens) ==>
                id == old(nextId) && heap == old(heap)[id := init] && order == old(order) + [id] && nextId == id + 1
      ensures roots == old(roots)
    {
      hide FindKey, FindRoot, PutField, FieldDerived, ClassDerived, InsertAt, RemoveAt, Put;
      assert log + [] == log;
      if init.VListVal? && init.gen !in gens { return 0; }
      id := nextId;
      order := order + [id];
      heap := heap[id := init];
      nextId := nextId + 1;
      Push(Rec(WCreate(id, init), NoPrev));
      assert Redos([Rec(WCreate(id, init), NoPrev)]) == [WCreate(id, init)];
    }

    method AssignValue(id: Id, v: Body) returns (ok: bool)
      requires OpOk(Core(), SetValue(id, v))
      modifies this
      ensures Applied(old(Contents()), old(journal), SetValue(id, v), Contents(), journal)
      ensures ok == (Apply(old(Core()), SetValue(id, v)).log != [])
      ensures ok == ((old(heap[id]).IntVal? && v.IntVal?) || (old(heap[id]).StrVal? && v.StrVal?)
                     || (old(heap[id]).BlobVal? && v.BlobVal?))
      ensures heap == if ok then old(heap)[id := v] else old(heap)
      ensures order == old(order) && nextId == old(nextId) && roots == old(roots)
    {
      assert log + [] == log;
      if !SameKind(heap[id], v) { return false; }
      var r := Rec(WSetValue(id, v), PrevBody(heap[id]));
      heap := heap[id := v];
      Push(r);
      assert Redos([r]) == [r.redo];
      return true;
    }

    /** Index maintenance of set_field, for the one declaration concerned. */
    method MaintainField(id: Id, key: Text, ref: Id)
      requires id in heap && heap[id].Composite?
      modifies this`derived
      ensures derived == FieldDerived(Core(), old(derived), id, key, ref)
    {
      hide FindKey, FindHash, FindOrd, MoveHash, MoveOrd, FieldStr, StrOf;
      var cls, was, now := heap[id].cls, FieldStr(Core(), id, key), StrOf(Core(), ref);
      if cls == [] { return; }
      var h := FindHash(derived.hash, cls, key);
      var o := FindOrd(derived.ord, cls, key);
      if h < |derived.hash| {
        var d := derived.hash[h];
        derived := derived.(hash := derived.hash[h := d.(index := MoveHash(d.index, was, now, id))]);
      }
      if o < |derived.ord| {
        var d := derived.ord[o];
        derived := derived.(ord := derived.ord[o := d.(entries := MoveOrd(d.entries, was, now, id))]);
      }
    }

    method AssignField(id: Id, key: Text, ref: Id) returns (ok: bool)
      requires OpOk(Core(), SetField(id, key, ref))
      modifies this
      ensures Applied(old(Contents()), old(journal), SetField(id, key, ref), Contents(), journal)
      ensures ok == (Apply(old(Core()), SetField(id, key, ref)).log != [])
      ensures ok == old(heap[id].Composite?)
      ensures !ok ==> heap == old(heap)
      ensures ok ==> heap.Keys == old(heap.Keys) && heap[id].Composite? && heap[id].cls == old(heap[id].cls)
                     && FieldSet(old(heap[id].fields), heap[id].fields, key, ref)
      ensures forall k :: k in old(heap) && k != id ==> k in heap && heap[k] == old(heap)[k]
      ensures order == old(order) && nextId == old(nextId) && roots == old(roots)
    {
      hide FindKey, FieldDerived, PutField, ClassDerived, FindRoot, InsertAt, RemoveAt, Alloc, FieldSet;
      assert log + [] == log;
      if !heap[id].Composite? { return false; }
      var i, fs := StoreField(heap[id].fields, key, ref);
      var was := heap[id].fields;
      MaintainField(id, key, ref);
      var r := Rec(WSetField(id, Trunc(key), ref), PrevRef(i < |was|, if i < |was| then was[i].value else 0));
      heap := heap[id := heap[id].(fields := fs)];
      Push(r);
      assert Redos([r]) == [r.redo];
      return true;
    }

    method Append(id: Id, ref: Id) returns (ok: bool)
      requires OpOk(Core(), ListAppend(id, ref))
      modifies this
      ensures Applied(old(Contents()), old(journal), ListAppend(id, ref), Contents(), journal)
      ensures ok == (Apply(old(Core()), ListAppend(id, ref)).log != [])
      ensures ok == old(heap[id].ListVal?)
      ensures heap == if ok then old(heap)[id := ListVal(old(heap[id].items) + [ref])] else old(heap)
      ensures order == old(order) && nextId == old(nextId) && roots == old(roots)
    {
      assert log + [] == log;
      if !heap[id].ListVal? { return false; }
      heap := heap[id := ListVal(heap[id].items + [ref])];
      var r := Rec(WListAppend(id, ref), NoPrev);
      Push(r);
      assert Redos([r]) == [r.redo];
      return true;
    }

    method AssignAt(id: Id, index: nat, ref: Id) returns (ok: bool)
      requires OpOk(Core(), ListSet(id, index, ref))
      modifies this
      ensures Applied(old(Contents()), old(journal), ListSet(id, index, ref), Contents(), journal)
      ensures ok == (Apply(old(Core()), ListSet(id, index, ref)).log != [])
      ensures ok == old(heap[id].ListVal? && index < |heap[id].items|)
      ensures heap == if ok then old(heap)[id := ListVal(old(heap[id].items)[index := ref])] else old(heap)
      ensures order == old(order) && nextId == old(nextId) && roots == old(roots)
    {
      assert log + [] == log;
      if !heap[id].ListVal? || index >= |heap[id].items| { return false; }
      var r := Rec(WListSet(id, index, ref), PrevRef(true, heap[id].items[index]));
      heap := heap[id := ListVal(heap[id].items[index := ref])];
      Push(r);
      assert Redos([r]) == [r.redo];
      return true;
    }

    method InsertItem(id: Id, index: nat, ref: Id) returns (ok: bool)
      requires OpOk(Core(), ListInsert(id, index, ref))
      modifies this
      ensures Applied(old(Contents()), old(journal), ListInsert(id, index, ref), Contents(), journal)
      ensures ok == (Apply(old(Core()), ListInsert(id, index, ref)).log != [])
      ensures ok == old(heap[id].ListVal? && index <= |heap[id].items|)
      ensures heap == if ok then old(heap)[id := ListVal(old(heap[id].items[..index] + [ref] + heap[id].items[index..]))]
                      else old(heap)
      ensures order == old(order) && nextId == old(nextId) && roots == old(roots)
    {
      assert log + [] == log;
      if !heap[id].ListVal? || index > |heap[id].items| { return false; }
      heap := heap[id := ListVal(heap[id].items[..index] + [ref] + heap[id].items[index..])];
      var r := Rec(WListInsert(id, index, ref), NoPrev);
      Push(r);
      assert Redos([r]) == [r.redo];
      return true;
    }

    method RemoveItem(id: Id, index: nat) returns (ok: bool)
      requires OpOk(Core(), ListRemove(id, index))
      modifies this
      ensures Applied(old(Contents()), old(journal), ListRemove(id, index), Contents(), journal)
      ensures ok == (Apply(old(Core()), ListRemove(id, index)).log != [])
      ensures ok == old(heap[id].ListVal? && index < |heap[id].items|)
      ensures heap == if ok then old(heap)[id := ListVal(old(heap[id].items[..index] + heap[id].items[index + 1..]))]
                      else old(heap)
      ensures order == old(order) && nextId == old(nextId) && roots == old(roots)
    {
      assert log + [] == log;
      if !heap[id].ListVal? || index >= |heap[id].items| { return false; }
      var r := Rec(WListRemove(id, index), PrevRef(true, heap[id].items[index]));
      heap := heap[id := ListVal(heap[id].items[..index] + heap[id].items[index + 1..])];
      Push(r);
      assert Redos([r]) == [r.redo];
      return true;
    }

    method BindRoot(name: Text, ref: Id)
      requires OpOk(Core(), Bind(name, ref))
      modifies this
      ensures Applied(old(Contents()), old(journal), Bind(name, ref), Contents(), journal)
      ensures RootSet(old(roots), roots, name, ref)
      ensures heap == old(heap) && order == old(order) && nextId == old(nextId)
    {
      hide FindRoot, FindKey, PutField, FieldDerived, ClassDerived, InsertAt, RemoveAt, Alloc, Put;
      var i := SearchRoot(roots, name);
      var r := Rec(WBind(Trunc(name), ref), PrevRef(i < |roots|, if i < |roots| then roots[i].obj else 0));
      if i < |roots| {
        roots := roots[i := roots[i].(obj := ref)];
      } else {
        roots := roots + [Root(Trunc(name), ref, true)];
      }
      Push(r);
      assert Redos([r]) == [r.redo];
      assert i < |old(roots)| ==> FirstUsed(old(roots), name, i);
    }

    method UnbindRoot(name: Text) returns (ok: bool)
      modifies this
      ensures Applied(old(Contents()), old(journal), Unbind(name), Contents(), journal)
      ensures ok == (Apply(old(Core()), Unbind(name)).log != [])
      ensures ok == Bound(old(roots), name) && RootFreed(old(roots), roots, name)
      ensures heap == old(heap) && order == old(order) && nextId == old(nextId)
    {
      hide FindRoot, FindKey, PutField, FieldDerived, ClassDerived, InsertAt, RemoveAt, Alloc, Put;
      assert log + [] == log;
      var i := SearchRoot(roots, name);
      if i == |roots| { return false; }
      var r := Rec(WUnbind(Trunc(name)), PrevRef(true, roots[i].obj));
      roots := roots[i := roots[i].(obj := 0, used := false)];
      Push(r);
      assert Redos([r]) == [r.redo];
      assert FirstUsed(old(roots), name, i);
      return true;
    }

    /** Into the indexes and list of the new class, out of those of the old. */
    method MaintainClass(id: Id, cls: Text)
      requires id in heap && heap[id].Composite?
      modifies this`derived
      ensures derived == ClassDerived(Core(), old(derived), id, cls)
    {
      hide FieldStr, MoveHash, MoveOrd, AddMember, DropMember, ClassHash, ClassOrd;
      var was, d := heap[id].cls, derived;
      var hash := d.hash;
      for i := 0 to |hash|
        invariant |hash| == |d.hash|
        invariant forall j :: 0 <= j < |hash| ==> hash[j] == if j < i then ClassHash(d.hash[j], Core(), id, was, cls) else d.hash[j]
      {
        hash := hash[i := ClassHash(hash[i], Core(), id, was, cls)];
      }
      var ord := d.ord;
      for i := 0 to |ord|
        invariant |ord| == |d.ord|
        invariant forall j :: 0 <= j < |ord| ==> ord[j] == if j < i then ClassOrd(d.ord[j], Core(), id, was, cls) else d.ord[j]
      {
        ord := ord[i := ClassOrd(ord[i], Core(), id, was, cls)];
      }
      var classes := d.classes;
      if was != [] { classes := DropMember(classes, was, id); }
      if cls != [] { classes := AddMember(classes, cls, id); }
      derived := Derived(classes, hash, ord);
      assert derived.hash == ClassDerived(Core(), d, id, cls).hash;
      assert derived.ord == ClassDerived(Core(), d, id, cls).ord;
    }

    method Retag(id: Id, cls: Text) returns (ok: bool)
      requires OpOk(Core(), SetClass(id, cls))
      modifies this
      ensures Applied(old(Contents()), old(journal), SetClass(id, cls), Contents(), journal)
      ensures ok == old(heap[id].Composite?)
      ensures heap == if ok then old(heap)[id := Composite(cls, old(heap[id].fields))] else old(heap)
      ensures order == old(order) && nextId == old(nextId) && roots == old(roots)
    {
      hide ClassDerived, FieldDerived, FindKey, FindRoot, PutField, InsertAt, RemoveAt, Alloc;
      assert log + [] == log;
      if !heap[id].Composite? { return false; }
      if heap[id].cls == cls { return true; }
      var r := Rec(WSetClass(id, cls), PrevClass(heap[id].cls));
      MaintainClass(id, cls);
      heap := heap[id := heap[id].(cls := cls)];
      Push(r);
      assert Redos([r]) == [r.redo];
      return true;
    }

    // ---- transactions ------------------------------------------------------

    method Begin() returns (ok: bool)
      modifies this
      ensures ok == !old(active) && Contents() == Next(old(Contents()), Event.Begin) && journal == old(journal)
      ensures active && Core() == old(Core()) && derived == old(derived) && (ok ==> log == [])
      ensures ok ==> beginCount == |order| && beginNextId == nextId && beginRoots == |roots|
    {
      hide Apply, MutDerived, Rebuild, Collect, Abort, DeclareHash, DeclareOrd, DropHash, DropOrd;
      if active { return false; }
      active, log, beginCount, beginNextId, beginRoots := true, [], |order|, nextId, |roots|;
      return true;
    }

    /** The log records of the transaction go to the write-ahead log. */
    method Commit() returns (ok: bool)
      modifies this
      ensures ok == old(active) && Contents() == Next(old(Contents()), Event.Commit)
      ensures !active && Core() == old(Core()) && derived == old(derived)
      ensures journal == if ok then old(journal) + [Redos(old(log))] else old(journal)
    {
      hide Apply, MutDerived, Rebuild, Collect, Abort, DeclareHash, DeclareOrd, DropHash, DropOrd, Redos;
      if !active { return false; }
      journal := journal + [Redos(log)];
      active, log := false, [];
      return true;
    }

    method UndoRootRecord(r: Rec)
      requires r.redo.WBind? || r.redo.WUnbind?
      modifies this`roots
      ensures Core() == UndoOne(old(Core()), r)
    {
      hide FindRoot, FindUnused;
      if !r.prev.PrevRef? { return; }
      if r.redo.WBind? {
        var i := SearchRoot(roots, r.redo.name);
        if i < |roots| {
          roots := roots[i := if r.prev.had then roots[i].(obj := r.prev.ref) else roots[i].(obj := 0, used := false)];
        }
      } else {
        var i := SearchUnused(roots, r.redo.name);
        if i < |roots| { roots := roots[i := roots[i].(obj := r.prev.ref, used := true)]; }
      }
    }

    method UndoFieldRecord(r: Rec)
      requires r.redo.WSetField?
      modifies this`heap
      ensures Core() == UndoOne(old(Core()), r)
    {
      hide FindKey, DropLastKey;
      var id := r.redo.id;
      if !r.prev.PrevRef? || id !in heap || !heap[id].Composite? { return; }
      var fs := heap[id].fields;
      if r.prev.had {
        var i := SearchKey(fs, r.redo.key);
        if i < |fs| { fs := fs[i := Field(fs[i].key, r.prev.ref)]; }
      } else {
        fs := DropKey(fs, r.redo.key);
      }
      heap := heap[id := heap[id].(fields := fs)];
    }

    method UndoBodyRecord(r: Rec)
      requires !r.redo.WBind? && !r.redo.WUnbind? && !r.redo.WSetField?
      modifies this`heap
      ensures Core() == UndoOne(old(Core()), r)
    {
      hide FindKey, FindRoot, FindUnused, DropLastKey, FreeRoot, ReviveRoot;
      match (r.redo, r.prev)
      case (WSetValue(id, _), PrevBody(b)) =>
        if id in heap && SameKind(heap[id], b) { heap := heap[id := b]; }
      case (WListAppend(id, _), _) =>
        if id in heap && heap[id].ListVal? && |heap[id].items| > 0 {
          heap := heap[id := ListVal(heap[id].items[..|heap[id].items| - 1])];
        }
      case (WListSet(id, i, _), PrevRef(_, ref)) =>
        if id in heap && heap[id].ListVal? && i < |heap[id].items| {
          heap := heap[id := ListVal(heap[id].items[i := ref])];
        }
      case (WListInsert(id, i, _), _) =>
        if id in heap && heap[id].ListVal? && i < |heap[id].items| {
          heap := heap[id := ListVal(RemoveAt(heap[id].items, i))];
        }
      case (WListRemove(id, i), PrevRef(_, ref)) =>
        if id in heap && heap[id].ListVal? && i <= |heap[id].items| {
          heap := heap[id := ListVal(InsertAt(heap[id].items, i, ref))];
        }
      case (WSetClass(id, _), PrevClass(cls)) =>
        if id in heap && heap[id].Composite? { heap := heap[id := heap[id].(cls := cls)]; }
      case _ =>
    }

    /** Undo one record. */
    method ApplyUndo(r: Rec)
      modifies this`heap, this`roots
      ensures Core() == UndoOne(old(Core()), r)
    {
      hide UndoOne;
      if r.redo.WBind? || r.redo.WUnbind? { UndoRootRecord(r); }
      else if r.redo.WSetField? { UndoFieldRecord(r); }
      else { UndoBodyRecord(r); }
    }

    method UndoRecords()
      modifies this`heap, this`roots
      ensures Core() == UndoAll(old(Core()), log)
    {
      hide UndoOne;
      var i := |log|;
      assert log[..i] == log;
      while i > 0
        invariant 0 <= i <= |log| && UndoAll(Core(), log[..i]) == UndoAll(old(Core()), log)
      {
        assert log[..i][..i - 1] == log[..i - 1];
        ApplyUndo(log[i - 1]);
        i := i - 1;
      }
    }

    method DropUnusedRoots()
      modifies this`roots
      ensures roots == ShrinkRoots(old(roots), beginRoots)
    {
      while |roots| > beginRoots && !roots[|roots| - 1].used
        invariant ShrinkRoots(roots, beginRoots) == ShrinkRoots(old(roots), beginRoots)
        decreases |roots|
      {
        roots := roots[..|roots| - 1];
      }
    }

    /** Undo in reverse, then rewind to the marks of begin. */
    method Restore()
      modifies this`order, this`heap, this`nextId, this`roots
      ensures Core() == Abort(old(Core()), log, beginCount, beginNextId, beginRoots)
    {
      hide UndoAll, ShrinkRoots;
      ghost var back := Abort(Core(), log, beginCount, beginNextId, beginRoots);
      UndoRecords();
      if beginCount < |order| { order := order[..beginCount]; }
      heap := map id | id in order && id in heap :: heap[id];
      nextId := beginNextId;
      DropUnusedRoots();
      assert order == back.order;
      assert heap == back.heap;
    }

    /** Back to the store at begin, and rebuild what is derived. */
    method Rollback() returns (ok: bool)
      modifies this
      ensures ok == old(active) && Contents() == Next(old(Contents()), Event.Rollback) && journal == old(journal)
    {
      hide Rebuild, Abort, Next;
      RollbackIs(Contents());
      if !active { return false; }
      Restore();
      derived := RebuildAll(Core(), derived);
      active, log := false, [];
      return true;
    }

    /** Sweep the table down to what is marked. */
    method Sweeping(marked: set<Id>)
      modifies this`order, this`heap
      ensures Core() == Sweep(old(Core()), marked)
    {
      hide Kept;
      order := SweepTable(order, marked);
      heap := map id | id in heap && id in marked :: heap[id];
    }

    /** Mark from the used roots, sweep, and rebuild what is derived. */
    /** Outside a transaction: an object survives, unchanged, exactly if a chain of
        references from a used root reaches it. */
    method Collection()
      requires Wf(Core())
      modifies this
      ensures Contents() == Next(old(Contents()), Event.Collection) && journal == old(journal)
      ensures !old(active) ==> forall id :: id in heap <==> id in old(heap) && Reaches(old(Core()), id)
      ensures !old(active) ==> forall id :: id in heap ==> heap[id] == old(heap)[id]
      ensures !old(active) ==> order == Kept(old(order), Reached(old(Core())))
    {
      hide Rebuild, Wf, Kept, Next, Reaches;
      CollectionIs(Contents());
      if active { return; }
      var marked := Mark(Core());
      Sweeping(marked);
      derived := RebuildAll(Core(), derived);
    }

    // ---- declarations ------------------------------------------------------

    method DeclareHashIndex(cls: Text, field: Text) returns (ok: bool)
      modifies this`derived
      ensures ok == DeclOk(cls, field) && derived == DeclareHash(Core(), old(derived), cls, field)
    {
      hide FindHash, ScanHash, Members;
      if !DeclOk(cls, field) { return false; }
      if FindHash(derived.hash, cls, field) < |derived.hash| { return true; }
      var x := RescanHash(Core(), field, Members(derived.classes, cls));
      derived := derived.(hash := derived.hash + [HashDecl(cls, field, x)]);
      return true;
    }

    method DeclareOrdIndex(cls: Text, field: Text) returns (ok: bool)
      modifies this`derived
      ensures ok == DeclOk(cls, field) && derived == DeclareOrd(Core(), old(derived), cls, field)
    {
      hide FindOrd, ScanOrd, Members;
      if !DeclOk(cls, field) { return false; }
      if FindOrd(derived.ord, cls, field) < |derived.ord| { return true; }
      var es := RescanOrd(Core(), field, Members(derived.classes, cls));
      derived := derived.(ord := derived.ord + [OrdDecl(cls, field, es)]);
      return true;
    }

    /** The last declaration takes the place of the dropped one. */
    method DropHashIndex(cls: Text, field: Text) returns (ok: bool)
      modifies this`derived
      ensures ok == (FindHash(old(derived).hash, cls, field) < |old(derived).hash|)
      ensures derived == DropHash(old(derived), cls, field)
    {
      hide FindHash;
      var hs := derived.hash;
      var i := FindHash(hs, cls, field);
      if i == |hs| { return false; }
      derived := derived.(hash := hs[i := hs[|hs| - 1]][..|hs| - 1]);
      return true;
    }

    method DropOrdIndex(cls: Text, field: Text) returns (ok: bool)
      modifies this`derived
      ensures ok == (FindOrd(old(derived).ord, cls, field) < |old(derived).ord|)
      ensures derived == DropOrd(old(derived), cls, field)
    {
      hide FindOrd;
      var os := derived.ord;
      var i := FindOrd(os, cls, field);
      if i == |os| { return false; }
      derived := derived.(ord := os[i := os[|os| - 1]][..|os| - 1]);
      return true;
    }
  }
}
