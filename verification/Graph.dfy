/** The object graph: typed objects, named roots and class tags, with the public
    mutators (live effect), their log records (redo) and the undo of each record. */
module Graph {
  import opened Bytes

  type Text = seq<byte>

  /** Object ids; 0 stands for the null reference. */
  type Id = nat

  /** Capacity of a field key or root name, terminator included. */
  const MAX_KEY := 64

  datatype Field = Field(key: Text, value: Id)

  datatype Body =
    | Composite(cls: Text, fields: seq<Field>) // an empty class name means untagged
    | IntVal(i: i64)
    | StrVal(s: Text)
    | ListVal(items: seq<Id>)
    | VListVal(gen: Text, params: Id)
    | BlobVal(b: seq<byte>)

  /** A root slot; slots are appended and marked unused, never renamed. */
  datatype Root = Root(name: Text, obj: Id, used: bool)

  /** `order` is the object table, `heap` the objects it points to, `gens` the
      process-wide registry of virtual list generators. */
  datatype State = State(order: seq<Id>, heap: map<Id, Body>, nextId: Id,
                         roots: seq<Root>, gens: set<Text>)

  datatype Op =
    | Create(init: Body)
    | SetValue(id: Id, v: Body)
    | SetField(id: Id, key: Text, ref: Id)
    | ListAppend(id: Id, ref: Id)
    | ListSet(id: Id, index: nat, ref: Id)
    | ListInsert(id: Id, index: nat, ref: Id)
    | ListRemove(id: Id, index: nat)
    | Bind(name: Text, ref: Id)
    | Unbind(name: Text)
    | SetClass(id: Id, cls: Text)

  /** The part of a transaction record that reaches the write-ahead log. */
  datatype Redo =
    | WCreate(id: Id, init: Body)
    | WSetValue(id: Id, v: Body)
    | WSetField(id: Id, key: Text, ref: Id)
    | WListAppend(id: Id, ref: Id)
    | WListSet(id: Id, index: nat, ref: Id)
    | WListInsert(id: Id, index: nat, ref: Id)
    | WListRemove(id: Id, index: nat)
    | WBind(name: Text, ref: Id)
    | WUnbind(name: Text)
    | WSetClass(id: Id, cls: Text)

  /** What a record keeps for abort. */
  datatype Prev = NoPrev | PrevBody(body: Body) | PrevRef(had: bool, ref: Id) | PrevClass(cls: Text)

  datatype Rec = Rec(redo: Redo, prev: Prev)

  /** State after a mutator and the records it logged: none when it refuses or
      changes nothing, one otherwise. */
  datatype Step = Step(state: State, log: seq<Rec>)

  // ---- searches ------------------------------------------------------------

  function Trunc(key: Text): (r: Text)
    ensures |r| < MAX_KEY
    ensures |key| < MAX_KEY ==> r == key
  {
    if |key| < MAX_KEY then key else key[..MAX_KEY - 1]
  }

  /** First field with this key, or the number of fields. */
  function FindKey(fs: seq<Field>, key: Text): (i: nat)
    ensures i <= |fs|
    ensures i < |fs| ==> fs[i].key == key
    ensures forall j :: 0 <= j < i ==> fs[j].key != key
  {
    if fs == [] || fs[0].key == key then 0 else 1 + FindKey(fs[1..], key)
  }

  /** First used root with this name, or the number of slots. */
  function FindRoot(rs: seq<Root>, name: Text): (i: nat)
    ensures i <= |rs|
    ensures i < |rs| ==> rs[i].used && rs[i].name == name
    ensures forall j :: 0 <= j < i ==> !(rs[j].used && rs[j].name == name)
  {
    if rs == [] || (rs[0].used && rs[0].name == name) then 0 else 1 + FindRoot(rs[1..], name)
  }

  /** First unused root with this name, or the number of slots. */
  function FindUnused(rs: seq<Root>, name: Text): (i: nat)
    ensures i <= |rs|
    ensures i < |rs| ==> !rs[i].used && rs[i].name == name
    ensures forall j :: 0 <= j < i ==> !(!rs[j].used && rs[j].name == name)
  {
    if rs == [] || (!rs[0].used && rs[0].name == name) then 0 else 1 + FindUnused(rs[1..], name)
  }

  function PutField(fs: seq<Field>, key: Text, ref: Id): seq<Field> {
    var i := FindKey(fs, key);
    if i < |fs| then fs[i := Field(fs[i].key, ref)] else fs + [Field(Trunc(key), ref)]
  }

  /** Drop the last field with this key, keeping the others in order. */
  function DropLastKey(fs: seq<Field>, key: Text): seq<Field> {
    if fs == [] then fs
    else if fs[|fs| - 1].key == key then fs[..|fs| - 1]
    else DropLastKey(fs[..|fs| - 1], key) + [fs[|fs| - 1]]
  }

  function PutRoot(rs: seq<Root>, name: Text, ref: Id): seq<Root> {
    var i := FindRoot(rs, name);
    if i < |rs| then rs[i := rs[i].(obj := ref)] else rs + [Root(Trunc(name), ref, true)]
  }

  function FreeRoot(rs: seq<Root>, name: Text): seq<Root> {
    var i := FindRoot(rs, name);
    if i < |rs| then rs[i := rs[i].(obj := 0, used := false)] else rs
  }

  function ReviveRoot(rs: seq<Root>, name: Text, ref: Id): seq<Root> {
    var i := FindUnused(rs, name);
    if i < |rs| then rs[i := rs[i].(obj := ref, used := true)] else rs
  }

  function InsertAt(items: seq<Id>, i: nat, ref: Id): seq<Id>
    requires i <= |items|
  {
    items[..i] + [ref] + items[i..]
  }

  function RemoveAt(items: seq<Id>, i: nat): seq<Id>
    requires i < |items|
  {
    items[..i] + items[i + 1..]
  }

  // ---- live mutators -------------------------------------------------------

  predicate IsPrim(b: Body) { b.IntVal? || b.StrVal? || b.BlobVal? }

  predicate SameKind(a: Body, b: Body) {
    (a.IntVal? && b.IntVal?) || (a.StrVal? && b.StrVal?) || (a.BlobVal? && b.BlobVal?)
  }

  /** The bodies that the creating functions install. */
  predicate IsInit(b: Body) {
    IsPrim(b) || b == Composite([], []) || b == ListVal([]) || b.VListVal?
  }

  predicate RefOk(s: State, r: Id) { r == 0 || r in s.heap }

  /** What the C signatures demand of a caller: pointers into this store. */
  predicate OpOk(s: State, op: Op) {
    match op
    case Create(init) => IsInit(init) && (init.VListVal? ==> RefOk(s, init.params))
    case SetValue(id, v) => id in s.heap && IsPrim(v)
    case SetField(id, _, ref) => id in s.heap && RefOk(s, ref)
    case ListAppend(id, ref) => id in s.heap && RefOk(s, ref)
    case ListSet(id, _, ref) => id in s.heap && RefOk(s, ref)
    case ListInsert(id, _, ref) => id in s.heap && RefOk(s, ref)
    case ListRemove(id, _) => id in s.heap
    case Bind(_, ref) => RefOk(s, ref)
    case Unbind(_) => true
    case SetClass(id, _) => id in s.heap
  }

  function Put(s: State, id: Id, b: Body): State {
    s.(heap := s.heap[id := b])
  }

  function Alloc(s: State, id: Id, b: Body): State {
    s.(order := s.order + [id], heap := s.heap[id := b],
       nextId := if id >= s.nextId then id + 1 else s.nextId)
  }

  function Apply(s: State, op: Op): (r: Step)
    requires OpOk(s, op)
    ensures |r.log| <= 1 && (r.log == [] ==> r.state == s)
  {
    match op
    case Create(init) =>
      if init.VListVal? && init.gen !in s.gens then Step(s, [])
      else Step(Alloc(s, s.nextId, init), [Rec(WCreate(s.nextId, init), NoPrev)])
    case SetValue(id, v) =>
      if !SameKind(s.heap[id], v) then Step(s, [])
      else Step(Put(s, id, v), [Rec(WSetValue(id, v), PrevBody(s.heap[id]))])
    case SetField(id, key, ref) =>
      if !s.heap[id].Composite? then Step(s, [])
      else
        var fs := s.heap[id].fields;
        var i := FindKey(fs, key);
        Step(Put(s, id, s.heap[id].(fields := PutField(fs, key, ref))),
             [Rec(WSetField(id, Trunc(key), ref),
                  PrevRef(i < |fs|, if i < |fs| then fs[i].value else 0))])
    case ListAppend(id, ref) =>
      if !s.heap[id].ListVal? then Step(s, [])
      else Step(Put(s, id, ListVal(s.heap[id].items + [ref])), [Rec(WListAppend(id, ref), NoPrev)])
    case ListSet(id, i, ref) =>
      if !(s.heap[id].ListVal? && i < |s.heap[id].items|) then Step(s, [])
      else Step(Put(s, id, ListVal(s.heap[id].items[i := ref])),
                [Rec(WListSet(id, i, ref), PrevRef(true, s.heap[id].items[i]))])
    case ListInsert(id, i, ref) =>
      if !(s.heap[id].ListVal? && i <= |s.heap[id].items|) then Step(s, [])
      else Step(Put(s, id, ListVal(InsertAt(s.heap[id].items, i, ref))),
                [Rec(WListInsert(id, i, ref), NoPrev)])
    case ListRemove(id, i) =>
      if !(s.heap[id].ListVal? && i < |s.heap[id].items|) then Step(s, [])
      else Step(Put(s, id, ListVal(RemoveAt(s.heap[id].items, i))),
                [Rec(WListRemove(id, i), PrevRef(true, s.heap[id].items[i]))])
    case Bind(name, ref) =>
      var i := FindRoot(s.roots, name);
      Step(s.(roots := PutRoot(s.roots, name, ref)),
           [Rec(WBind(Trunc(name), ref),
                PrevRef(i < |s.roots|, if i < |s.roots| then s.roots[i].obj else 0))])
    case Unbind(name) =>
      var i := FindRoot(s.roots, name);
      if i == |s.roots| then Step(s, [])
      else Step(s.(roots := FreeRoot(s.roots, name)),
                [Rec(WUnbind(Trunc(name)), PrevRef(true, s.roots[i].obj))])
    case SetClass(id, cls) =>
      if !s.heap[id].Composite? || s.heap[id].cls == cls then Step(s, [])
      else Step(Put(s, id, s.heap[id].(cls := cls)), [Rec(WSetClass(id, cls), PrevClass(s.heap[id].cls))])
  }

  // ---- redo (replay of one log record) -------------------------------------

  /** Id-map lookup: unknown ids resolve to the null reference. */
  function Resolve(s: State, r: Id): Id { if r in s.heap then r else 0 }

  /** None when replay gives up: an unregistered virtual list generator. */
  function RedoOne(s: State, r: Redo): Option<State> {
    match r
    case WCreate(id, init) =>
      if init.VListVal? then
        if init.gen in s.gens then Some(Alloc(s, id, init.(params := Resolve(s, init.params)))) else None
      else Some(Alloc(s, id, init))
    case WSetValue(id, v) =>
      Some(if id in s.heap && SameKind(s.heap[id], v) then Put(s, id, v) else s)
    case WSetField(id, key, ref) =>
      Some(if id in s.heap && s.heap[id].Composite?
           then Put(s, id, s.heap[id].(fields := PutField(s.heap[id].fields, key, Resolve(s, ref))))
           else s)
    case WListAppend(id, ref) =>
      Some(if id in s.heap && s.heap[id].ListVal?
           then Put(s, id, ListVal(s.heap[id].items + [Resolve(s, ref)])) else s)
    case WListSet(id, i, ref) =>
      Some(if id in s.heap && s.heap[id].ListVal? && i < |s.heap[id].items|
           then Put(s, id, ListVal(s.heap[id].items[i := Resolve(s, ref)])) else s)
    case WListInsert(id, i, ref) =>
      Some(if id in s.heap && s.heap[id].ListVal? && i <= |s.heap[id].items|
           then Put(s, id, ListVal(InsertAt(s.heap[id].items, i, Resolve(s, ref)))) else s)
    case WListRemove(id, i) =>
      Some(if id in s.heap && s.heap[id].ListVal? && i < |s.heap[id].items|
           then Put(s, id, ListVal(RemoveAt(s.heap[id].items, i))) else s)
    case WBind(name, ref) => Some(s.(roots := PutRoot(s.roots, name, Resolve(s, ref))))
    case WUnbind(name) => Some(s.(roots := FreeRoot(s.roots, name)))
    case WSetClass(id, cls) =>
      Some(if id in s.heap && s.heap[id].Composite? then Put(s, id, s.heap[id].(cls := cls)) else s)
  }

  // ---- undo (abort of one log record) --------------------------------------

  function UndoOne(s: State, r: Rec): State {
    match (r.redo, r.prev)
    case (WSetValue(id, _), PrevBody(b)) =>
      if id in s.heap && SameKind(s.heap[id], b) then Put(s, id, b) else s
    case (WSetField(id, key, _), PrevRef(had, ref)) =>
      if !(id in s.heap && s.heap[id].Composite?) then s
      else
        var fs := s.heap[id].fields;
        var i := FindKey(fs, key);
        Put(s, id, s.heap[id].(fields :=
          if had then (if i < |fs| then fs[i := Field(fs[i].key, ref)] else fs)
          else DropLastKey(fs, key)))
    case (WListAppend(id, _), _) =>
      if id in s.heap && s.heap[id].ListVal? && |s.heap[id].items| > 0
      then Put(s, id, ListVal(s.heap[id].items[..|s.heap[id].items| - 1])) else s
    case (WListSet(id, i, _), PrevRef(_, ref)) =>
      if id in s.heap && s.heap[id].ListVal? && i < |s.heap[id].items|
      then Put(s, id, ListVal(s.heap[id].items[i := ref])) else s
    case (WListInsert(id, i, _), _) =>
      if id in s.heap && s.heap[id].ListVal? && i < |s.heap[id].items|
      then Put(s, id, ListVal(RemoveAt(s.heap[id].items, i))) else s
    case (WListRemove(id, i), PrevRef(_, ref)) =>
      if id in s.heap && s.heap[id].ListVal? && i <= |s.heap[id].items|
      then Put(s, id, ListVal(InsertAt(s.heap[id].items, i, ref))) else s
    case (WBind(name, _), PrevRef(had, ref)) =>
      if had then
        var i := FindRoot(s.roots, name);
        if i < |s.roots| then s.(roots := s.roots[i := s.roots[i].(obj := ref)]) else s
      else s.(roots := FreeRoot(s.roots, name))
    case (WUnbind(name), PrevRef(_, ref)) => s.(roots := ReviveRoot(s.roots, name, ref))
    case (WSetClass(id, _), PrevClass(cls)) =>
      if id in s.heap && s.heap[id].Composite? then Put(s, id, s.heap[id].(cls := cls)) else s
    case _ => s // creations are undone by the bulk rewind
  }

  // ---- the root map --------------------------------------------------------

  ghost predicate UsedDistinct(rs: seq<Root>) {
    forall i, j :: 0 <= i < j < |rs| && rs[i].used && rs[j].used ==> rs[i].name != rs[j].name
  }

  /** Name to object, as find_root sees it: the first used slot wins. */
  function RootMap(rs: seq<Root>): map<Text, Id> {
    if rs == [] then map[]
    else
      var m := RootMap(rs[1..]);
      if rs[0].used then m[rs[0].name := rs[0].obj] else m
  }

  lemma {:induction false} RootMapFind(rs: seq<Root>, name: Text)
    ensures name in RootMap(rs) <==> FindRoot(rs, name) < |rs|
    ensures name in RootMap(rs) ==> RootMap(rs)[name] == rs[FindRoot(rs, name)].obj
  {
    if rs != [] {
      RootMapFind(rs[1..], name);
    }
  }

  /** Two slot arrays in which every name finds the same object have the same map. */
  lemma RootMapExt(a: seq<Root>, m: map<Text, Id>)
    requires forall n: Text :: n in m <==> FindRoot(a, n) < |a|
    requires forall n: Text :: n in m ==> FindRoot(a, n) < |a| && a[FindRoot(a, n)].obj == m[n]
    ensures RootMap(a) == m
  {
    hide RootMap, FindRoot;
    forall n: Text
      ensures n in RootMap(a) <==> n in m
      ensures n in m ==> RootMap(a)[n] == m[n]
    {
      RootMapFind(a, n);
    }
  }

  lemma RootMapOf(rs: seq<Root>)
    ensures forall n: Text :: n in RootMap(rs) <==> FindRoot(rs, n) < |rs|
    ensures forall n: Text :: n in RootMap(rs) ==> RootMap(rs)[n] == rs[FindRoot(rs, n)].obj
  {
    hide RootMap, FindRoot;
    forall n: Text
      ensures n in RootMap(rs) <==> FindRoot(rs, n) < |rs|
      ensures n in RootMap(rs) ==> RootMap(rs)[n] == rs[FindRoot(rs, n)].obj
    {
      RootMapFind(rs, n);
    }
  }

  /** FindRoot is determined by being a first match. */
  lemma FindRootIs(rs: seq<Root>, n: Text, i: nat)
    requires i <= |rs|
    requires i < |rs| ==> rs[i].used && rs[i].name == n
    requires forall j :: 0 <= j < i ==> !(rs[j].used && rs[j].name == n)
    ensures FindRoot(rs, n) == i
  {
  }

  lemma RebindFind(rs: seq<Root>, i: nat, ref: Id, n: Text)
    requires i < |rs|
    ensures FindRoot(rs[i := rs[i].(obj := ref)], n) == FindRoot(rs, n)
  {
    FindRootIs(rs[i := rs[i].(obj := ref)], n, FindRoot(rs, n));
  }

  lemma RebindMap(rs: seq<Root>, name: Text, ref: Id)
    requires UsedDistinct(rs) && FindRoot(rs, name) < |rs|
    ensures var i := FindRoot(rs, name);
            var rs' := rs[i := rs[i].(obj := ref)];
            UsedDistinct(rs') && RootMap(rs') == RootMap(rs)[name := ref]
  {
    hide RootMap, FindRoot, FindUnused;
    var i := FindRoot(rs, name);
    var rs' := rs[i := rs[i].(obj := ref)];
    RootMapOf(rs);
    forall n: Text ensures FindRoot(rs', n) == FindRoot(rs, n) {
      RebindFind(rs, i, ref, n);
    }
    RootMapExt(rs', RootMap(rs)[name := ref]);
  }

  lemma AppendFind(rs: seq<Root>, r: Root, n: Text)
    ensures FindRoot(rs + [r], n) ==
            if FindRoot(rs, n) < |rs| || (r.used && r.name == n) then FindRoot(rs, n) else |rs| + 1
  {
    FindRootIs(rs + [r], n,
               if FindRoot(rs, n) < |rs| || (r.used && r.name == n) then FindRoot(rs, n) else |rs| + 1);
  }

  lemma AppendRootMap(rs: seq<Root>, name: Text, ref: Id)
    requires UsedDistinct(rs) && FindRoot(rs, name) == |rs|
    ensures var rs' := rs + [Root(name, ref, true)];
            UsedDistinct(rs') && RootMap(rs') == RootMap(rs)[name := ref]
  {
    hide RootMap, FindRoot, FindUnused;
    var r := Root(name, ref, true);
    RootMapOf(rs);
    forall n: Text
      ensures FindRoot(rs + [r], n) < |rs| + 1 <==> n == name || FindRoot(rs, n) < |rs|
      ensures FindRoot(rs + [r], n) < |rs| + 1 ==> FindRoot(rs + [r], n) == FindRoot(rs, n)
    {
      AppendFind(rs, r, n);
    }
    RootMapExt(rs + [r], RootMap(rs)[name := ref]);
  }

  lemma FreeFind(rs: seq<Root>, name: Text, n: Text)
    requires UsedDistinct(rs)
    ensures FindRoot(FreeRoot(rs, name), n) == if n == name then |rs| else FindRoot(rs, n)
  {
    FindRootIs(FreeRoot(rs, name), n, if n == name then |rs| else FindRoot(rs, n));
  }

  lemma FreeRootMap(rs: seq<Root>, name: Text)
    requires UsedDistinct(rs)
    ensures UsedDistinct(FreeRoot(rs, name))
    ensures RootMap(FreeRoot(rs, name)) == RootMap(rs) - {name}
  {
    hide RootMap, FindRoot, FindUnused;
    var rs' := FreeRoot(rs, name);
    RootMapOf(rs);
    forall n: Text
      ensures FindRoot(rs', n) == if n == name then |rs| else FindRoot(rs, n)
    {
      FreeFind(rs, name, n);
    }
    RootMapExt(rs', RootMap(rs) - {name});
  }

  lemma ReviveFind(rs: seq<Root>, name: Text, ref: Id, n: Text)
    requires UsedDistinct(rs) && FindRoot(rs, name) == |rs| && FindUnused(rs, name) < |rs|
    ensures FindRoot(ReviveRoot(rs, name, ref), n) ==
            if n == name then FindUnused(rs, name) else FindRoot(rs, n)
  {
    FindRootIs(ReviveRoot(rs, name, ref), n, if n == name then FindUnused(rs, name) else FindRoot(rs, n));
  }

  lemma ReviveRootMap(rs: seq<Root>, name: Text, ref: Id)
    requires UsedDistinct(rs) && FindRoot(rs, name) == |rs| && FindUnused(rs, name) < |rs|
    ensures UsedDistinct(ReviveRoot(rs, name, ref))
    ensures RootMap(ReviveRoot(rs, name, ref)) == RootMap(rs)[name := ref]
  {
    hide RootMap, FindRoot, FindUnused;
    var rs' := ReviveRoot(rs, name, ref);
    RootMapOf(rs);
    forall n: Text
      ensures FindRoot(rs', n) == if n == name then FindUnused(rs, name) else FindRoot(rs, n)
    {
      ReviveFind(rs, name, ref, n);
    }
    RootMapExt(rs', RootMap(rs)[name := ref]);
  }

  // ---- well-formed states --------------------------------------------------

  function Refs(b: Body): set<Id> {
    match b
    case Composite(_, fs) => set i | 0 <= i < |fs| :: fs[i].value
    case ListVal(items) => set i | 0 <= i < |items| :: items[i]
    case VListVal(_, p) => {p}
    case _ => {}
  }

  ghost predicate NoDup<T>(s: seq<T>) {
    forall i, j :: 0 <= i < j < |s| ==> s[i] != s[j]
  }

  /** Reachable shape of a store: the table lists each object once, every
      reference and root is null or points into the table. */
  ghost predicate Wf(s: State) {
    && NoDup(s.order)
    && (forall id :: id in s.order <==> id in s.heap)
    && 0 < s.nextId
    && (forall id :: id in s.heap ==> 0 < id < s.nextId)
    && (forall id :: id in s.heap ==> BodyOk(s, s.heap[id]))
    && RootsOk(s)
  }

  ghost predicate BodyOk(s: State, b: Body) {
    && (forall r :: r in Refs(b) ==> RefOk(s, r))
    && (b.VListVal? ==> b.gen in s.gens)
    && (b.Composite? ==> forall i :: 0 <= i < |b.fields| ==> |b.fields[i].key| < MAX_KEY)
  }

  ghost predicate RootsOk(s: State) {
    && UsedDistinct(s.roots)
    && (forall i :: 0 <= i < |s.roots| ==> RootOk(s, s.roots[i]))
  }

  predicate RootOk(s: State, r: Root) {
    RefOk(s, r.obj) && |r.name| < MAX_KEY && (!r.used ==> r.obj == 0)
  }

  /** No two fields of an object share a key. */
  ghost predicate KeysDistinct(b: Body) {
    b.Composite? ==> forall i, j :: 0 <= i < j < |b.fields| ==> b.fields[i].key != b.fields[j].key
  }

  ghost predicate Sound(s: State) {
    Wf(s) && forall id :: id in s.heap ==> KeysDistinct(s.heap[id])
  }

  /** A name that fits is bound to itself; a longer one must not collide, once
      truncated, with a root in use. */
  predicate BindOk(s: State, op: Op) {
    op.Bind? ==> |op.name| < MAX_KEY || FindRoot(s.roots, Trunc(op.name)) == |s.roots|
  }

  /** Null, or a longer key must not collide, once truncated, with a field. */
  predicate KeyOk(s: State, op: Op) {
    op.SetField? && op.id in s.heap && s.heap[op.id].Composite? ==>
      |op.key| < MAX_KEY || FindKey(s.heap[op.id].fields, Trunc(op.key)) == |s.heap[op.id].fields|
  }
}
