/** What each mutator and each replayed record does to the store, written out as
    relations between the store before and after. */
module Effects {
  import opened Bytes
  import opened Graph

  /** The name as its buffer of 64 bytes holds it. */
  function Held(t: Text): Text { if |t| < 64 then t else t[..63] }

  /** The field of a key gets the reference: the first of that key if there is one,
      otherwise a new last field under the key as it is held. */
  predicate FieldSet(was: seq<Field>, now: seq<Field>, key: Text, ref: Id) {
    if exists i :: 0 <= i < |was| && was[i].key == key
    then exists i :: 0 <= i < |was| && was[i].key == key && (forall j :: 0 <= j < i ==> was[j].key != key)
                     && now == was[i := Field(key, ref)]
    else now == was + [Field(Held(key), ref)]
  }

  predicate FirstUsed(rs: seq<Root>, name: Text, i: nat) {
    i < |rs| && rs[i].used && rs[i].name == name && forall j :: 0 <= j < i ==> !(rs[j].used && rs[j].name == name)
  }

  predicate Bound(rs: seq<Root>, name: Text) {
    exists i :: 0 <= i < |rs| && rs[i].used && rs[i].name == name
  }

  /** The root of a name gets the reference: the slot in use if there is one, otherwise
      a new last slot under the name as it is held. */
  predicate RootSet(was: seq<Root>, now: seq<Root>, name: Text, ref: Id) {
    if Bound(was, name)
    then exists i :: 0 <= i < |was| && FirstUsed(was, name, i) && now == was[i := Root(name, ref, true)]
    else now == was + [Root(Held(name), ref, true)]
  }

  /** The root of a name is freed, if it is bound. */
  predicate RootFreed(was: seq<Root>, now: seq<Root>, name: Text) {
    if Bound(was, name)
    then exists i :: 0 <= i < |was| && FirstUsed(was, name, i) && now == was[i := Root(name, 0, false)]
    else now == was
  }

  predicate ScalarsAlike(a: Body, b: Body) {
    (a.IntVal? && b.IntVal?) || (a.StrVal? && b.StrVal?) || (a.BlobVal? && b.BlobVal?)
  }

  /** One object has a new body and nothing else differs. */
  predicate Became(s: State, t: State, id: Id, b: Body) {
    t == State(s.order, s.heap[id := b], s.nextId, s.roots, s.gens)
  }

  ghost predicate FieldEffect(s: State, t: State, id: Id, key: Text, ref: Id)
    requires id in s.heap && s.heap[id].Composite?
  {
    exists fs :: FieldSet(s.heap[id].fields, fs, key, ref) && Became(s, t, id, Composite(s.heap[id].cls, fs))
  }

  // ---- mutators ------------------------------------------------------------

  ghost predicate Effect(s: State, op: Op, t: State)
    requires OpOk(s, op)
  {
    match op
    case Create(init) =>
      if init.VListVal? && init.gen !in s.gens then t == s
      else t == State(s.order + [s.nextId], s.heap[s.nextId := init], s.nextId + 1, s.roots, s.gens)
    case SetValue(id, v) => if ScalarsAlike(s.heap[id], v) then Became(s, t, id, v) else t == s
    case SetField(id, key, ref) => if s.heap[id].Composite? then FieldEffect(s, t, id, key, ref) else t == s
    case ListAppend(id, ref) =>
      if s.heap[id].ListVal? then Became(s, t, id, ListVal(s.heap[id].items + [ref])) else t == s
    case ListSet(id, i, ref) =>
      if s.heap[id].ListVal? && i < |s.heap[id].items| then Became(s, t, id, ListVal(s.heap[id].items[i := ref])) else t == s
    case ListInsert(id, i, ref) =>
      if s.heap[id].ListVal? && i <= |s.heap[id].items|
      then Became(s, t, id, ListVal(s.heap[id].items[..i] + [ref] + s.heap[id].items[i..])) else t == s
    case ListRemove(id, i) =>
      if s.heap[id].ListVal? && i < |s.heap[id].items|
      then Became(s, t, id, ListVal(s.heap[id].items[..i] + s.heap[id].items[i + 1..])) else t == s
    case Bind(name, ref) => RootSet(s.roots, t.roots, name, ref) && t == s.(roots := t.roots)
    case Unbind(name) => RootFreed(s.roots, t.roots, name) && t == s.(roots := t.roots)
    case SetClass(id, cls) =>
      if s.heap[id].Composite? then Became(s, t, id, Composite(cls, s.heap[id].fields)) else t == s
  }

  lemma PutFieldSets(fs: seq<Field>, key: Text, ref: Id)
    ensures FieldSet(fs, PutField(fs, key, ref), key, ref)
  {
    hide FindKey;
  }

  lemma PutRootSets(rs: seq<Root>, name: Text, ref: Id)
    ensures RootSet(rs, PutRoot(rs, name, ref), name, ref) && RootFreed(rs, FreeRoot(rs, name), name)
  {
    hide FindRoot;
    var i := FindRoot(rs, name);
    if i < |rs| { assert FirstUsed(rs, name, i); }
  }

  /** Every mutator has the effect written down for it. */
  lemma ApplyEffect(s: State, op: Op)
    requires OpOk(s, op)
    ensures Effect(s, op, Apply(s, op).state)
  {
    hide FindKey, FindRoot, PutField, PutRoot, FreeRoot, FieldSet, RootSet, RootFreed;
    match op
    case SetField(id, key, ref) =>
      if s.heap[id].Composite? { PutFieldSets(s.heap[id].fields, key, ref); }
    case Bind(name, ref) => PutRootSets(s.roots, name, ref);
    case Unbind(name) => PutRootSets(s.roots, name, 0); Unbound(s.roots, name);
    case SetClass(id, cls) =>
      if s.heap[id].Composite? && s.heap[id].cls == cls { assert s.heap[id := s.heap[id]] == s.heap; }
    case _ =>
  }

  lemma Unbound(rs: seq<Root>, name: Text)
    ensures FindRoot(rs, name) == |rs| ==> FreeRoot(rs, name) == rs
  {
  }

  // ---- replay --------------------------------------------------------------

  /** A logged id means the object of that id, or none. */
  function Meant(s: State, r: Id): Id { if r in s.heap then r else 0 }

  /** What replaying a record does; none when it gives up. */
  ghost predicate Replayed(s: State, w: Redo, r: Option<State>) {
    match w
    case WCreate(id, init) =>
      if init.VListVal? && init.gen !in s.gens then r.None?
      else
        var b := if init.VListVal? then VListVal(init.gen, Meant(s, init.params)) else init;
        r == Some(State(s.order + [id], s.heap[id := b], if s.nextId <= id then id + 1 else s.nextId, s.roots, s.gens))
    case WSetValue(id, v) =>
      r.Some? && if id in s.heap && ScalarsAlike(s.heap[id], v) then Became(s, r.value, id, v) else r.value == s
    case WSetField(id, key, ref) =>
      r.Some? && if id in s.heap && s.heap[id].Composite? then FieldEffect(s, r.value, id, key, Meant(s, ref)) else r.value == s
    case WListAppend(id, ref) =>
      r.Some? && if id in s.heap && s.heap[id].ListVal?
                 then Became(s, r.value, id, ListVal(s.heap[id].items + [Meant(s, ref)])) else r.value == s
    case WListSet(id, i, ref) =>
      r.Some? && if id in s.heap && s.heap[id].ListVal? && i < |s.heap[id].items|
                 then Became(s, r.value, id, ListVal(s.heap[id].items[i := Meant(s, ref)])) else r.value == s
    case WListInsert(id, i, ref) =>
      r.Some? && if id in s.heap && s.heap[id].ListVal? && i <= |s.heap[id].items|
                 then Became(s, r.value, id, ListVal(s.heap[id].items[..i] + [Meant(s, ref)] + s.heap[id].items[i..]))
                 else r.value == s
    case WListRemove(id, i) =>
      r.Some? && if id in s.heap && s.heap[id].ListVal? && i < |s.heap[id].items|
                 then Became(s, r.value, id, ListVal(s.heap[id].items[..i] + s.heap[id].items[i + 1..])) else r.value == s
    case WBind(name, ref) =>
      r.Some? && RootSet(s.roots, r.value.roots, name, Meant(s, ref)) && r.value == s.(roots := r.value.roots)
    case WUnbind(name) =>
      r.Some? && RootFreed(s.roots, r.value.roots, name) && r.value == s.(roots := r.value.roots)
    case WSetClass(id, cls) =>
      r.Some? && if id in s.heap && s.heap[id].Composite? then Became(s, r.value, id, Composite(cls, s.heap[id].fields))
                 else r.value == s
  }

  /** Every record has the effect written down for it. */
  lemma RedoEffect(s: State, w: Redo)
    ensures Replayed(s, w, RedoOne(s, w))
  {
    hide FindKey, FindRoot, PutField, PutRoot, FreeRoot, FieldSet, RootSet, RootFreed;
    match w
    case WSetField(id, key, ref) =>
      if id in s.heap && s.heap[id].Composite? { PutFieldSets(s.heap[id].fields, key, Meant(s, ref)); }
    case WBind(name, ref) => PutRootSets(s.roots, name, Meant(s, ref));
    case WUnbind(name) => PutRootSets(s.roots, name, 0);
    case _ =>
  }
}
