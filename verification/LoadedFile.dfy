/** Any file: whatever bytes load as a snapshot, the store they give is closed, and it
    is well formed unless the file repeats an object id or a root name. */
module LoadedFile {
  import opened Bytes
  import opened Graph
  import opened Snapshot

  /** What reading an object already guarantees, before references are resolved. */
  predicate RawOk(b: Body, gens: set<Text>) {
    && (b.VListVal? ==> b.gen in gens)
    && (b.Composite? ==> forall i :: 0 <= i < |b.fields| ==> |b.fields[i].key| < MAX_KEY)
  }

  lemma {:induction false} FieldsRaw(f: seq<byte>, p: nat, n: nat)
    requires ReadFields(f, p, n).Got?
    ensures forall i :: 0 <= i < |ReadFields(f, p, n).value| ==> |ReadFields(f, p, n).value[i].key| < MAX_KEY
    decreases n
  {
    hide RStr, RU32;
    if n > 0 {
      FieldsRaw(f, RU32(f, RStr(f, p).pos).pos, n - 1);
    }
  }

  lemma BodyRaw(f: seq<byte>, p: nat, kind: byte, gens: set<Text>)
    requires ReadBody(f, p, kind, gens).Got?
    ensures RawOk(ReadBody(f, p, kind, gens).value, gens)
  {
    hide RStr, RU32, RI64, ReadFields, ReadIds;
    if kind == 0 {
      var c := RStr(f, p);
      var n := RU32(f, c.pos);
      FieldsRaw(f, n.pos, n.value);
    }
  }

  ghost predicate TableOk(order: seq<Id>, heap: map<Id, Body>, nextId: Id, gens: set<Text>) {
    && (forall id :: id in order <==> id in heap)
    && (forall id :: id in heap ==> 0 < id < nextId && RawOk(heap[id], gens))
  }

  lemma {:induction false} ObjsRaw(f: seq<byte>, p: nat, n: nat, nextId: Id, order: seq<Id>, heap: map<Id, Body>, gens: set<Text>)
    requires TableOk(order, heap, nextId, gens) && ReadObjs(f, p, n, nextId, order, heap, gens).Got?
    ensures var r := ReadObjs(f, p, n, nextId, order, heap, gens).value;
            TableOk(r.0, r.1, nextId, gens)
    decreases n
  {
    hide RU32, RU8, ReadBody, RawOk;
    if n > 0 {
      var id := RU32(f, p);
      var kind := RU8(f, id.pos);
      BodyRaw(f, kind.pos, kind.value, gens);
      var b := ReadBody(f, kind.pos, kind.value, gens);
      ObjsRaw(f, b.pos, n - 1, nextId, order + [id.value], heap[id.value := b.value], gens);
    }
  }

  lemma {:induction false} RootsRaw(f: seq<byte>, p: nat, n: nat, keys: set<Id>)
    requires ReadRoots(f, p, n, keys).Got?
    ensures forall i :: 0 <= i < |ReadRoots(f, p, n, keys).value| ==>
              var r := ReadRoots(f, p, n, keys).value[i];
              (r.obj == 0 || r.obj in keys) && |r.name| < MAX_KEY && r.used
    decreases n
  {
    hide RStr, RU32;
    if n > 0 {
      RootsRaw(f, RU32(f, RStr(f, p).pos).pos, n - 1, keys);
    }
  }

  lemma {:induction false} LatestClosed(fs: seq<Field>, keys: set<Id>, key: Text, j: nat)
    requires j <= |fs|
    ensures Latest(fs, keys, key, j) == 0 || Latest(fs, keys, key, j) in keys
  {
    if j > 0 { LatestClosed(fs, keys, key, j - 1); }
  }

  lemma LinkedOk(s: State, b: Body)
    requires RawOk(b, s.gens)
    ensures BodyOk(s, LinkBody(b, s.heap.Keys))
  {
    hide LinkFields, Latest, FindKey;
    var l := LinkBody(b, s.heap.Keys);
    match b
    case Composite(_, fs) =>
      LinkBodyFields(fs, s.heap.Keys);
      forall r | r in Refs(l) ensures RefOk(s, r) {
        var i :| 0 <= i < |l.fields| && l.fields[i].value == r;
        LatestClosed(fs, s.heap.Keys, fs[i].key, |fs|);
      }
    case _ =>
  }

  /** A snapshot that loads has no dangling reference, whatever its bytes: objects and
      roots refer to loaded objects or to nothing. It is a well-formed store exactly
      when no id and no root name occurs twice and the next id is not zero. */
  lemma LoadedWf(f: seq<byte>, gens: set<Text>)
    requires Load(f, gens).Some?
    ensures var s := Load(f, gens).value.state;
            && (forall id :: id in s.heap ==> 0 < id < s.nextId && BodyOk(s, s.heap[id]))
            && (forall id :: id in s.order <==> id in s.heap)
            && (forall i :: 0 <= i < |s.roots| ==> s.roots[i].used && RootOk(s, s.roots[i]))
            && (Wf(s) <==> NoDup(s.order) && UsedDistinct(s.roots) && s.nextId > 0)
  {
    hide RU32, ReadObjs, ReadRoots, LinkBody, RawOk, BodyOk, NoDup, UsedDistinct;
    var s := Load(f, gens).value.state;
    var nx, n := RU32(f, 12), RU32(f, 16);
    var o := ReadObjs(f, 20, n.value, nx.value, [], map[], gens);
    ObjsRaw(f, 20, n.value, nx.value, [], map[], gens);
    var nr := RU32(f, o.pos);
    RootsRaw(f, nr.pos, nr.value, s.heap.Keys);
    assert s.heap.Keys == o.value.1.Keys;
    forall id | id in s.heap ensures BodyOk(s, s.heap[id]) {
      LinkedOk(s, o.value.1[id]);
    }
  }
}
