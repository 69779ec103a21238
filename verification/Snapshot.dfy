/** Snapshot files: save writes the whole store, load parses it, checks it and
    resolves references. */
module Snapshot {
  import opened Bytes
  import opened Graph
  import opened Wal

  const SNAP_MAGIC: u32 := 0x45474F50
  const SNAP_VERSION: u32 := 4

  // ---- save ----------------------------------------------------------------

  predicate FieldsFit(fs: seq<Field>) {
    forall i :: 0 <= i < |fs| ==> |fs[i].key| < MAX_KEY && fs[i].value < 0x1_0000_0000
  }

  predicate IdsFit(ids: seq<Id>) {
    forall i :: 0 <= i < |ids| ==> ids[i] < 0x1_0000_0000
  }

  predicate RootsFit(rs: seq<Root>) {
    forall i :: 0 <= i < |rs| ==> |rs[i].name| < MAX_KEY && rs[i].obj < 0x1_0000_0000
  }

  predicate ObjFits(b: Body) {
    && BodyFits(b)
    && (b.Composite? ==> Small(|b.cls|) && Small(|b.fields|) && FieldsFit(b.fields))
    && (b.ListVal? ==> Small(|b.items|) && IdsFit(b.items))
  }

  /** Every count, id and length fits its 32-bit field. */
  ghost predicate SnapFits(s: State) {
    && Small(s.nextId) && Small(|s.order|) && Small(|s.roots|)
    && (forall i :: 0 <= i < |s.order| ==> s.order[i] in s.heap && 0 < s.order[i] < s.nextId && ObjFits(s.heap[s.order[i]]))
    && RootsFit(s.roots)
  }

  function KindCode(b: Body): byte {
    match b
    case Composite(_, _) => 0
    case IntVal(_) => 1
    case StrVal(_) => 2
    case ListVal(_) => 3
    case VListVal(_, _) => 4
    case BlobVal(_) => 5
  }

  function SaveFields(fs: seq<Field>): (r: seq<byte>)
    requires FieldsFit(fs)
    ensures |r| >= 8 * |fs|
  {
    if fs == [] then [] else Str(fs[0].key) + (U32(fs[0].value) + SaveFields(fs[1..]))
  }

  function SaveIds(ids: seq<Id>): (r: seq<byte>)
    requires IdsFit(ids)
    ensures |r| == 4 * |ids|
  {
    if ids == [] then [] else U32(ids[0]) + SaveIds(ids[1..])
  }

  function SaveBody(b: Body): seq<byte>
    requires ObjFits(b)
  {
    match b
    case Composite(cls, fs) => Str(cls) + (U32(|fs|) + SaveFields(fs))
    case ListVal(items) => U32(|items|) + SaveIds(items)
    case _ => Payload(b)
  }

  ghost function SaveObjs(ids: seq<Id>, heap: map<Id, Body>): (r: seq<byte>)
    requires forall i :: 0 <= i < |ids| ==> ids[i] in heap && ids[i] < 0x1_0000_0000 && ObjFits(heap[ids[i]])
    ensures |r| >= 5 * |ids|
  {
    if ids == [] then []
    else U32(ids[0]) + ([KindCode(heap[ids[0]])] + (SaveBody(heap[ids[0]]) + SaveObjs(ids[1..], heap)))
  }

  function UsedRoots(rs: seq<Root>): (us: seq<Root>)
    ensures |us| <= |rs|
    ensures forall i :: 0 <= i < |us| ==> us[i] in rs && us[i].used
  {
    if rs == [] then [] else if rs[0].used then [rs[0]] + UsedRoots(rs[1..]) else UsedRoots(rs[1..])
  }

  function SaveRoots(rs: seq<Root>): (r: seq<byte>)
    requires RootsFit(rs)
    ensures |r| >= 8 * |rs|
  {
    if rs == [] then [] else Str(rs[0].name) + (U32(rs[0].obj) + SaveRoots(rs[1..]))
  }

  ghost function Save(s: State, gen: u32): seq<byte>
    requires SnapFits(s)
  {
    var us := UsedRoots(s.roots);
    U32(SNAP_MAGIC) + (U32(SNAP_VERSION) + (U32(gen) + (U32(s.nextId) + (U32(|s.order|)
      + (SaveObjs(s.order, s.heap) + (U32(|us|) + SaveRoots(us)))))))
  }

  // ---- load ----------------------------------------------------------------

  /** A claimed element count must fit in the bytes left. */
  predicate CountFits(f: seq<byte>, p: nat, n: nat, min: nat) {
    p <= |f| && n * min <= |f| - p
  }

  function ReadFields(f: seq<byte>, p: nat, n: nat): (r: Read<seq<Field>>)
    ensures r.Got? ==> p <= r.pos && (p <= |f| ==> r.pos <= |f|)
    decreases n
  {
    if n == 0 then Got([], p)
    else
      var (k, p) :- RStr(f, p);
      var (v, p) :- RU32(f, p);
      var (rest, p) :- ReadFields(f, p, n - 1);
      Got([Field(Trunc(k), v)] + rest, p)
  }

  function ReadIds(f: seq<byte>, p: nat, n: nat): (r: Read<seq<Id>>)
    ensures r.Got? ==> p <= r.pos && (p <= |f| ==> r.pos <= |f|)
    decreases n
  {
    if n == 0 then Got([], p)
    else
      var (v, p) :- RU32(f, p);
      var (rest, p) :- ReadIds(f, p, n - 1);
      Got([v] + rest, p)
  }

  function ReadBody(f: seq<byte>, p: nat, kind: byte, gens: set<Text>): (r: Read<Body>)
    ensures r.Got? ==> p < r.pos <= |f|
  {
    if kind == 0 then
      var (c, p) :- RStr(f, p);
      var (n, p) :- RU32(f, p);
      if !CountFits(f, p, n, 8) then Fail
      else var (fs, p) :- ReadFields(f, p, n); Got(Composite(c, fs), p)
    else if kind == 1 then var (i, p) :- RI64(f, p); Got(IntVal(i), p)
    else if kind == 2 then var (s, p) :- RStr(f, p); Got(StrVal(s), p)
    else if kind == 3 then
      var (n, p) :- RU32(f, p);
      if !CountFits(f, p, n, 4) then Fail
      else var (ids, p) :- ReadIds(f, p, n); Got(ListVal(ids), p)
    else if kind == 4 then
      var (g, p) :- RStr(f, p);
      var (v, p) :- RU32(f, p);
      if g in gens then Got(VListVal(g, v), p) else Fail
    else if kind == 5 then var (b, p) :- RStr(f, p); Got(BlobVal(b), p)
    else Fail
  }

  /** The object table as read, references still unresolved. */
  function ReadObjs(f: seq<byte>, p: nat, n: nat, nextId: Id, order: seq<Id>, heap: map<Id, Body>, gens: set<Text>)
    : (r: Read<(seq<Id>, map<Id, Body>)>)
    decreases n
  {
    if n == 0 then Got((order, heap), p)
    else
      var (id, p) :- RU32(f, p);
      var (kind, p) :- RU8(f, p);
      if id == 0 || id >= nextId then Fail
      else
        var (b, p) :- ReadBody(f, p, kind, gens);
        ReadObjs(f, p, n - 1, nextId, order + [id], heap[id := b], gens)
  }

  /** Each field is filled in at the first field of its key. */
  function LinkFields(fs: seq<Field>, keys: set<Id>, j: nat, acc: seq<Field>): (r: seq<Field>)
    requires j <= |fs| == |acc|
    decreases |fs| - j
  {
    if j == |fs| then acc
    else
      var i := FindKey(acc, fs[j].key);
      var v := if fs[j].value in keys then fs[j].value else 0;
      LinkFields(fs, keys, j + 1, if i < |acc| then acc[i := Field(acc[i].key, v)] else acc)
  }

  function Blank(fs: seq<Field>): (r: seq<Field>)
    ensures |r| == |fs|
  {
    seq(|fs|, i requires 0 <= i < |fs| => Field(fs[i].key, 0))
  }

  function LinkBody(b: Body, keys: set<Id>): Body {
    match b
    case Composite(c, fs) => Composite(c, LinkFields(fs, keys, 0, Blank(fs)))
    case ListVal(ids) => ListVal(seq(|ids|, i requires 0 <= i < |ids| => if ids[i] in keys then ids[i] else 0))
    case VListVal(g, p) => VListVal(g, if p in keys then p else 0)
    case _ => b
  }

  function LinkAll(heap: map<Id, Body>): map<Id, Body> {
    map id | id in heap :: LinkBody(heap[id], heap.Keys)
  }

  function ReadRoots(f: seq<byte>, p: nat, n: nat, keys: set<Id>): Read<seq<Root>>
    decreases n
  {
    if n == 0 then Got([], p)
    else
      var (k, p) :- RStr(f, p);
      var (v, p) :- RU32(f, p);
      var (rest, p) :- ReadRoots(f, p, n - 1, keys);
      Got([Root(Trunc(k), if v in keys then v else 0, true)] + rest, p)
  }

  /** The store in a snapshot file and its generation. */
  datatype Snap = Snap(state: State, gen: u32)

  function Load(f: seq<byte>, gens: set<Text>): Option<Snap> {
    var m := RU32(f, 0);
    var v := RU32(f, 4);
    var g := RU32(f, 8);
    var nx := RU32(f, 12);
    var n := RU32(f, 16);
    if m.Fail? || m.value != SNAP_MAGIC || v.Fail? || v.value != SNAP_VERSION || g.Fail? || nx.Fail? || n.Fail?
       || !CountFits(f, 20, n.value, 5) then None
    else
      var o := ReadObjs(f, 20, n.value, nx.value, [], map[], gens);
      if o.Fail? then None
      else
        var heap := LinkAll(o.value.1);
        var nr := RU32(f, o.pos);
        if nr.Fail? || !CountFits(f, nr.pos, nr.value, 8) then None
        else
          var rs := ReadRoots(f, nr.pos, nr.value, heap.Keys);
          if rs.Fail? then None
          else Some(Snap(State(o.value.0, heap, nx.value, rs.value, gens), g.value))
  }

  // ---- load inverts save ---------------------------------------------------

  predicate SnapReadableBody(b: Body) {
    BodyReadable(b) && (b.Composite? ==> |b.cls| <= MAX_LEN)
  }

  lemma {:induction false} FieldsRead(f: seq<byte>, p: nat, fs: seq<Field>)
    requires FieldsFit(fs)
    requires At(f, p, SaveFields(fs))
    ensures ReadFields(f, p, |fs|) == Got(fs, p + |SaveFields(fs)|)
    decreases |fs|
  {
    hide At, U32, RU32, RStr;
    if fs != [] {
      var rest := SaveFields(fs[1..]);
      AtConcat(f, p, Str(fs[0].key), U32(fs[0].value) + rest);
      AtConcat(f, p + 4 + |fs[0].key|, U32(fs[0].value), rest);
      StrRead(f, p, fs[0].key);
      U32Read(f, p + 4 + |fs[0].key|, fs[0].value);
      FieldsRead(f, p + 8 + |fs[0].key|, fs[1..]);
      assert [fs[0]] + fs[1..] == fs;
    }
  }

  lemma {:induction false} IdsRead(f: seq<byte>, p: nat, ids: seq<Id>)
    requires IdsFit(ids)
    requires At(f, p, SaveIds(ids))
    ensures ReadIds(f, p, |ids|) == Got(ids, p + |SaveIds(ids)|)
    decreases |ids|
  {
    hide At, U32, RU32;
    if ids != [] {
      AtConcat(f, p, U32(ids[0]), SaveIds(ids[1..]));
      U32Read(f, p, ids[0]);
      IdsRead(f, p + 4, ids[1..]);
      assert [ids[0]] + ids[1..] == ids;
    }
  }

  lemma CompositeRead(f: seq<byte>, p: nat, b: Body, gens: set<Text>)
    requires b.Composite? && ObjFits(b) && At(f, p, SaveBody(b))
    ensures ReadBody(f, p, 0, gens) == if SnapReadableBody(b) then Got(b, p + |SaveBody(b)|) else Fail
  {
    hide At, U32, RU32, RStr, ReadFields, SaveFields;
    var n := |b.fields|;
    AtConcat(f, p, Str(b.cls), U32(n) + SaveFields(b.fields));
    AtConcat(f, p + 4 + |b.cls|, U32(n), SaveFields(b.fields));
    StrRead(f, p, b.cls);
    U32Read(f, p + 4 + |b.cls|, n);
    FieldsRead(f, p + 8 + |b.cls|, b.fields);
  }

  lemma ListRead(f: seq<byte>, p: nat, b: Body, gens: set<Text>)
    requires b.ListVal? && ObjFits(b) && At(f, p, SaveBody(b))
    ensures ReadBody(f, p, 3, gens) == Got(b, p + |SaveBody(b)|)
  {
    hide At, U32, RU32, ReadIds, SaveIds;
    AtConcat(f, p, U32(|b.items|), SaveIds(b.items));
    U32Read(f, p, |b.items|);
    IdsRead(f, p + 4, b.items);
  }

  /** A saved object is read back, unless it holds an oversized string. */
  lemma BodyRead(f: seq<byte>, p: nat, b: Body, gens: set<Text>)
    requires ObjFits(b) && At(f, p, SaveBody(b)) && (b.VListVal? ==> b.gen in gens)
    ensures ReadBody(f, p, KindCode(b), gens) == if SnapReadableBody(b) then Got(b, p + |SaveBody(b)|) else Fail
  {
    hide U32, RU32, I64, RI64, RStr;
    match b
    case Composite(_, _) => CompositeRead(f, p, b, gens);
    case ListVal(_) => ListRead(f, p, b, gens);
    case IntVal(i) => I64Read(f, p, i);
    case StrVal(s) => StrRead(f, p, s);
    case BlobVal(s) => StrRead(f, p, s);
    case VListVal(g, v) =>
      AtConcat(f, p, Str(g), U32(v));
      StrRead(f, p, g);
      U32Read(f, p + 4 + |g|, v);
  }

  ghost predicate ObjsOk(ids: seq<Id>, heap: map<Id, Body>, nextId: Id, gens: set<Text>) {
    forall i :: 0 <= i < |ids| ==>
      ids[i] in heap && 0 < ids[i] < nextId && ObjFits(heap[ids[i]])
      && (heap[ids[i]].VListVal? ==> heap[ids[i]].gen in gens)
  }

  ghost predicate ObjsReadable(ids: seq<Id>, heap: map<Id, Body>)
    requires forall i :: 0 <= i < |ids| ==> ids[i] in heap
  {
    forall i :: 0 <= i < |ids| ==> SnapReadableBody(heap[ids[i]])
  }

  ghost function Pick(heap: map<Id, Body>, ids: seq<Id>): map<Id, Body> {
    map id | id in ids && id in heap :: heap[id]
  }

  lemma ObjHeadRead(f: seq<byte>, p: nat, id: Id, b: Body, rest: seq<byte>, gens: set<Text>)
    requires Small(id) && ObjFits(b) && (b.VListVal? ==> b.gen in gens)
    requires At(f, p, U32(id) + ([KindCode(b)] + (SaveBody(b) + rest)))
    ensures RU32(f, p) == Got(id, p + 4) && RU8(f, p + 4) == Got(KindCode(b), p + 5)
    ensures ReadBody(f, p + 5, KindCode(b), gens) == if SnapReadableBody(b) then Got(b, p + 5 + |SaveBody(b)|) else Fail
    ensures At(f, p + 5 + |SaveBody(b)|, rest)
  {
    hide U32, RU32, SaveBody, ReadBody;
    AtConcat(f, p, U32(id), [KindCode(b)] + (SaveBody(b) + rest));
    AtConcat(f, p + 4, [KindCode(b)], SaveBody(b) + rest);
    AtConcat(f, p + 5, SaveBody(b), rest);
    U32Read(f, p, id);
    assert f[p + 4] == f[p + 4..p + 5][0];
    BodyRead(f, p + 5, b, gens);
  }

  lemma {:induction false} ObjsRead(f: seq<byte>, p: nat, ids: seq<Id>, heap: map<Id, Body>, nextId: Id,
                                    order: seq<Id>, acc: map<Id, Body>, gens: set<Text>)
    requires Small(nextId) && ObjsOk(ids, heap, nextId, gens) && At(f, p, SaveObjs(ids, heap))
    ensures ReadObjs(f, p, |ids|, nextId, order, acc, gens) ==
            if ObjsReadable(ids, heap)
            then Got((order + ids, acc + Pick(heap, ids)), p + |SaveObjs(ids, heap)|)
            else Fail
    decreases |ids|
  {
    hide At, U32, RU32, RU8, ReadBody, SaveBody, ObjFits, SnapReadableBody;
    if ids == [] {
      assert order + ids == order && acc + Pick(heap, ids) == acc;
    } else {
      var id, b, rest := ids[0], heap[ids[0]], SaveObjs(ids[1..], heap);
      ObjHeadRead(f, p, id, b, rest, gens);
      if SnapReadableBody(b) {
        ObjsRead(f, p + 5 + |SaveBody(b)|, ids[1..], heap, nextId, order + [id], acc[id := b], gens);
        assert order + [id] + ids[1..] == order + ids;
        MapStep(ids, heap, acc);
        assert ObjsReadable(ids, heap) <==> ObjsReadable(ids[1..], heap);
      }
    }
  }

  lemma MapStep(ids: seq<Id>, heap: map<Id, Body>, acc: map<Id, Body>)
    requires ids != [] && forall i :: 0 <= i < |ids| ==> ids[i] in heap
    ensures acc[ids[0] := heap[ids[0]]] + Pick(heap, ids[1..])
            == acc + Pick(heap, ids)
  {
    var m, m1 := Pick(heap, ids), Pick(heap, ids[1..]);
    assert ids == [ids[0]] + ids[1..];
    assert m.Keys == m1.Keys + {ids[0]};
  }

  /** The resolved reference of the last field of a key among the first `j`. */
  function Latest(fs: seq<Field>, keys: set<Id>, key: Text, j: nat): Id
    requires j <= |fs|
  {
    if j == 0 then 0
    else if fs[j - 1].key == key then (if fs[j - 1].value in keys then fs[j - 1].value else 0)
    else Latest(fs, keys, key, j - 1)
  }

  /** Field `i` after the first `j` references have been filled in. */
  function LinkedField(fs: seq<Field>, keys: set<Id>, j: nat, i: nat): Field
    requires i < |fs| && j <= |fs|
  {
    Field(fs[i].key, if FindKey(fs, fs[i].key) == i then Latest(fs, keys, fs[i].key, j) else 0)
  }

  lemma {:induction false} SameKeysFind(a: seq<Field>, b: seq<Field>, key: Text)
    requires |a| == |b| && forall i :: 0 <= i < |a| ==> a[i].key == b[i].key
    ensures FindKey(a, key) == FindKey(b, key)
  {
    if a != [] { SameKeysFind(a[1..], b[1..], key); }
  }

  lemma {:induction false} LinkFieldsAre(fs: seq<Field>, keys: set<Id>, j: nat, acc: seq<Field>)
    requires j <= |fs| == |acc|
    requires forall i :: 0 <= i < |fs| ==> acc[i] == LinkedField(fs, keys, j, i)
    ensures var r := LinkFields(fs, keys, j, acc);
            |r| == |fs| && forall i :: 0 <= i < |fs| ==> r[i] == LinkedField(fs, keys, |fs|, i)
    decreases |fs| - j
  {
    hide FindKey;
    if j < |fs| {
      SameKeysFind(acc, fs, fs[j].key);
      var i := FindKey(acc, fs[j].key);
      var v := if fs[j].value in keys then fs[j].value else 0;
      LinkFieldsAre(fs, keys, j + 1, acc[i := Field(acc[i].key, v)]);
    }
  }

  /** Fields that share a key are all null. */
  predicate RepeatsNull(b: Body) {
    b.Composite? ==>
      forall i, j :: 0 <= i < |b.fields| && 0 <= j < |b.fields| && i != j && b.fields[i].key == b.fields[j].key
                     ==> b.fields[i].value == 0
  }

  lemma {:induction false} LatestOnly(fs: seq<Field>, keys: set<Id>, i: nat, j: nat)
    requires i < |fs| && j <= |fs| && RepeatsNull(Composite([], fs)) && (fs[i].value == 0 || fs[i].value in keys)
    ensures Latest(fs, keys, fs[i].key, j) == if i < j then fs[i].value else 0
    decreases j
  {
    if j > 0 {
      LatestOnly(fs, keys, i, j - 1);
      if fs[j - 1].key == fs[i].key && j - 1 != i {
        assert fs[j - 1].value == 0 && fs[i].value == 0;
      }
    }
  }

  /** The last of several fields of a key, being null, is what the first gets. */
  lemma {:induction false} LatestLater(fs: seq<Field>, keys: set<Id>, i: nat, j: nat, n: nat)
    requires i < j < n <= |fs| && fs[j].key == fs[i].key
    requires forall k :: i < k < n && fs[k].key == fs[i].key ==> fs[k].value == 0
    ensures Latest(fs, keys, fs[i].key, n) == 0
    decreases n
  {
    if fs[n - 1].key != fs[i].key {
      LatestLater(fs, keys, i, j, n - 1);
    }
  }

  lemma FirstOf(fs: seq<Field>, i: nat)
    requires i < |fs|
    ensures FindKey(fs, fs[i].key) <= i
  {
  }

  lemma LinkedNullLater(fs: seq<Field>, keys: set<Id>, r: seq<Field>, i: nat, j: nat)
    requires i < j < |fs| && fs[i].key == fs[j].key && |r| == |fs|
    requires forall i :: 0 <= i < |fs| ==> r[i] == LinkedField(fs, keys, |fs|, i)
    requires r == fs
    ensures fs[i].value == 0 && fs[j].value == 0
  {
    hide FindKey, Latest;
    forall k | 0 <= k < |fs| && FindKey(fs, fs[k].key) != k ensures fs[k].value == 0 {
      assert r[k] == LinkedField(fs, keys, |fs|, k);
    }
    FirstOf(fs, i);
    var f := FindKey(fs, fs[i].key);
    LatestLater(fs, keys, f, j, |fs|);
    assert r[f] == LinkedField(fs, keys, |fs|, f);
  }

  /** Linking gives the first field of each key the last reference of that key and
      leaves every later field of the key null. */
  lemma LinkBodyFields(fs: seq<Field>, keys: set<Id>)
    ensures var r := LinkFields(fs, keys, 0, Blank(fs));
            |r| == |fs| && forall i :: 0 <= i < |fs| ==> r[i] == LinkedField(fs, keys, |fs|, i)
  {
    hide LinkFields, FindKey;
    LinkFieldsAre(fs, keys, 0, Blank(fs));
  }

  /** The fields of an object come back exactly if no key is repeated by a field
      that is not null. */
  lemma FieldsLinkExact(fs: seq<Field>, keys: set<Id>)
    requires forall i :: 0 <= i < |fs| ==> fs[i].value == 0 || fs[i].value in keys
    ensures LinkFields(fs, keys, 0, Blank(fs)) == fs <==> RepeatsNull(Composite([], fs))
  {
    hide LinkFields, FindKey, Latest, Blank;
    var r := LinkFields(fs, keys, 0, Blank(fs));
    LinkBodyFields(fs, keys);
    if r == fs {
      forall i, j | 0 <= i < |fs| && 0 <= j < |fs| && i != j && fs[i].key == fs[j].key ensures fs[i].value == 0 {
        if i < j { LinkedNullLater(fs, keys, r, i, j); } else { LinkedNullLater(fs, keys, r, j, i); }
      }
    }
    if RepeatsNull(Composite([], fs)) {
      forall i | 0 <= i < |fs| ensures r[i] == fs[i] {
        LatestOnly(fs, keys, i, |fs|);
        FirstOf(fs, i);
      }
    }
  }

  lemma BodyLinkExact(s: State, b: Body)
    requires BodyOk(s, b)
    ensures LinkBody(b, s.heap.Keys) == b <==> RepeatsNull(b)
  {
    hide LinkFields;
    match b
    case Composite(c, fs) =>
      forall i | 0 <= i < |fs| ensures fs[i].value == 0 || fs[i].value in s.heap.Keys {
        assert fs[i].value in Refs(b);
      }
      FieldsLinkExact(fs, s.heap.Keys);
    case ListVal(ids) =>
      forall i | 0 <= i < |ids| ensures ids[i] == 0 || ids[i] in s.heap.Keys {
        assert ids[i] in Refs(b);
      }
      assert LinkBody(b, s.heap.Keys).items == ids;
    case VListVal(_, p) => assert p in Refs(b);
    case _ =>
  }

  /** Resolving references restores the table if and only if the fields that share
      a key, if any, are all null. */
  lemma LinkExact(s: State)
    requires Wf(s)
    ensures LinkAll(s.heap) == s.heap <==> forall id :: id in s.heap ==> RepeatsNull(s.heap[id])
  {
    hide LinkBody, RepeatsNull;
    var l := LinkAll(s.heap);
    forall id | id in s.heap ensures l[id] == s.heap[id] <==> RepeatsNull(s.heap[id]) {
      BodyLinkExact(s, s.heap[id]);
    }
  }

  lemma {:induction false} RootsRead(f: seq<byte>, p: nat, rs: seq<Root>, keys: set<Id>)
    requires RootsFit(rs)
    requires forall i :: 0 <= i < |rs| ==> rs[i].used && (rs[i].obj == 0 || rs[i].obj in keys)
    requires At(f, p, SaveRoots(rs))
    ensures ReadRoots(f, p, |rs|, keys) == Got(rs, p + |SaveRoots(rs)|)
    decreases |rs|
  {
    hide At, U32, RU32, RStr;
    if rs != [] {
      var rest := SaveRoots(rs[1..]);
      AtConcat(f, p, Str(rs[0].name), U32(rs[0].obj) + rest);
      AtConcat(f, p + 4 + |rs[0].name|, U32(rs[0].obj), rest);
      StrRead(f, p, rs[0].name);
      U32Read(f, p + 4 + |rs[0].name|, rs[0].obj);
      RootsRead(f, p + 8 + |rs[0].name|, rs[1..], keys);
      assert [rs[0]] + rs[1..] == rs;
    }
  }

  lemma {:induction false} UsedRootsMap(rs: seq<Root>)
    ensures RootMap(UsedRoots(rs)) == RootMap(rs)
    ensures UsedDistinct(rs) ==> UsedDistinct(UsedRoots(rs))
  {
    if rs != [] {
      UsedRootsMap(rs[1..]);
      if rs[0].used {
        var us := UsedRoots(rs[1..]);
        assert ([rs[0]] + us)[1..] == us;
        assert forall i :: 0 <= i < |us| ==> us[i] in rs[1..];
      }
    }
  }

  /** The store without its unused root slots. */
  function Compact(s: State): State { s.(roots := UsedRoots(s.roots)) }

  lemma HeadRead(f: seq<byte>, a: u32, b: u32, c: u32, d: u32, e: u32, rest: seq<byte>)
    requires f == U32(a) + (U32(b) + (U32(c) + (U32(d) + (U32(e) + rest))))
    ensures RU32(f, 0) == Got(a, 4) && RU32(f, 4) == Got(b, 8) && RU32(f, 8) == Got(c, 12)
    ensures RU32(f, 12) == Got(d, 16) && RU32(f, 16) == Got(e, 20) && At(f, 20, rest) && |f| == 20 + |rest|
  {
    hide U32, RU32;
    assert At(f, 0, f);
    AtConcat(f, 0, U32(a), U32(b) + (U32(c) + (U32(d) + (U32(e) + rest))));
    AtConcat(f, 4, U32(b), U32(c) + (U32(d) + (U32(e) + rest)));
    AtConcat(f, 8, U32(c), U32(d) + (U32(e) + rest));
    AtConcat(f, 12, U32(d), U32(e) + rest);
    AtConcat(f, 16, U32(e), rest);
    U32Read(f, 0, a); U32Read(f, 4, b); U32Read(f, 8, c); U32Read(f, 12, d); U32Read(f, 16, e);
  }

  lemma UsedRootsOk(s: State)
    requires Wf(s) && RootsFit(s.roots)
    ensures RootsFit(UsedRoots(s.roots))
    ensures forall i :: 0 <= i < |UsedRoots(s.roots)| ==>
              var r := UsedRoots(s.roots)[i]; r.used && (r.obj == 0 || r.obj in s.heap.Keys)
  {
    hide UsedRoots;
    var us := UsedRoots(s.roots);
    forall i | 0 <= i < |us|
      ensures |us[i].name| < MAX_KEY && us[i].obj < 0x1_0000_0000
      ensures us[i].used && (us[i].obj == 0 || us[i].obj in s.heap.Keys)
    {
      var j :| 0 <= j < |s.roots| && s.roots[j] == us[i];
      assert RootOk(s, s.roots[j]);
    }
  }

  /** What load makes of a saved store: the roots in use, and references linked. */
  function Reloaded(s: State): State { Compact(s).(heap := LinkAll(s.heap)) }

  /** Load refuses exactly the saved stores that hold a string or blob longer than
      the readers accept. It returns the store itself, unused root slots aside,
      exactly if fields that share a key are null. */
  lemma LoadSave(s: State, gen: u32)
    requires Wf(s) && SnapFits(s)
    ensures Load(Save(s, gen), s.gens) ==
            if ObjsReadable(s.order, s.heap) then Some(Snap(Reloaded(s), gen)) else None
    ensures Reloaded(s) == Compact(s) <==> forall id :: id in s.heap ==> RepeatsNull(s.heap[id])
  {
    hide At, U32, RU32, ReadObjs, SaveObjs, SaveRoots, ReadRoots, LinkBody, UsedRoots, SnapReadableBody, ObjFits, RepeatsNull;
    var f, us := Save(s, gen), UsedRoots(s.roots);
    var objs, roots := SaveObjs(s.order, s.heap), SaveRoots(us);
    UsedRootsOk(s);
    HeadRead(f, SNAP_MAGIC, SNAP_VERSION, gen, s.nextId, |s.order|, objs + (U32(|us|) + roots));
    AtConcat(f, 20, objs, U32(|us|) + roots);
    AtConcat(f, 20 + |objs|, U32(|us|), roots);
    TableRead(f, 20, s);
    LinkExact(s);
    assert LinkAll(s.heap).Keys == s.heap.Keys;
    U32Read(f, 20 + |objs|, |us|);
    RootsRead(f, 24 + |objs|, us, s.heap.Keys);
  }

  /** A store whose keys are distinct comes back. */
  lemma SoundReload(s: State)
    requires Sound(s)
    ensures Reloaded(s) == Compact(s)
  {
    hide LinkAll, UsedRoots;
    LinkExact(s);
  }

  /** An object of no fields after two calls of set_field under one long key. */
  function KeySetTwice(key: Text, gens: set<Text>): (s: State)
    requires |key| >= MAX_KEY
    ensures s == State([1, 2], map[1 := Composite([], [Field(Trunc(key), 2), Field(Trunc(key), 2)]), 2 := IntVal(7)],
                       3, [], gens)
  {
    var s := State([1, 2], map[1 := Composite([], []), 2 := IntVal(7)], 3, [], gens);
    var op := SetField(1, key, 2);
    var fs := PutField([], key, 2);
    assert fs == [Field(Trunc(key), 2)];
    assert PutField(fs, key, 2) == fs + fs;
    var once := Apply(s, op).state;
    assert once.heap[1] == Composite([], fs);
    var twice := Apply(once, op).state;
    assert twice.heap[1] == Composite([], [Field(Trunc(key), 2), Field(Trunc(key), 2)]);
    twice
  }

  lemma KeySetTwiceOk(key: Text, gens: set<Text>)
    requires |key| >= MAX_KEY
    ensures var s := KeySetTwice(key, gens); Wf(s) && SnapFits(s) && ObjsReadable(s.order, s.heap)
  {
    hide KeySetTwice, Trunc;
    var s := KeySetTwice(key, gens);
    assert s.heap[1].fields[0].value == 2 && s.heap[1].fields[1].value == 2;
    assert forall i :: 0 <= i < |s.order| ==> SnapReadableBody(s.heap[s.order[i]]);
    assert BodyOk(s, s.heap[1]) && BodyOk(s, s.heap[2]);
  }

  /** Any key of 64 bytes or more, set twice: the store is well formed and is saved
      and loaded, but its second field comes back null. */
  lemma RepeatedKeyLost(key: Text, gens: set<Text>, gen: u32)
    requires |key| >= MAX_KEY
    ensures var s := KeySetTwice(key, gens);
            && Wf(s) && SnapFits(s) && Load(Save(s, gen), gens) == Some(Snap(Reloaded(s), gen))
            && Reloaded(s).heap[1] == Composite([], [Field(Trunc(key), 2), Field(Trunc(key), 0)])
            && Reloaded(s) != Compact(s)
  {
    hide Load, Save, LinkFields, KeySetTwice, Trunc, Wf, SnapFits, ObjsReadable, UsedRoots;
    var s := KeySetTwice(key, gens);
    KeySetTwiceOk(key, gens);
    LoadSave(s, gen);
    LinkBodyFields(s.heap[1].fields, s.heap.Keys);
    assert Reloaded(s).heap[1].fields == [Field(Trunc(key), 2), Field(Trunc(key), 0)];
  }

  /** A string longer than the cap is saved in a store that load then refuses. */
  lemma OversizedRefused(text: Text, gens: set<Text>, gen: u32)
    requires MAX_LEN < |text| < 0x1_0000_0000
    ensures var s := State([1], map[1 := StrVal(text)], 2, [], gens);
            Wf(s) && SnapFits(s) && Load(Save(s, gen), gens) == None
  {
    hide Load, Save, LinkAll;
    var s := State([1], map[1 := StrVal(text)], 2, [], gens);
    assert BodyOk(s, s.heap[1]);
    LoadSave(s, gen);
    assert !SnapReadableBody(s.heap[s.order[0]]);
  }

  lemma WholeTable(s: State)
    requires Wf(s) && SnapFits(s)
    ensures Small(s.nextId) && ObjsOk(s.order, s.heap, s.nextId, s.gens)
    ensures map[] + Pick(s.heap, s.order) == s.heap && [] + s.order == s.order
  {
    hide ObjFits;
    forall i | 0 <= i < |s.order|
      ensures s.heap[s.order[i]].VListVal? ==> s.heap[s.order[i]].gen in s.gens
    {
      assert BodyOk(s, s.heap[s.order[i]]);
    }
    assert Pick(s.heap, s.order) == s.heap;
  }

  lemma TableRead(f: seq<byte>, p: nat, s: State)
    requires Wf(s) && SnapFits(s) && At(f, p, SaveObjs(s.order, s.heap))
    ensures ReadObjs(f, p, |s.order|, s.nextId, [], map[], s.gens) ==
            if ObjsReadable(s.order, s.heap) then Got((s.order, s.heap), p + |SaveObjs(s.order, s.heap)|) else Fail
  {
    hide *;
    WholeTable(s);
    ObjsRead(f, p, s.order, s.heap, s.nextId, [], map[], s.gens);
  }
}
