/** Derived state of a store: class lists, hash indexes and ordered indexes, and
    their agreement with what a full scan of the objects would select. */
module Indexes {
  import opened Bytes
  import opened Graph
  import opened Gc
  import opened Transactions
  import opened HashIndex
  import Ord = OrderedIndex
  import Dns = DnsOrder

  datatype ClassList = ClassList(name: Text, members: seq<Id>)
  datatype HashDecl = HashDecl(cls: Text, field: Text, index: Index)
  datatype OrdDecl = OrdDecl(cls: Text, field: Text, entries: seq<Entry>)
  datatype Derived = Derived(classes: seq<ClassList>, hash: seq<HashDecl>, ord: seq<OrdDecl>)

  // ---- what a scan selects -------------------------------------------------

  /** The string held in a field of an object, if it is one. */
  function FieldStr(s: State, id: Id, field: Text): Option<Text> {
    if !(id in s.heap && s.heap[id].Composite?) then None
    else
      var fs := s.heap[id].fields;
      var i := FindKey(fs, field);
      if i < |fs| && fs[i].value in s.heap && s.heap[fs[i].value].StrVal? then Some(s.heap[fs[i].value].s) else None
  }

  predicate IsClass(s: State, id: Id, cls: Text) {
    cls != [] && id in s.heap && s.heap[id].Composite? && s.heap[id].cls == cls
  }

  // ---- lists that hold each object once ------------------------------------

  lemma PopMembers(items: seq<Id>, o: Id)
    requires NoDup(items)
    ensures NoDup(SwapPop(items, o))
    ensures forall id :: id in SwapPop(items, o) <==> id in items && id != o
  {
    hide FindItem;
    var i, n := FindItem(items, o), |items|;
    if i < n {
      var r := SwapPop(items, o);
      forall id | id in items && id != o ensures id in r {
        var k :| 0 <= k < n && items[k] == id;
        if k == n - 1 { assert r[i] == id; } else { assert r[k] == id; }
      }
    }
  }

  lemma AddMembers(items: seq<Id>, o: Id)
    requires NoDup(items) && o !in items
    ensures NoDup(items + [o])
    ensures forall id :: id in items + [o] <==> id in items || id == o
  {
  }

  lemma AddThenPop(items: seq<Id>, o: Id)
    requires NoDup(items) && o in items
    ensures SwapPop(items + [o], o) == items
  {
    hide FindItem;
    var k :| 0 <= k < |items| && items[k] == o;
    var i := FindItem(items + [o], o);
    assert (items + [o])[k] == o;
    assert (items + [o])[i] == items[i];
    assert (items + [o])[i := o][..|items|] == items;
  }

  // ---- class lists ---------------------------------------------------------

  function FindClass(cs: seq<ClassList>, name: Text): (i: nat)
    ensures i <= |cs|
    ensures i < |cs| ==> cs[i].name == name
    ensures forall j :: 0 <= j < i ==> cs[j].name != name
  {
    if cs == [] || cs[0].name == name then 0 else 1 + FindClass(cs[1..], name)
  }

  function Members(cs: seq<ClassList>, name: Text): seq<Id> {
    var i := FindClass(cs, name);
    if i < |cs| then cs[i].members else []
  }

  function AddMember(cs: seq<ClassList>, name: Text, o: Id): seq<ClassList> {
    var i := FindClass(cs, name);
    if i < |cs| then cs[i := ClassList(name, cs[i].members + [o])] else cs + [ClassList(name, [o])]
  }

  function DropMember(cs: seq<ClassList>, name: Text, o: Id): seq<ClassList> {
    var i := FindClass(cs, name);
    if i < |cs| then cs[i := ClassList(name, SwapPop(cs[i].members, o))] else cs
  }

  ghost predicate NamesDistinct(cs: seq<ClassList>) {
    forall i, j :: 0 <= i < j < |cs| ==> cs[i].name != cs[j].name
  }

  lemma FindClassIs(cs: seq<ClassList>, name: Text, i: nat)
    requires i <= |cs| && (i < |cs| ==> cs[i].name == name)
    requires forall j :: 0 <= j < i ==> cs[j].name != name
    ensures FindClass(cs, name) == i
  {
  }

  lemma AddMemberOk(cs: seq<ClassList>, name: Text, o: Id, c: Text)
    requires NamesDistinct(cs)
    ensures NamesDistinct(AddMember(cs, name, o))
    ensures Members(AddMember(cs, name, o), c) == if c == name then Members(cs, c) + [o] else Members(cs, c)
  {
    hide FindClass;
    var i, k, cs' := FindClass(cs, name), FindClass(cs, c), AddMember(cs, name, o);
    if i < |cs| { FindClassIs(cs', c, k); }
    else if k < |cs| { FindClassIs(cs', c, k); }
    else { FindClassIs(cs', c, if c == name then |cs| else |cs| + 1); }
  }

  lemma DropMemberOk(cs: seq<ClassList>, name: Text, o: Id, c: Text)
    requires NamesDistinct(cs)
    ensures NamesDistinct(DropMember(cs, name, o))
    ensures Members(DropMember(cs, name, o), c) == if c == name then SwapPop(Members(cs, c), o) else Members(cs, c)
  {
    hide FindClass, FindItem;
    var i, k, cs' := FindClass(cs, name), FindClass(cs, c), DropMember(cs, name, o);
    FindClassIs(cs', c, k);
  }

  // ---- agreement -----------------------------------------------------------

  /** Each instance of each class is in its list exactly once, and nothing else. */
  ghost predicate ClassAgree(s: State, cs: seq<ClassList>) {
    NamesDistinct(cs) && forall c: Text :: ListAgree(s, cs, c)
  }

  ghost predicate ListAgree(s: State, cs: seq<ClassList>, c: Text) {
    NoDup(Members(cs, c)) && forall id :: id in Members(cs, c) <==> IsClass(s, id, c)
  }

  ghost predicate HashAgree(s: State, d: HashDecl) {
    Valid(d.index) && forall v: Text :: ValueAgree(s, d, v)
  }

  /** A hash entry holds once each object a scan would select, and no other. */
  ghost predicate ValueAgree(s: State, d: HashDecl, v: Text) {
    && NoDup(Items(d.index, v))
    && forall id :: id in Items(d.index, v) <==> IsClass(s, id, d.cls) && FieldStr(s, id, d.field) == Some(v)
  }

  ghost predicate OrdAgree(s: State, d: OrdDecl) {
    Ord.Ordered(d.entries) && forall l: seq<Text> :: LabelsAgree(s, d, l)
  }

  predicate Holds(s: State, id: Id, cls: Text, field: Text, l: seq<Text>) {
    IsClass(s, id, cls) && FieldStr(s, id, field).Some? && Dns.Labels(FieldStr(s, id, field).value) == l
  }

  /** Likewise for an ordered entry, names being the same when their labels are. */
  ghost predicate LabelsAgree(s: State, d: OrdDecl, l: seq<Text>) {
    && NoDup(Ord.ItemsAt(d.entries, l))
    && forall id :: id in Ord.ItemsAt(d.entries, l) <==> Holds(s, id, d.cls, d.field, l)
  }

  ghost predicate Agree(s: State, d: Derived) {
    && ClassAgree(s, d.classes)
    && (forall i :: 0 <= i < |d.hash| ==> HashAgree(s, d.hash[i]) && DeclOk(d.hash[i].cls, d.hash[i].field))
    && (forall i :: 0 <= i < |d.ord| ==> OrdAgree(s, d.ord[i]) && DeclOk(d.ord[i].cls, d.ord[i].field))
    && (forall i, j :: 0 <= i < j < |d.hash| ==> d.hash[i].cls != d.hash[j].cls || d.hash[i].field != d.hash[j].field)
    && (forall i, j :: 0 <= i < j < |d.ord| ==> d.ord[i].cls != d.ord[j].cls || d.ord[i].field != d.ord[j].field)
  }

  /** What may be declared: neither part empty nor too long for its buffer. */
  predicate DeclOk(cls: Text, field: Text) {
    0 < |cls| < MAX_KEY && 0 < |field| < MAX_KEY
  }

  /** Nothing a scan looks at differs between the two stores. */
  ghost predicate SameScan(s: State, t: State) {
    && (forall id, c :: IsClass(t, id, c) == IsClass(s, id, c))
    && (forall id, f :: FieldStr(t, id, f) == FieldStr(s, id, f))
  }

  lemma AgreeSame(s: State, t: State, d: Derived)
    requires Agree(s, d) && SameScan(s, t)
    ensures Agree(t, d)
  {
    hide IsClass, FieldStr, Items, Ord.ItemsAt, Members, Valid, Ord.Ordered, Dns.Labels, DeclOk;
    forall c: Text ensures ListAgree(t, d.classes, c) {
      assert ListAgree(s, d.classes, c);
    }
    forall i | 0 <= i < |d.hash| ensures HashAgree(t, d.hash[i]) {
      forall v: Text ensures ValueAgree(t, d.hash[i], v) {
        assert ValueAgree(s, d.hash[i], v);
      }
    }
    forall i | 0 <= i < |d.ord| ensures OrdAgree(t, d.ord[i]) {
      forall l: seq<Text> ensures LabelsAgree(t, d.ord[i], l) {
        assert LabelsAgree(s, d.ord[i], l);
      }
    }
  }

  // ---- set_field -----------------------------------------------------------

  function FindHash(hs: seq<HashDecl>, cls: Text, field: Text): (i: nat)
    ensures i <= |hs|
    ensures i < |hs| ==> hs[i].cls == cls && hs[i].field == field
    ensures forall j :: 0 <= j < i ==> !(hs[j].cls == cls && hs[j].field == field)
  {
    if hs == [] || (hs[0].cls == cls && hs[0].field == field) then 0 else 1 + FindHash(hs[1..], cls, field)
  }

  function FindOrd(os: seq<OrdDecl>, cls: Text, field: Text): (i: nat)
    ensures i <= |os|
    ensures i < |os| ==> os[i].cls == cls && os[i].field == field
    ensures forall j :: 0 <= j < i ==> !(os[j].cls == cls && os[j].field == field)
  {
    if os == [] || (os[0].cls == cls && os[0].field == field) then 0 else 1 + FindOrd(os[1..], cls, field)
  }

  function StrOf(s: State, r: Id): Option<Text> {
    if r in s.heap && s.heap[r].StrVal? then Some(s.heap[r].s) else None
  }

  /** Insert under the new string, then remove from the old, unless equal. */
  function MoveHash(x: Index, was: Option<Text>, now: Option<Text>, id: Id): Index {
    if was == now then x
    else
      var y := if now.Some? then Insert(x, now.value, id) else x;
      if was.Some? then Remove(y, was.value, id) else y
  }

  function MoveOrd(es: seq<Entry>, was: Option<Text>, now: Option<Text>, id: Id): seq<Entry> {
    if was == now then es
    else
      var fs := if now.Some? then Ord.Insert(es, now.value, id) else es;
      if was.Some? then Ord.Remove(fs, was.value, id) else fs
  }

  /** Index maintenance of set_field, before the field itself changes. */
  function FieldDerived(s: State, d: Derived, id: Id, key: Text, ref: Id): Derived
    requires id in s.heap && s.heap[id].Composite?
  {
    var cls, was, now := s.heap[id].cls, FieldStr(s, id, key), StrOf(s, ref);
    if cls == [] then d
    else
      var i, j := FindHash(d.hash, cls, key), FindOrd(d.ord, cls, key);
      d.(hash := if i < |d.hash| then d.hash[i := d.hash[i].(index := MoveHash(d.hash[i].index, was, now, id))] else d.hash,
         ord := if j < |d.ord| then d.ord[j := d.ord[j].(entries := MoveOrd(d.ord[j].entries, was, now, id))] else d.ord)
  }

  /** The string a field shows after set_field. */
  lemma FieldStrPut(s: State, id: Id, key: Text, ref: Id, o: Id, f: Text)
    requires id in s.heap && s.heap[id].Composite? && |key| < MAX_KEY
    ensures var t := Put(s, id, s.heap[id].(fields := PutField(s.heap[id].fields, key, ref)));
            FieldStr(t, o, f) == if o == id && f == key then StrOf(s, ref) else FieldStr(s, o, f)
  {
    hide FindKey;
    var fs := s.heap[id].fields;
    var fs' := PutField(fs, key, ref);
    if o == id { PutFieldFind(fs, key, ref, f); }
  }

  lemma PutFieldFind(fs: seq<Field>, key: Text, ref: Id, f: Text)
    requires |key| < MAX_KEY
    ensures var fs' := PutField(fs, key, ref);
            if f == key then FindKey(fs', f) < |fs'| && fs'[FindKey(fs', f)].value == ref
            else (FindKey(fs', f) < |fs'| <==> FindKey(fs, f) < |fs|)
                 && (FindKey(fs, f) < |fs| ==> fs'[FindKey(fs', f)] == fs[FindKey(fs, f)])
  {
    hide FindKey;
    var i, k, fs' := FindKey(fs, key), FindKey(fs, f), PutField(fs, key, ref);
    if f == key { FindKeyIs(fs', f, i); }
    else { FindKeyIs(fs', f, if k < |fs| then k else |fs'|); }
  }

  lemma FindKeyIs(fs: seq<Field>, key: Text, i: nat)
    requires i <= |fs| && (i < |fs| ==> fs[i].key == key)
    requires forall j :: 0 <= j < i ==> fs[j].key != key
    ensures FindKey(fs, key) == i
  {
  }

  lemma MoveHashValue(x: Index, was: Option<Text>, now: Option<Text>, id: Id, v: Text)
    requires Valid(x) && NoDup(Items(x, v)) && (id in Items(x, v) <==> was == Some(v))
    ensures Valid(MoveHash(x, was, now, id)) && NoDup(Items(MoveHash(x, was, now, id), v))
    ensures forall o :: o in Items(MoveHash(x, was, now, id), v) <==>
              if o == id then now == Some(v) else o in Items(x, v)
  {
    hide Insert, Remove, Items, Valid, SwapPop;
    if was != now {
      var y := if now.Some? then Insert(x, now.value, id) else x;
      if now.Some? { InsertItems(x, now.value, id, v); }
      if was.Some? { RemoveItems(y, was.value, id, v); }
      if now == Some(v) { AddMembers(Items(x, v), id); }
      if was == Some(v) { PopMembers(Items(x, v), id); }
    }
  }

  lemma MoveOrdLabels(es: seq<Entry>, was: Option<Text>, now: Option<Text>, id: Id, l: seq<Text>)
    requires Ord.Ordered(es) && NoDup(Ord.ItemsAt(es, l))
    requires id in Ord.ItemsAt(es, l) <==> was.Some? && Dns.Labels(was.value) == l
    ensures Ord.Ordered(MoveOrd(es, was, now, id)) && NoDup(Ord.ItemsAt(MoveOrd(es, was, now, id), l))
    ensures forall o :: o in Ord.ItemsAt(MoveOrd(es, was, now, id), l) <==>
              if o == id then now.Some? && Dns.Labels(now.value) == l else o in Ord.ItemsAt(es, l)
  {
    hide Ord.Insert, Ord.Remove, Ord.ItemsAt, Ord.Ordered, SwapPop, Dns.Labels;
    if was != now {
      var items := Ord.ItemsAt(es, l);
      var fs := if now.Some? then Ord.Insert(es, now.value, id) else es;
      if now.Some? { Ord.InsertOk(es, now.value, id, l); }
      if was.Some? { Ord.RemoveOk(fs, was.value, id, l); }
      var isNow, isWas := now.Some? && Dns.Labels(now.value) == l, was.Some? && Dns.Labels(was.value) == l;
      if isNow && isWas { AddThenPop(items, id); }
      else if isNow { AddMembers(items, id); }
      else if isWas { PopMembers(items, id); }
    }
  }

  lemma HashAfterField(s: State, t: State, d: HashDecl, id: Id, key: Text, ref: Id)
    requires HashAgree(s, d) && d.cls != []
    requires IsClass(s, id, d.cls) && d.field == key
    requires forall o, c :: IsClass(t, o, c) == IsClass(s, o, c)
    requires forall o, f :: FieldStr(t, o, f) == if o == id && f == key then StrOf(s, ref) else FieldStr(s, o, f)
    ensures HashAgree(t, d.(index := MoveHash(d.index, FieldStr(s, id, key), StrOf(s, ref), id)))
  {
    hide IsClass, FieldStr, StrOf, Items, Valid, MoveHash;
    var was, now := FieldStr(s, id, key), StrOf(s, ref);
    var d' := d.(index := MoveHash(d.index, was, now, id));
    forall v: Text ensures ValueAgree(t, d', v) {
      assert ValueAgree(s, d, v);
      MoveHashValue(d.index, was, now, id, v);
    }
    assert ValueAgree(s, d, []);
    MoveHashValue(d.index, was, now, id, []);
  }

  lemma OrdAfterField(s: State, t: State, d: OrdDecl, id: Id, key: Text, ref: Id)
    requires OrdAgree(s, d) && d.cls != []
    requires IsClass(s, id, d.cls) && d.field == key
    requires forall o, c :: IsClass(t, o, c) == IsClass(s, o, c)
    requires forall o, f :: FieldStr(t, o, f) == if o == id && f == key then StrOf(s, ref) else FieldStr(s, o, f)
    ensures OrdAgree(t, d.(entries := MoveOrd(d.entries, FieldStr(s, id, key), StrOf(s, ref), id)))
  {
    hide IsClass, FieldStr, StrOf, Ord.ItemsAt, Ord.Ordered, MoveOrd, Dns.Labels;
    var was, now := FieldStr(s, id, key), StrOf(s, ref);
    var d' := d.(entries := MoveOrd(d.entries, was, now, id));
    forall l: seq<Text> ensures LabelsAgree(t, d', l) {
      assert LabelsAgree(s, d, l);
      MoveOrdLabels(d.entries, was, now, id, l);
    }
    assert LabelsAgree(s, d, []);
    MoveOrdLabels(d.entries, was, now, id, []);
  }

  /** A declaration on another class or field does not notice. */
  lemma HashUntouched(s: State, t: State, d: HashDecl, id: Id, key: Text)
    requires HashAgree(s, d) && !(IsClass(s, id, d.cls) && d.field == key)
    requires forall o, c :: IsClass(t, o, c) == IsClass(s, o, c)
    requires forall o, f :: !(o == id && f == key) ==> FieldStr(t, o, f) == FieldStr(s, o, f)
    ensures HashAgree(t, d)
  {
    hide IsClass, FieldStr, Items, Valid;
    forall v: Text ensures ValueAgree(t, d, v) {
      assert ValueAgree(s, d, v);
    }
  }

  lemma OrdUntouched(s: State, t: State, d: OrdDecl, id: Id, key: Text)
    requires OrdAgree(s, d) && !(IsClass(s, id, d.cls) && d.field == key)
    requires forall o, c :: IsClass(t, o, c) == IsClass(s, o, c)
    requires forall o, f :: !(o == id && f == key) ==> FieldStr(t, o, f) == FieldStr(s, o, f)
    ensures OrdAgree(t, d)
  {
    hide IsClass, FieldStr, Ord.ItemsAt, Ord.Ordered, Dns.Labels;
    forall l: seq<Text> ensures LabelsAgree(t, d, l) {
      assert LabelsAgree(s, d, l);
    }
  }

  lemma ClassUntouched(s: State, t: State, cs: seq<ClassList>)
    requires ClassAgree(s, cs) && forall o, c :: IsClass(t, o, c) == IsClass(s, o, c)
    ensures ClassAgree(t, cs)
  {
    hide IsClass, Members;
    forall c: Text ensures ListAgree(t, cs, c) {
      assert ListAgree(s, cs, c);
    }
  }

  /** set_field keeps every index in step. */
  lemma FieldAgree(s: State, d: Derived, id: Id, key: Text, ref: Id)
    requires Agree(s, d) && id in s.heap && s.heap[id].Composite? && |key| < MAX_KEY
    ensures Agree(Put(s, id, s.heap[id].(fields := PutField(s.heap[id].fields, key, ref))),
                  FieldDerived(s, d, id, key, ref))
  {
    hide FieldStr, StrOf, Items, Ord.ItemsAt, Valid, Ord.Ordered, MoveHash, MoveOrd, PutField, FindHash, FindOrd,
         Members, Dns.Labels, HashAgree, OrdAgree, ClassAgree;
    var t, d' := Put(s, id, s.heap[id].(fields := PutField(s.heap[id].fields, key, ref))), FieldDerived(s, d, id, key, ref);
    assert forall o, c :: IsClass(t, o, c) == IsClass(s, o, c);
    forall o, f
      ensures FieldStr(t, o, f) == if o == id && f == key then StrOf(s, ref) else FieldStr(s, o, f)
    {
      FieldStrPut(s, id, key, ref, o, f);
    }
    ClassUntouched(s, t, d.classes);
    forall i | 0 <= i < |d'.hash| ensures HashAgree(t, d'.hash[i]) {
      if IsClass(s, id, d.hash[i].cls) && d.hash[i].field == key {
        HashAfterField(s, t, d.hash[i], id, key, ref);
      } else {
        HashUntouched(s, t, d.hash[i], id, key);
      }
    }
    forall i | 0 <= i < |d'.ord| ensures OrdAgree(t, d'.ord[i]) {
      if IsClass(s, id, d.ord[i].cls) && d.ord[i].field == key {
        OrdAfterField(s, t, d.ord[i], id, key, ref);
      } else {
        OrdUntouched(s, t, d.ord[i], id, key);
      }
    }
  }

  // ---- set_class -----------------------------------------------------------

  /** Index maintenance of set_class for one declaration: an object enters the
      indexes of its new class and leaves those of its old one. */
  function ClassHash(d: HashDecl, s: State, id: Id, was: Text, now: Text): HashDecl {
    var v := FieldStr(s, id, d.field);
    d.(index := MoveHash(d.index, if d.cls == was then v else None, if d.cls == now then v else None, id))
  }

  function ClassOrd(d: OrdDecl, s: State, id: Id, was: Text, now: Text): OrdDecl {
    var v := FieldStr(s, id, d.field);
    d.(entries := MoveOrd(d.entries, if d.cls == was then v else None, if d.cls == now then v else None, id))
  }

  function MoveMember(cs: seq<ClassList>, id: Id, was: Text, now: Text): seq<ClassList> {
    var cs1 := if was != [] then DropMember(cs, was, id) else cs;
    if now != [] then AddMember(cs1, now, id) else cs1
  }

  function ClassDerived(s: State, d: Derived, id: Id, now: Text): Derived
    requires id in s.heap && s.heap[id].Composite?
  {
    var was := s.heap[id].cls;
    Derived(MoveMember(d.classes, id, was, now),
            seq(|d.hash|, i requires 0 <= i < |d.hash| => ClassHash(d.hash[i], s, id, was, now)),
            seq(|d.ord|, i requires 0 <= i < |d.ord| => ClassOrd(d.ord[i], s, id, was, now)))
  }

  /** What retagging one object does to a scan. */
  ghost predicate Retagged(s: State, t: State, id: Id, was: Text, now: Text) {
    && was != now && id in s.heap && s.heap[id].Composite? && s.heap[id].cls == was
    && (forall o, c :: IsClass(t, o, c) == if o == id then c != [] && c == now else IsClass(s, o, c))
    && (forall o, f :: FieldStr(t, o, f) == FieldStr(s, o, f))
  }

  lemma RetagScan(s: State, id: Id, now: Text)
    requires id in s.heap && s.heap[id].Composite? && s.heap[id].cls != now
    ensures Retagged(s, Put(s, id, s.heap[id].(cls := now)), id, s.heap[id].cls, now)
  {
    hide FindKey;
  }

  lemma HashAfterClass(s: State, t: State, d: HashDecl, id: Id, was: Text, now: Text)
    requires HashAgree(s, d) && d.cls != [] && Retagged(s, t, id, was, now)
    ensures HashAgree(t, ClassHash(d, s, id, was, now))
  {
    hide FieldStr, Items, Valid, MoveHash;
    var v := FieldStr(s, id, d.field);
    var a, b := if d.cls == was then v else None, if d.cls == now then v else None;
    forall w: Text ensures ValueAgree(t, ClassHash(d, s, id, was, now), w) {
      assert ValueAgree(s, d, w);
      MoveHashValue(d.index, a, b, id, w);
    }
    assert ValueAgree(s, d, []);
    MoveHashValue(d.index, a, b, id, []);
  }

  lemma OrdAfterClass(s: State, t: State, d: OrdDecl, id: Id, was: Text, now: Text)
    requires OrdAgree(s, d) && d.cls != [] && Retagged(s, t, id, was, now)
    ensures OrdAgree(t, ClassOrd(d, s, id, was, now))
  {
    hide FieldStr, Ord.ItemsAt, Ord.Ordered, MoveOrd, Dns.Labels;
    var v := FieldStr(s, id, d.field);
    var a, b := if d.cls == was then v else None, if d.cls == now then v else None;
    forall l: seq<Text> ensures LabelsAgree(t, ClassOrd(d, s, id, was, now), l) {
      assert LabelsAgree(s, d, l);
      MoveOrdLabels(d.entries, a, b, id, l);
    }
    assert LabelsAgree(s, d, []);
    MoveOrdLabels(d.entries, a, b, id, []);
  }

  lemma ListAfterClass(s: State, t: State, cs: seq<ClassList>, id: Id, was: Text, now: Text)
    requires ClassAgree(s, cs) && Retagged(s, t, id, was, now)
    ensures ClassAgree(t, MoveMember(cs, id, was, now))
  {
    hide Members, AddMember, DropMember, FieldStr, SwapPop;
    var cs1 := if was != [] then DropMember(cs, was, id) else cs;
    forall c: Text ensures ListAgree(t, MoveMember(cs, id, was, now), c) {
      assert ListAgree(s, cs, c);
      if was != [] { DropMemberOk(cs, was, id, c); }
      if now != [] { AddMemberOk(cs1, now, id, c); }
      if c == was { PopMembers(Members(cs, c), id); }
      if c == now && c != [] { AddMembers(Members(cs, c), id); }
    }
    if was != [] { DropMemberOk(cs, was, id, []); }
    if now != [] { AddMemberOk(cs1, now, id, []); }
  }

  /** set_class keeps the class lists and every index in step. */
  lemma ClassChangeAgree(s: State, d: Derived, id: Id, now: Text)
    requires Agree(s, d) && id in s.heap && s.heap[id].Composite? && s.heap[id].cls != now
    ensures Agree(Put(s, id, s.heap[id].(cls := now)), ClassDerived(s, d, id, now))
  {
    hide FieldStr, IsClass, MoveHash, MoveOrd, HashAgree, OrdAgree, ClassAgree, MoveMember, Retagged;
    var t, was := Put(s, id, s.heap[id].(cls := now)), s.heap[id].cls;
    RetagScan(s, id, now);
    ListAfterClass(s, t, d.classes, id, was, now);
    forall i | 0 <= i < |d.hash| ensures HashAgree(t, ClassHash(d.hash[i], s, id, was, now)) {
      HashAfterClass(s, t, d.hash[i], id, was, now);
    }
    forall i | 0 <= i < |d.ord| ensures OrdAgree(t, ClassOrd(d.ord[i], s, id, was, now)) {
      OrdAfterClass(s, t, d.ord[i], id, was, now);
    }
  }

  // ---- rebuild from the objects --------------------------------------------

  function ScanClasses(s: State, ids: seq<Id>): seq<ClassList> {
    if ids == [] then []
    else
      var cs, id := ScanClasses(s, ids[..|ids| - 1]), ids[|ids| - 1];
      if id in s.heap && s.heap[id].Composite? && s.heap[id].cls != [] then AddMember(cs, s.heap[id].cls, id) else cs
  }

  function ScanHash(s: State, field: Text, ids: seq<Id>): Index {
    if ids == [] then EMPTY
    else
      var x, v := ScanHash(s, field, ids[..|ids| - 1]), FieldStr(s, ids[|ids| - 1], field);
      if v.Some? then Insert(x, v.value, ids[|ids| - 1]) else x
  }

  function ScanOrd(s: State, field: Text, ids: seq<Id>): seq<Entry> {
    if ids == [] then []
    else
      var es, v := ScanOrd(s, field, ids[..|ids| - 1]), FieldStr(s, ids[|ids| - 1], field);
      if v.Some? then Ord.Insert(es, v.value, ids[|ids| - 1]) else es
  }

  /** All derived state anew, for the same declarations. */
  function Rebuild(s: State, d: Derived): Derived {
    var cs := ScanClasses(s, s.order);
    Derived(cs,
            seq(|d.hash|, i requires 0 <= i < |d.hash| =>
              d.hash[i].(index := ScanHash(s, d.hash[i].field, Members(cs, d.hash[i].cls)))),
            seq(|d.ord|, i requires 0 <= i < |d.ord| =>
              d.ord[i].(entries := ScanOrd(s, d.ord[i].field, Members(cs, d.ord[i].cls)))))
  }

  lemma SnocMembers(ids: seq<Id>)
    requires ids != [] && NoDup(ids)
    ensures NoDup(ids[..|ids| - 1]) && ids[|ids| - 1] !in ids[..|ids| - 1]
    ensures forall id :: id in ids <==> id in ids[..|ids| - 1] || id == ids[|ids| - 1]
  {
    assert ids == ids[..|ids| - 1] + [ids[|ids| - 1]];
  }

  lemma {:induction false} ScanClassesOk(s: State, ids: seq<Id>, c: Text)
    requires NoDup(ids)
    ensures NamesDistinct(ScanClasses(s, ids)) && NoDup(Members(ScanClasses(s, ids), c))
    ensures forall id :: id in Members(ScanClasses(s, ids), c) <==> id in ids && IsClass(s, id, c)
    decreases |ids|
  {
    hide AddMember, Members;
    if ids == [] {
      NoMembers(c);
    } else {
      var front, last := ids[..|ids| - 1], ids[|ids| - 1];
      SnocMembers(ids);
      ScanClassesOk(s, front, c);
      if last in s.heap && s.heap[last].Composite? && s.heap[last].cls != [] {
        AddMemberOk(ScanClasses(s, front), s.heap[last].cls, last, c);
        if s.heap[last].cls == c { AddMembers(Members(ScanClasses(s, front), c), last); }
      }
    }
  }

  lemma NoMembers(c: Text)
    ensures Members([], c) == [] && NamesDistinct([]) && NoDup<Id>([])
  {
  }

  lemma {:induction false} ScanHashOk(s: State, field: Text, ids: seq<Id>, v: Text)
    requires NoDup(ids)
    ensures Valid(ScanHash(s, field, ids)) && NoDup(Items(ScanHash(s, field, ids), v))
    ensures forall id :: id in Items(ScanHash(s, field, ids), v) <==> id in ids && FieldStr(s, id, field) == Some(v)
    decreases |ids|
  {
    hide Insert, Items, Valid, FieldStr;
    if ids == [] {
      EmptyValid(v);
    } else {
      var front, last := ids[..|ids| - 1], ids[|ids| - 1];
      SnocMembers(ids);
      ScanHashOk(s, field, front, v);
      var w := FieldStr(s, last, field);
      if w.Some? {
        InsertItems(ScanHash(s, field, front), w.value, last, v);
        if w.value == v { AddMembers(Items(ScanHash(s, field, front), v), last); }
      }
    }
  }

  lemma {:induction false} ScanOrdOk(s: State, field: Text, ids: seq<Id>, l: seq<Text>)
    requires NoDup(ids)
    ensures Ord.Ordered(ScanOrd(s, field, ids)) && NoDup(Ord.ItemsAt(ScanOrd(s, field, ids), l))
    ensures forall id :: id in Ord.ItemsAt(ScanOrd(s, field, ids), l) <==>
              id in ids && FieldStr(s, id, field).Some? && Dns.Labels(FieldStr(s, id, field).value) == l
    decreases |ids|
  {
    hide Ord.Insert, Ord.ItemsAt, FieldStr, Dns.Labels;
    if ids == [] {
      Ord.ItemsAtNone([], l);
    } else {
      hide Ord.Ordered;
      var front, last := ids[..|ids| - 1], ids[|ids| - 1];
      SnocMembers(ids);
      ScanOrdOk(s, field, front, l);
      var w := FieldStr(s, last, field);
      if w.Some? {
        Ord.InsertOk(ScanOrd(s, field, front), w.value, last, l);
        if Dns.Labels(w.value) == l { AddMembers(Ord.ItemsAt(ScanOrd(s, field, front), l), last); }
      }
    }
  }

  ghost predicate DeclsOk(d: Derived) {
    && (forall i :: 0 <= i < |d.hash| ==> DeclOk(d.hash[i].cls, d.hash[i].field))
    && (forall i :: 0 <= i < |d.ord| ==> DeclOk(d.ord[i].cls, d.ord[i].field))
    && (forall i, j :: 0 <= i < j < |d.hash| ==> d.hash[i].cls != d.hash[j].cls || d.hash[i].field != d.hash[j].field)
    && (forall i, j :: 0 <= i < j < |d.ord| ==> d.ord[i].cls != d.ord[j].cls || d.ord[i].field != d.ord[j].field)
  }

  lemma HashFromList(s: State, cs: seq<ClassList>, d: HashDecl)
    requires ClassAgree(s, cs)
    ensures HashAgree(s, d.(index := ScanHash(s, d.field, Members(cs, d.cls))))
  {
    hide Items, Valid, FieldStr, IsClass, Members, ScanHash;
    var ids := Members(cs, d.cls);
    var d' := d.(index := ScanHash(s, d.field, ids));
    assert ListAgree(s, cs, d.cls);
    forall v: Text ensures ValueAgree(s, d', v) {
      ScanHashOk(s, d.field, ids, v);
    }
    ScanHashOk(s, d.field, ids, []);
  }

  lemma OrdFromList(s: State, cs: seq<ClassList>, d: OrdDecl)
    requires ClassAgree(s, cs)
    ensures OrdAgree(s, d.(entries := ScanOrd(s, d.field, Members(cs, d.cls))))
  {
    hide Ord.ItemsAt, Ord.Ordered, FieldStr, IsClass, Members, ScanOrd, Dns.Labels;
    var ids := Members(cs, d.cls);
    var d' := d.(entries := ScanOrd(s, d.field, ids));
    assert ListAgree(s, cs, d.cls);
    forall l: seq<Text> ensures LabelsAgree(s, d', l) {
      ScanOrdOk(s, d.field, ids, l);
    }
    ScanOrdOk(s, d.field, ids, []);
  }

  /** Rebuilding from the objects restores agreement. */
  lemma RebuildAgree(s: State, d: Derived)
    requires Wf(s) && DeclsOk(d)
    ensures Agree(s, Rebuild(s, d))
  {
    hide Wf, IsClass, Members, ScanClasses, ScanHash, ScanOrd, HashAgree, OrdAgree, DeclOk;
    var cs := ScanClasses(s, s.order);
    TableList(s);
    forall c: Text ensures ListAgree(s, cs, c) {
      ScanClassesOk(s, s.order, c);
    }
    ScanClassesOk(s, s.order, []);
    forall i | 0 <= i < |d.hash| ensures HashAgree(s, Rebuild(s, d).hash[i]) {
      HashFromList(s, cs, d.hash[i]);
    }
    forall i | 0 <= i < |d.ord| ensures OrdAgree(s, Rebuild(s, d).ord[i]) {
      OrdFromList(s, cs, d.ord[i]);
    }
  }

  lemma TableList(s: State)
    requires Wf(s)
    ensures NoDup(s.order) && forall id, c :: IsClass(s, id, c) ==> id in s.order
  {
  }

  // ---- declarations --------------------------------------------------------

  /** Declaring is idempotent and refuses names that do not fit. */
  function DeclareHash(s: State, d: Derived, cls: Text, field: Text): Derived {
    if !DeclOk(cls, field) || FindHash(d.hash, cls, field) < |d.hash| then d
    else d.(hash := d.hash + [HashDecl(cls, field, ScanHash(s, field, Members(d.classes, cls)))])
  }

  function DeclareOrd(s: State, d: Derived, cls: Text, field: Text): Derived {
    if !DeclOk(cls, field) || FindOrd(d.ord, cls, field) < |d.ord| then d
    else d.(ord := d.ord + [OrdDecl(cls, field, ScanOrd(s, field, Members(d.classes, cls)))])
  }

  function DropHash(d: Derived, cls: Text, field: Text): Derived {
    var i, n := FindHash(d.hash, cls, field), |d.hash|;
    if i == n then d else d.(hash := d.hash[i := d.hash[n - 1]][..n - 1])
  }

  function DropOrd(d: Derived, cls: Text, field: Text): Derived {
    var i, n := FindOrd(d.ord, cls, field), |d.ord|;
    if i == n then d else d.(ord := d.ord[i := d.ord[n - 1]][..n - 1])
  }

  /** A declaration is added behind the others if its names fit and it is new; dropping
      one takes exactly it away. */
  lemma DeclareEffect(s: State, d: Derived, cls: Text, field: Text)
    ensures var x := DeclareHash(s, d, cls, field);
            if 0 < |cls| < 64 && 0 < |field| < 64 && (forall i :: 0 <= i < |d.hash| ==> !(d.hash[i].cls == cls && d.hash[i].field == field))
            then |x.hash| == |d.hash| + 1 && x == Derived(d.classes, d.hash + [x.hash[|d.hash|]], d.ord)
                 && x.hash[|d.hash|].cls == cls && x.hash[|d.hash|].field == field
            else x == d
    ensures var x := DeclareOrd(s, d, cls, field);
            if 0 < |cls| < 64 && 0 < |field| < 64 && (forall i :: 0 <= i < |d.ord| ==> !(d.ord[i].cls == cls && d.ord[i].field == field))
            then |x.ord| == |d.ord| + 1 && x == Derived(d.classes, d.hash, d.ord + [x.ord[|d.ord|]])
                 && x.ord[|d.ord|].cls == cls && x.ord[|d.ord|].field == field
            else x == d
  {
    hide FindHash, FindOrd, ScanHash, ScanOrd, Members;
  }

  lemma DropEffect(d: Derived, cls: Text, field: Text)
    requires DeclsOk(d)
    ensures var x := DropHash(d, cls, field);
            && x.classes == d.classes && x.ord == d.ord
            && forall h :: h in x.hash <==> h in d.hash && !(h.cls == cls && h.field == field)
    ensures var x := DropOrd(d, cls, field);
            && x.classes == d.classes && x.hash == d.hash
            && forall o :: o in x.ord <==> o in d.ord && !(o.cls == cls && o.field == field)
  {
    hide FindHash, FindOrd;
    var hs, os := d.hash, d.ord;
    DropMembers(hs, FindHash(hs, cls, field), DropHash(d, cls, field).hash);
    DropMembers(os, FindOrd(os, cls, field), DropOrd(d, cls, field).ord);
  }

  lemma DropMembers<T>(xs: seq<T>, i: nat, ys: seq<T>)
    requires i <= |xs| && (i == |xs| ==> ys == xs) && (i < |xs| ==> ys == xs[i := xs[|xs| - 1]][..|xs| - 1])
    requires forall a, b :: 0 <= a < b < |xs| ==> xs[a] != xs[b]
    ensures forall x :: x in ys <==> x in xs && (i < |xs| ==> x != xs[i])
  {
    forall x | x in xs && (i < |xs| ==> x != xs[i]) ensures x in ys {
      var k :| 0 <= k < |xs| && xs[k] == x;
      if i < |xs| { if k == |xs| - 1 { assert ys[i] == x; } else { assert ys[k] == x; } }
    }
    forall x | x in ys ensures x in xs && (i < |xs| ==> x != xs[i]) {
      var k :| 0 <= k < |ys| && ys[k] == x;
    }
  }

  lemma DeclareAgree(s: State, d: Derived, cls: Text, field: Text)
    requires Agree(s, d)
    ensures Agree(s, DeclareHash(s, d, cls, field)) && Agree(s, DeclareOrd(s, d, cls, field))
  {
    hide FindHash, FindOrd, Members, ScanHash, ScanOrd, HashAgree, OrdAgree, ClassAgree, DeclOk;
    HashFromList(s, d.classes, HashDecl(cls, field, EMPTY));
    OrdFromList(s, d.classes, OrdDecl(cls, field, []));
  }

  lemma DropAgree(s: State, d: Derived, cls: Text, field: Text)
    requires Agree(s, d)
    ensures Agree(s, DropHash(d, cls, field)) && Agree(s, DropOrd(d, cls, field))
  {
    hide FindHash, FindOrd, HashAgree, OrdAgree, ClassAgree, DeclOk;
  }

  // ---- set_str -------------------------------------------------------------

  /** The field of an object refers to this object. */
  predicate Refers(s: State, o: Id, field: Text, id: Id) {
    && o in s.heap && s.heap[o].Composite?
    && FindKey(s.heap[o].fields, field) < |s.heap[o].fields|
    && s.heap[o].fields[FindKey(s.heap[o].fields, field)].value == id
  }

  /** The string is not held in an indexed field, unless nothing changes there. */
  ghost predicate Unindexed(s: State, d: Derived, id: Id, v: Text)
    requires id in s.heap && s.heap[id].StrVal?
  {
    && (forall i, o :: 0 <= i < |d.hash| && IsClass(s, o, d.hash[i].cls) && Refers(s, o, d.hash[i].field, id)
                       ==> s.heap[id].s == v)
    && (forall i, o :: 0 <= i < |d.ord| && IsClass(s, o, d.ord[i].cls) && Refers(s, o, d.ord[i].field, id)
                       ==> Dns.Labels(s.heap[id].s) == Dns.Labels(v))
  }

  lemma StrScan(s: State, id: Id, v: Text, o: Id, f: Text, c: Text)
    requires id in s.heap && s.heap[id].StrVal?
    ensures var t := Put(s, id, StrVal(v));
            && IsClass(t, o, c) == IsClass(s, o, c)
            && FieldStr(t, o, f) == (if Refers(s, o, f, id) then Some(v) else FieldStr(s, o, f))
            && (Refers(s, o, f, id) ==> FieldStr(s, o, f) == Some(s.heap[id].s))
  {
    hide FindKey;
  }

  lemma HashAfterStr(s: State, d: HashDecl, id: Id, v: Text)
    requires HashAgree(s, d) && id in s.heap && s.heap[id].StrVal?
    ensures HashAgree(Put(s, id, StrVal(v)), d) <==>
            forall o :: IsClass(s, o, d.cls) && Refers(s, o, d.field, id) ==> s.heap[id].s == v
  {
    hide FieldStr, IsClass, Refers, Items, Valid, Put;
    var t := Put(s, id, StrVal(v));
    forall o
      ensures IsClass(t, o, d.cls) == IsClass(s, o, d.cls)
      ensures FieldStr(t, o, d.field) == if Refers(s, o, d.field, id) then Some(v) else FieldStr(s, o, d.field)
      ensures Refers(s, o, d.field, id) ==> FieldStr(s, o, d.field) == Some(s.heap[id].s)
    {
      StrScan(s, id, v, o, d.field, d.cls);
    }
    if forall o :: IsClass(s, o, d.cls) && Refers(s, o, d.field, id) ==> s.heap[id].s == v {
      forall w: Text ensures ValueAgree(t, d, w) { assert ValueAgree(s, d, w); }
    } else {
      assert ValueAgree(s, d, s.heap[id].s);
      assert !ValueAgree(t, d, s.heap[id].s);
    }
  }

  lemma OrdAfterStr(s: State, d: OrdDecl, id: Id, v: Text)
    requires OrdAgree(s, d) && id in s.heap && s.heap[id].StrVal?
    ensures OrdAgree(Put(s, id, StrVal(v)), d) <==>
            forall o :: IsClass(s, o, d.cls) && Refers(s, o, d.field, id) ==> Dns.Labels(s.heap[id].s) == Dns.Labels(v)
  {
    hide FieldStr, IsClass, Refers, Ord.ItemsAt, Ord.Ordered, Put, Dns.Labels;
    var t := Put(s, id, StrVal(v));
    forall o
      ensures IsClass(t, o, d.cls) == IsClass(s, o, d.cls)
      ensures FieldStr(t, o, d.field) == if Refers(s, o, d.field, id) then Some(v) else FieldStr(s, o, d.field)
      ensures Refers(s, o, d.field, id) ==> FieldStr(s, o, d.field) == Some(s.heap[id].s)
    {
      StrScan(s, id, v, o, d.field, d.cls);
    }
    if forall o :: IsClass(s, o, d.cls) && Refers(s, o, d.field, id) ==> Dns.Labels(s.heap[id].s) == Dns.Labels(v) {
      forall l: seq<Text> ensures LabelsAgree(t, d, l) { assert LabelsAgree(s, d, l); }
    } else {
      var o :| IsClass(s, o, d.cls) && Refers(s, o, d.field, id);
      var l := Dns.Labels(s.heap[id].s);
      assert LabelsAgree(s, d, l) && Holds(s, o, d.cls, d.field, l) && !Holds(t, o, d.cls, d.field, l);
      assert !LabelsAgree(t, d, l);
    }
  }

  /** set_str does not maintain indexes: agreement survives exactly when the
      string is in no indexed field whose value it would change. */
  lemma SetStrExact(s: State, d: Derived, id: Id, v: Text)
    requires Agree(s, d) && id in s.heap && s.heap[id].StrVal?
    ensures Agree(Put(s, id, StrVal(v)), d) <==> Unindexed(s, d, id, v)
  {
    hide FieldStr, IsClass, Refers, HashAgree, OrdAgree, ClassAgree, Put, Dns.Labels, DeclOk;
    var t := Put(s, id, StrVal(v));
    forall o, c ensures IsClass(t, o, c) == IsClass(s, o, c) { StrScan(s, id, v, o, [], c); }
    ClassUntouched(s, t, d.classes);
    forall i | 0 <= i < |d.hash|
      ensures HashAgree(t, d.hash[i]) <==>
              forall o :: IsClass(s, o, d.hash[i].cls) && Refers(s, o, d.hash[i].field, id) ==> s.heap[id].s == v
    {
      HashAfterStr(s, d.hash[i], id, v);
    }
    forall i | 0 <= i < |d.ord|
      ensures OrdAgree(t, d.ord[i]) <==>
              forall o :: IsClass(s, o, d.ord[i].cls) && Refers(s, o, d.ord[i].field, id)
                          ==> Dns.Labels(s.heap[id].s) == Dns.Labels(v)
    {
      OrdAfterStr(s, d.ord[i], id, v);
    }
  }

  /** One object of class "c" whose field "f" is the string "a". */
  const SMALL := State([1, 2], map[1 := Composite([99], [Field([102], 2)]), 2 := StrVal([97])], 3, [], {})

  lemma SmallWf()
    ensures Wf(SMALL) && IsClass(SMALL, 1, [99]) && Refers(SMALL, 1, [102], 2)
  {
    assert FindKey([Field([102], 2)], [102]) == 0;
    assert BodyOk(SMALL, SMALL.heap[1]) && BodyOk(SMALL, SMALL.heap[2]);
    hide FindKey;
  }

  /** A string in an indexed field, rewritten in place: the index goes stale. */
  lemma SetStrStale()
    ensures var d := Rebuild(SMALL, Derived([], [HashDecl([99], [102], EMPTY)], []));
            Agree(SMALL, d) && !Agree(Put(SMALL, 2, StrVal([98])), d)
  {
    hide Agree, ScanClasses, ScanHash, Members, Wf, IsClass, Refers;
    var d0 := Derived([], [HashDecl([99], [102], EMPTY)], []);
    var d := Rebuild(SMALL, d0);
    SmallWf();
    RebuildAgree(SMALL, d0);
    SetStrExact(SMALL, d, 2, [98]);
    assert IsClass(SMALL, 1, d.hash[0].cls) && Refers(SMALL, 1, d.hash[0].field, 2);
  }

  // ---- keys that do not fit ------------------------------------------------

  /** No index would start to see a string under the truncated key. */
  ghost predicate Unseen(s: State, d: Derived, id: Id, key: Text, ref: Id)
    requires id in s.heap && s.heap[id].Composite?
  {
    StrOf(s, ref).Some? && FindKey(s.heap[id].fields, Trunc(key)) == |s.heap[id].fields| ==>
      && (forall i :: 0 <= i < |d.hash| ==> !(IsClass(s, id, d.hash[i].cls) && d.hash[i].field == Trunc(key)))
      && (forall i :: 0 <= i < |d.ord| ==> !(IsClass(s, id, d.ord[i].cls) && d.ord[i].field == Trunc(key)))
  }

  lemma LongFieldStr(s: State, id: Id, key: Text, ref: Id, o: Id, f: Text)
    requires Wf(s) && id in s.heap && s.heap[id].Composite? && |key| >= MAX_KEY
    ensures var fs := s.heap[id].fields;
            var t := Put(s, id, s.heap[id].(fields := PutField(fs, key, ref)));
            FieldStr(t, o, f) == if o == id && f == Trunc(key) && FindKey(fs, f) == |fs| then StrOf(s, ref)
                                 else FieldStr(s, o, f)
  {
    hide FindKey, RootsOk, Refs;
    var fs := s.heap[id].fields;
    assert BodyOk(s, s.heap[id]);
    var fs' := PutField(fs, key, ref);
    assert FindKey(fs, key) == |fs| && fs' == fs + [Field(Trunc(key), ref)];
    if o == id {
      var k := FindKey(fs, f);
      FindKeyIs(fs', f, if k < |fs| || f == Trunc(key) then k else |fs'|);
    }
  }

  /** set_field under a key of 64 bytes or more maintains no index: agreement
      survives exactly when no index is declared on what the key becomes, the
      field was there before, or no string is stored. */
  lemma LongFieldExact(s: State, d: Derived, id: Id, key: Text, ref: Id)
    requires Wf(s) && Agree(s, d) && id in s.heap && s.heap[id].Composite? && |key| >= MAX_KEY
    ensures var t := Put(s, id, s.heap[id].(fields := PutField(s.heap[id].fields, key, ref)));
            FieldDerived(s, d, id, key, ref) == d && (Agree(t, d) <==> Unseen(s, d, id, key, ref))
  {
    hide Wf, FieldStr, StrOf, PutField, FindHash, FindOrd, FindKey, HashAgree, OrdAgree, ClassAgree;
    var t := Put(s, id, s.heap[id].(fields := PutField(s.heap[id].fields, key, ref)));
    var fresh_ := FindKey(s.heap[id].fields, Trunc(key)) == |s.heap[id].fields|;
    var w := StrOf(s, ref);
    assert forall o, c :: IsClass(t, o, c) == IsClass(s, o, c);
    forall o, f
      ensures FieldStr(t, o, f) == if o == id && f == Trunc(key) && fresh_ then w else FieldStr(s, o, f)
    {
      LongFieldStr(s, id, key, ref, o, f);
    }
    ClassUntouched(s, t, d.classes);
    if fresh_ { FieldStrAbsent(s, id, Trunc(key)); }
    forall i | 0 <= i < |d.hash|
      ensures HashAgree(t, d.hash[i]) <==> !(fresh_ && w.Some? && IsClass(s, id, d.hash[i].cls) && d.hash[i].field == Trunc(key))
    {
      if fresh_ && w.Some? && IsClass(s, id, d.hash[i].cls) && d.hash[i].field == Trunc(key) {
        HashMissing(s, t, d.hash[i], id, w.value);
      } else {
        HashSameScan(s, t, d.hash[i]);
      }
    }
    forall i | 0 <= i < |d.ord|
      ensures OrdAgree(t, d.ord[i]) <==> !(fresh_ && w.Some? && IsClass(s, id, d.ord[i].cls) && d.ord[i].field == Trunc(key))
    {
      if fresh_ && w.Some? && IsClass(s, id, d.ord[i].cls) && d.ord[i].field == Trunc(key) {
        OrdMissing(s, t, d.ord[i], id, w.value);
      } else {
        OrdSameScan(s, t, d.ord[i]);
      }
    }
  }

  /** Any key of 64 bytes or more, and an index declared on what it becomes: an object
      of the class gets a string under that key that the index never hears of. */
  lemma LongFieldStale(key: Text)
    requires |key| >= MAX_KEY
    ensures var s := State([1, 2], map[1 := Composite([99], []), 2 := StrVal([97])], 3, [], {});
            var d := Rebuild(s, Derived([], [HashDecl([99], Trunc(key), EMPTY)], []));
            var t := Apply(s, SetField(1, key, 2)).state;
            Wf(s) && Agree(s, d) && FieldDerived(s, d, 1, key, 2) == d && !Agree(t, d)
  {
    hide Agree, ScanClasses, ScanHash, Members, IsClass, PutField, FieldDerived;
    var s := State([1, 2], map[1 := Composite([99], []), 2 := StrVal([97])], 3, [], {});
    var d0 := Derived([], [HashDecl([99], Trunc(key), EMPTY)], []);
    var d := Rebuild(s, d0);
    assert BodyOk(s, s.heap[1]) && BodyOk(s, s.heap[2]);
    RebuildAgree(s, d0);
    LongFieldExact(s, d, 1, key, 2);
    assert IsClass(s, 1, d.hash[0].cls) by { OfClass(s); }
  }

  lemma OfClass(s: State)
    requires 1 in s.heap && s.heap[1] == Composite([99], [])
    ensures IsClass(s, 1, [99])
  {
  }

  lemma FieldStrAbsent(s: State, id: Id, f: Text)
    requires id in s.heap && s.heap[id].Composite? && FindKey(s.heap[id].fields, f) == |s.heap[id].fields|
    ensures FieldStr(s, id, f) == None
  {
  }

  /** An object that shows a string the index has not been told of. */
  lemma HashMissing(s: State, t: State, d: HashDecl, id: Id, v: Text)
    requires HashAgree(s, d) && FieldStr(s, id, d.field) == None
    requires IsClass(t, id, d.cls) && FieldStr(t, id, d.field) == Some(v)
    ensures !HashAgree(t, d)
  {
    hide IsClass, FieldStr, Items, Valid;
    assert ValueAgree(s, d, v);
    assert !ValueAgree(t, d, v);
  }

  lemma OrdMissing(s: State, t: State, d: OrdDecl, id: Id, v: Text)
    requires OrdAgree(s, d) && FieldStr(s, id, d.field) == None
    requires IsClass(t, id, d.cls) && FieldStr(t, id, d.field) == Some(v)
    ensures !OrdAgree(t, d)
  {
    hide IsClass, FieldStr, Ord.ItemsAt, Ord.Ordered, Dns.Labels;
    var l := Dns.Labels(v);
    assert LabelsAgree(s, d, l);
    assert Holds(t, id, d.cls, d.field, l) && !LabelsAgree(t, d, l);
  }

  lemma HashSameScan(s: State, t: State, d: HashDecl)
    requires HashAgree(s, d) && forall o :: IsClass(t, o, d.cls) == IsClass(s, o, d.cls)
    requires forall o :: IsClass(s, o, d.cls) ==> FieldStr(t, o, d.field) == FieldStr(s, o, d.field)
    ensures HashAgree(t, d)
  {
    hide IsClass, FieldStr, Items, Valid;
    forall v: Text ensures ValueAgree(t, d, v) { assert ValueAgree(s, d, v); }
  }

  lemma OrdSameScan(s: State, t: State, d: OrdDecl)
    requires OrdAgree(s, d) && forall o :: IsClass(t, o, d.cls) == IsClass(s, o, d.cls)
    requires forall o :: IsClass(s, o, d.cls) ==> FieldStr(t, o, d.field) == FieldStr(s, o, d.field)
    ensures OrdAgree(t, d)
  {
    hide IsClass, FieldStr, Ord.ItemsAt, Ord.Ordered, Dns.Labels;
    forall l: seq<Text> ensures LabelsAgree(t, d, l) { assert LabelsAgree(s, d, l); }
  }
}
