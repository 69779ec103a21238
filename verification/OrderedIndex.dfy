/** A declared ordered index: one array of entries kept in canonical name order,
    searched by bisection. */
module OrderedIndex {
  import opened Bytes
  import opened Graph
  import opened HashIndex
  import Dns = DnsOrder

  // ---- order and search ----------------------------------------------------

  ghost predicate Sorted(es: seq<Entry>) {
    forall i, j :: 0 <= i < j < |es| ==> Dns.CmpNames(es[i].value, es[j].value) < 0
  }

  /** Strictly sorted, and no value is kept without objects. */
  ghost predicate Ordered(es: seq<Entry>) {
    Sorted(es) && forall i :: 0 <= i < |es| ==> es[i].items != []
  }

  /** First entry not before `v`, or the number of entries. */
  function Pos(es: seq<Entry>, v: Text): (i: nat)
    ensures i <= |es|
    ensures forall j :: 0 <= j < i ==> Dns.CmpNames(es[j].value, v) < 0
    ensures i < |es| ==> Dns.CmpNames(es[i].value, v) >= 0
  {
    if es == [] || Dns.CmpNames(es[0].value, v) >= 0 then 0 else 1 + Pos(es[1..], v)
  }

  predicate Found(es: seq<Entry>, v: Text) {
    Pos(es, v) < |es| && Dns.CmpNames(es[Pos(es, v)].value, v) == 0
  }

  lemma PosIs(es: seq<Entry>, v: Text, i: nat)
    requires i <= |es| && (i < |es| ==> Dns.CmpNames(es[i].value, v) >= 0)
    requires forall j :: 0 <= j < i ==> Dns.CmpNames(es[j].value, v) < 0
    ensures Pos(es, v) == i
  {
    hide Dns.CmpNames;
  }

  /** Past the insertion point every entry is after `v`. */
  lemma AfterPos(es: seq<Entry>, v: Text, j: nat)
    requires Sorted(es) && Pos(es, v) <= j < |es|
    ensures Dns.CmpNames(es[j].value, v) >= 0
    ensures j > Pos(es, v) ==> Dns.CmpNames(es[j].value, v) > 0
  {
    hide Pos, Dns.CmpNames;
    var i := Pos(es, v);
    if i < j {
      Dns.NameOrder(es[i].value, v); Dns.NameOrder(es[j].value, v); Dns.NameOrder(es[i].value, es[j].value);
      Dns.NameTrans(v, es[i].value, es[j].value);
    }
  }

  method Compare(a: Text, b: Text) returns (c: int)
    ensures c == Dns.CmpNames(a, b)
  {
    c := Dns.CompareNames(a, b);
  }

  /** Bisection finds the first entry not before the probe. */
  method BinarySearch(es: seq<Entry>, v: Text) returns (found: bool, pos: nat)
    requires Sorted(es)
    ensures pos == Pos(es, v) && found == Found(es, v)
  {
    hide Pos, Dns.CmpNames;
    var lo, hi := 0, |es|;
    while lo < hi
      invariant 0 <= lo <= hi <= |es|
      invariant forall j :: 0 <= j < lo ==> Dns.CmpNames(es[j].value, v) < 0
      invariant forall j :: hi <= j < |es| ==> Dns.CmpNames(es[j].value, v) > 0
    {
      var mid := lo + (hi - lo) / 2;
      var c := Compare(es[mid].value, v);
      BothSides(es, mid, v);
      if c == 0 {
        PosIs(es, v, mid);
        return true, mid;
      }
      if c < 0 { lo := mid + 1; } else { hi := mid; }
    }
    PosIs(es, v, lo);
    return false, lo;
  }

  lemma BothSides(es: seq<Entry>, m: nat, v: Text)
    requires Sorted(es) && m < |es|
    ensures Dns.CmpNames(es[m].value, v) <= 0 ==> forall j :: 0 <= j < m ==> Dns.CmpNames(es[j].value, v) < 0
    ensures Dns.CmpNames(es[m].value, v) >= 0 ==> forall j :: m < j < |es| ==> Dns.CmpNames(es[j].value, v) > 0
  {
    hide Dns.CmpNames;
    if Dns.CmpNames(es[m].value, v) <= 0 {
      forall j | 0 <= j < m ensures Dns.CmpNames(es[j].value, v) < 0 {
        Dns.NameTrans(es[j].value, es[m].value, v);
      }
    }
    if Dns.CmpNames(es[m].value, v) >= 0 {
      forall j | m < j < |es| ensures Dns.CmpNames(es[j].value, v) > 0 {
        Dns.NameOrder(es[m].value, v); Dns.NameOrder(es[j].value, v);
        Dns.NameTrans(v, es[m].value, es[j].value);
      }
    }
  }

  // ---- insert and remove ---------------------------------------------------

  /** The array with one entry more at position p. */
  function Splice(es: seq<Entry>, p: nat, e: Entry): (r: seq<Entry>)
    requires p <= |es|
    ensures |r| == |es| + 1 && r[p] == e
    ensures forall k :: 0 <= k < p ==> r[k] == es[k]
    ensures forall k :: p <= k < |es| ==> r[k + 1] == es[k]
  {
    es[..p] + [e] + es[p..]
  }

  function Insert(es: seq<Entry>, v: Text, o: Id): seq<Entry> {
    var i := Pos(es, v);
    if Found(es, v) then es[i := Entry(es[i].value, es[i].items + [o])]
    else Splice(es, i, Entry(v, [o]))
  }

  /** The entry goes when its last object goes. */
  function Remove(es: seq<Entry>, v: Text, o: Id): seq<Entry> {
    var i := Pos(es, v);
    if !Found(es, v) then es
    else
      var items := SwapPop(es[i].items, o);
      if items == [] then es[..i] + es[i + 1..] else es[i := Entry(es[i].value, items)]
  }

  /** The objects filed under a label sequence, as a scan would find them. */
  function ItemsAt(es: seq<Entry>, labels: seq<Text>): seq<Id> {
    if es == [] then []
    else if Dns.Labels(es[0].value) == labels then es[0].items
    else ItemsAt(es[1..], labels)
  }

  lemma {:induction false} ItemsAtConcat(a: seq<Entry>, b: seq<Entry>, labels: seq<Text>)
    ensures (forall i :: 0 <= i < |a| ==> Dns.Labels(a[i].value) != labels) ==> ItemsAt(a + b, labels) == ItemsAt(b, labels)
    ensures (exists i :: 0 <= i < |a| && Dns.Labels(a[i].value) == labels) ==> ItemsAt(a + b, labels) == ItemsAt(a, labels)
  {
    hide Dns.Labels;
    if a == [] {
      assert a + b == b;
    } else {
      assert (a + b)[0] == a[0] && (a + b)[1..] == a[1..] + b;
      ItemsAtConcat(a[1..], b, labels);
    }
  }

  /** In a sorted array the entry of a label sequence is unique. */
  lemma ItemsAtIndex(es: seq<Entry>, i: nat)
    requires Sorted(es) && i < |es|
    ensures ItemsAt(es, Dns.Labels(es[i].value)) == es[i].items
  {
    hide Dns.Labels, Dns.CmpNames;
    var l := Dns.Labels(es[i].value);
    assert es == es[..i] + es[i..];
    forall j | 0 <= j < i ensures Dns.Labels(es[..i][j].value) != l {
      Dns.NameOrder(es[j].value, es[i].value);
    }
    ItemsAtConcat(es[..i], es[i..], l);
  }

  lemma {:induction false} ItemsAtNone(es: seq<Entry>, labels: seq<Text>)
    requires forall i :: 0 <= i < |es| ==> Dns.Labels(es[i].value) != labels
    ensures ItemsAt(es, labels) == []
  {
    hide Dns.Labels;
    if es != [] { ItemsAtNone(es[1..], labels); }
  }

  lemma FoundLabels(es: seq<Entry>, v: Text)
    requires Sorted(es)
    ensures Found(es, v) ==> Dns.Labels(es[Pos(es, v)].value) == Dns.Labels(v)
    ensures Found(es, v) <==> exists i :: 0 <= i < |es| && Dns.Labels(es[i].value) == Dns.Labels(v)
  {
    hide Pos, Dns.CmpNames, Dns.Labels;
    var p := Pos(es, v);
    if p < |es| { Dns.NameOrder(es[p].value, v); }
    if exists i :: 0 <= i < |es| && Dns.Labels(es[i].value) == Dns.Labels(v) {
      var i :| 0 <= i < |es| && Dns.Labels(es[i].value) == Dns.Labels(v);
      Dns.NameOrder(es[i].value, v);
      if i > p { AfterPos(es, v, i); }
    }
  }

  lemma ReplaceOk(es: seq<Entry>, i: nat, items: seq<Id>, labels: seq<Text>)
    requires Ordered(es) && i < |es| && items != []
    ensures var es' := es[i := Entry(es[i].value, items)];
            Ordered(es') && ItemsAt(es', labels) == if labels == Dns.Labels(es[i].value) then items else ItemsAt(es, labels)
  {
    hide Dns.CmpNames, Dns.Labels, ItemsAt;
    var es' := es[i := Entry(es[i].value, items)];
    assert Sorted(es');
    ItemsAtIndex(es', i);
    if k :| 0 <= k < |es| && Dns.Labels(es[k].value) == labels {
      ItemsAtIndex(es, k); ItemsAtIndex(es', k);
    } else {
      ItemsAtNone(es, labels); ItemsAtNone(es', labels);
    }
  }

  lemma SpliceSorted(es: seq<Entry>, v: Text, e: Entry)
    requires Sorted(es) && !Found(es, v) && e.value == v
    ensures Sorted(Splice(es, Pos(es, v), e))
  {
    hide Dns.CmpNames, Pos, Splice;
    var p := Pos(es, v);
    var es' := Splice(es, p, e);
    forall i, j | 0 <= i < j < |es'| ensures Dns.CmpNames(es'[i].value, es'[j].value) < 0 {
      if j > p {
        assert es'[j] == es[j - 1];
        if i == p { AfterPos(es, v, j - 1); Dns.NameOrder(es[j - 1].value, v); }
        else if i > p { assert es'[i] == es[i - 1]; }
      }
    }
  }

  lemma SpliceOk(es: seq<Entry>, v: Text, o: Id, labels: seq<Text>)
    requires Ordered(es) && !Found(es, v)
    ensures var es' := Splice(es, Pos(es, v), Entry(v, [o]));
            Ordered(es') && ItemsAt(es', labels) == if labels == Dns.Labels(v) then [o] else ItemsAt(es, labels)
  {
    hide Dns.CmpNames, Dns.Labels, ItemsAt, Pos, Splice, Sorted, Found;
    var p := Pos(es, v);
    var es' := Splice(es, p, Entry(v, [o]));
    SpliceSorted(es, v, Entry(v, [o]));
    forall k | 0 <= k < |es'| ensures es'[k].items != [] {
      if k > p { assert es'[k] == es[k - 1]; }
    }
    FoundLabels(es, v);
    ItemsAtIndex(es', p);
    if labels != Dns.Labels(v) {
      if k :| 0 <= k < |es| && Dns.Labels(es[k].value) == labels {
        ItemsAtIndex(es, k);
        ItemsAtIndex(es', if k < p then k else k + 1);
      } else {
        forall k | 0 <= k < |es'| ensures Dns.Labels(es'[k].value) != labels {
          if k > p { assert es'[k] == es[k - 1]; }
        }
        ItemsAtNone(es, labels); ItemsAtNone(es', labels);
      }
    }
  }

  /** Inserting files one more object under the labels of its value. */
  lemma InsertOk(es: seq<Entry>, v: Text, o: Id, labels: seq<Text>)
    requires Ordered(es)
    ensures Ordered(Insert(es, v, o))
    ensures ItemsAt(Insert(es, v, o), labels) ==
            if labels == Dns.Labels(v) then ItemsAt(es, labels) + [o] else ItemsAt(es, labels)
  {
    hide Dns.CmpNames, Dns.Labels, ItemsAt, Pos, Found;
    FoundLabels(es, v);
    if Found(es, v) {
      FoundPos(es, v);
      var i := Pos(es, v);
      ItemsAtIndex(es, i);
      ReplaceOk(es, i, es[i].items + [o], labels);
    } else {
      SpliceOk(es, v, o, labels);
      if labels == Dns.Labels(v) { ItemsAtNone(es, labels); }
    }
  }

  lemma FoundPos(es: seq<Entry>, v: Text)
    requires Found(es, v)
    ensures Pos(es, v) < |es|
  {
  }

  lemma DropOk(es: seq<Entry>, i: nat, labels: seq<Text>)
    requires Ordered(es) && i < |es|
    ensures var es' := es[..i] + es[i + 1..];
            Ordered(es') && ItemsAt(es', labels) == if labels == Dns.Labels(es[i].value) then [] else ItemsAt(es, labels)
  {
    hide Dns.CmpNames, Dns.Labels, ItemsAt;
    var es' := es[..i] + es[i + 1..];
    assert forall j :: 0 <= j < |es'| ==> es'[j] == es[if j < i then j else j + 1];
    assert Sorted(es');
    if k :| 0 <= k < |es| && k != i && Dns.Labels(es[k].value) == labels {
      Dns.NameOrder(es[k].value, es[i].value);
      Dns.NameOrder(es[i].value, es[k].value);
      ItemsAtIndex(es, k);
      ItemsAtIndex(es', if k < i then k else k - 1);
    } else {
      ItemsAtNone(es', labels);
      if labels != Dns.Labels(es[i].value) { ItemsAtNone(es, labels); }
    }
  }

  /** Removing takes one occurrence out, and the entry with its last object. */
  lemma RemoveOk(es: seq<Entry>, v: Text, o: Id, labels: seq<Text>)
    requires Ordered(es)
    ensures Ordered(Remove(es, v, o))
    ensures ItemsAt(Remove(es, v, o), labels) ==
            if labels == Dns.Labels(v) then SwapPop(ItemsAt(es, labels), o) else ItemsAt(es, labels)
  {
    hide Dns.CmpNames, Dns.Labels, ItemsAt, Pos, Found, FindItem;
    FoundLabels(es, v);
    if Found(es, v) {
      FoundPos(es, v);
      var i := Pos(es, v);
      ItemsAtIndex(es, i);
      var items := SwapPop(es[i].items, o);
      if items == [] { DropOk(es, i, labels); } else { ReplaceOk(es, i, items, labels); }
    } else if labels == Dns.Labels(v) {
      ItemsAtNone(es, labels);
    }
  }

  // ---- successor, predecessor, range ---------------------------------------

  /** Index of the entry after the probe, or the number of entries. */
  function SuccIndex(es: seq<Entry>, v: Text): nat {
    if Found(es, v) then Pos(es, v) + 1 else Pos(es, v)
  }

  /** The successor is the nearest entry strictly after any probe, and there is
      none exactly when no entry is after it. */
  lemma SuccNearest(es: seq<Entry>, v: Text)
    requires Sorted(es)
    ensures SuccIndex(es, v) <= |es|
    ensures forall j :: 0 <= j < |es| ==> (Dns.CmpNames(es[j].value, v) > 0 <==> j >= SuccIndex(es, v))
  {
    hide Pos, Dns.CmpNames;
    forall j | 0 <= j < |es| ensures Dns.CmpNames(es[j].value, v) > 0 <==> j >= SuccIndex(es, v) {
      if j >= Pos(es, v) { AfterPos(es, v, j); }
    }
  }

  /** The predecessor is the nearest entry strictly before any probe. */
  lemma PredNearest(es: seq<Entry>, v: Text)
    requires Sorted(es)
    ensures forall j :: 0 <= j < |es| ==> (Dns.CmpNames(es[j].value, v) < 0 <==> j < Pos(es, v))
  {
    hide Pos, Dns.CmpNames;
    forall j | 0 <= j < |es| ensures Dns.CmpNames(es[j].value, v) < 0 <==> j < Pos(es, v) {
      if j >= Pos(es, v) { AfterPos(es, v, j); }
    }
  }

  /** The object returned for the name after, or before, the probe. */
  method Succ(es: seq<Entry>, v: Text) returns (r: Option<Id>)
    requires Ordered(es)
    ensures r.None? <==> forall j :: 0 <= j < |es| ==> Dns.CmpNames(es[j].value, v) <= 0
    ensures r.Some? ==> exists i ::
              && 0 <= i < |es| && r.value in es[i].items && Dns.CmpNames(es[i].value, v) > 0
              && forall j :: 0 <= j < i ==> Dns.CmpNames(es[j].value, v) <= 0
  {
    hide Pos, Dns.CmpNames;
    var found, pos := BinarySearch(es, v);
    var next := if found then pos + 1 else pos;
    SuccNearest(es, v);
    if next < |es| {
      r := Some(es[next].items[0]);
      assert Dns.CmpNames(es[next].value, v) > 0;
    } else {
      r := None;
    }
  }

  method Pred(es: seq<Entry>, v: Text) returns (r: Option<Id>)
    requires Ordered(es)
    ensures r.None? <==> forall j :: 0 <= j < |es| ==> Dns.CmpNames(es[j].value, v) >= 0
    ensures r.Some? ==> exists i ::
              && 0 <= i < |es| && r.value in es[i].items && Dns.CmpNames(es[i].value, v) < 0
              && forall j :: i < j < |es| ==> Dns.CmpNames(es[j].value, v) >= 0
  {
    hide Pos, Dns.CmpNames;
    var _, pos := BinarySearch(es, v);
    PredNearest(es, v);
    if pos > 0 {
      r := Some(es[pos - 1].items[0]);
      assert Dns.CmpNames(es[pos - 1].value, v) < 0;
    } else {
      r := None;
    }
  }

  /** Objects of the entries in order. */
  function AllItems(es: seq<Entry>): seq<Id> {
    if es == [] then [] else AllItems(es[..|es| - 1]) + es[|es| - 1].items
  }

  /** A range visit is the objects of exactly the entries in [lo, hi], ascending. */
  method Range(es: seq<Entry>, lo: Text, hi: Text) returns (visited: seq<Id>, ghost a: nat, ghost b: nat)
    requires Ordered(es)
    ensures a <= b <= |es| && visited == AllItems(es[a..b])
    ensures forall j :: 0 <= j < |es| ==>
              (Dns.CmpNames(es[j].value, lo) >= 0 && Dns.CmpNames(es[j].value, hi) <= 0 <==> a <= j < b)
  {
    hide Pos, Dns.CmpNames, AllItems;
    var _, start := BinarySearch(es, lo);
    var exact, end := BinarySearch(es, hi);
    if exact { end := end + 1; }
    visited := [];
    PredNearest(es, lo);
    SuccNearest(es, hi);
    assert end == SuccIndex(es, hi);
    if start >= end {
      a, b := 0, 0;
      assert es[0..0] == [];
      NoItems();
      forall j | 0 <= j < |es|
        ensures !(Dns.CmpNames(es[j].value, lo) >= 0 && Dns.CmpNames(es[j].value, hi) <= 0)
      {
        assert Dns.CmpNames(es[j].value, lo) < 0 <==> j < start;
        assert Dns.CmpNames(es[j].value, hi) > 0 <==> j >= end;
      }
      return;
    }
    a, b := start, end;
    assert es[start..start] == [];
    NoItems();
    for i := start to end
      invariant visited == AllItems(es[start..i])
    {
      MoreItems(es[start..i], es[i]);
      assert es[start..i + 1] == es[start..i] + [es[i]];
      visited := visited + es[i].items;
    }
  }

  lemma NoItems()
    ensures AllItems([]) == []
  {
  }

  lemma MoreItems(es: seq<Entry>, e: Entry)
    ensures AllItems(es + [e]) == AllItems(es) + e.items
  {
    assert (es + [e])[..|es|] == es;
  }
}
