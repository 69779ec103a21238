/** The hash index as the store updates it in place: hashing, lookup, the
    counted rehash and insertion, each proved against the index functions. */
module HashTable {
  import opened Bytes
  import opened Graph
  import opened HashIndex

  method Fnv1a(v: Text) returns (h: nat)
    ensures h == Fnv(v)
  {
    h := FNV_BASIS;
    for i := 0 to |v|
      invariant h == Fnv(v[..i])
    {
      hide Xor;
      assert v[..i + 1][..i] == v[..i];
      h := Xor(h, v[i]) * FNV_PRIME % TWO64;
    }
    assert v[..|v|] == v;
  }

  /** The bucket is chosen by masking the hash, not by division. */
  method BucketOf(v: Text, n: nat) returns (b: nat)
    requires IsPow2(n)
    ensures n > 0 && b == Slot(v, n)
  {
    Pow2Pos(n);
    var h := Fnv1a(v);
    b := And(h, n - 1);
    MaskIsMod(h, n);
  }

  lemma {:induction false} FlatPrefix(bs: seq<Bucket>, b: nat)
    requires b < |bs|
    ensures Flat(bs[..b]) + bs[b].entries <= Flat(bs)
    decreases |bs| - b
  {
    assert bs[..b + 1][..b] == bs[..b];
    assert Flat(bs[..b + 1]) == Flat(bs[..b]) + bs[b].entries;
    if b + 1 < |bs| {
      FlatPrefix(bs, b + 1);
    } else {
      assert bs[..b + 1] == bs;
    }
  }

  /** What later entries add never takes from a bucket. */
  lemma {:induction false} PickGrows(es: seq<Entry>, i: nat, b: nat, n: nat)
    requires n > 0 && i <= |es|
    ensures |Pick(es[..i], b, n)| <= |Pick(es, b, n)|
    decreases |es| - i
  {
    hide Slot;
    if i < |es| {
      assert es[..i + 1][..i] == es[..i];
      PickGrows(es, i + 1, b, n);
    } else {
      assert es[..i] == es;
    }
  }

  lemma PickStep(es: seq<Entry>, i: nat, b: nat, n: nat)
    requires n > 0 && i < |es|
    ensures Pick(es[..i + 1], b, n) ==
            if Slot(es[i].value, n) == b then Pick(es[..i], b, n) + [es[i]] else Pick(es[..i], b, n)
  {
    assert es[..i + 1][..i] == es[..i];
  }

  class Table {
    var buckets: seq<Bucket>
    var total: nat

    constructor ()
      ensures Contents() == EMPTY && Valid(Contents())
    {
      buckets, total := [], 0;
      new;
      EmptyValid([]);
    }

    function Contents(): Index
      reads this
    {
      Index(buckets, total)
    }

    /** Position of the entry of a value, or none. */
    method Find(v: Text) returns (found: bool, b: nat, i: nat)
      requires Valid(Contents())
      ensures found ==> b < |buckets| && b == Slot(v, |buckets|) && i < |buckets[b].entries| && i == FindEntry(buckets[b].entries, v)
      ensures !found ==> buckets == [] || FindEntry(buckets[Slot(v, |buckets|)].entries, v) == |buckets[Slot(v, |buckets|)].entries|
      ensures Items(Contents(), v) == if found then buckets[b].entries[i].items else []
    {
      hide Slot, FindEntry, BucketOk, Flat;
      b, i := 0, 0;
      if |buckets| == 0 { return false, b, i; }
      b := BucketOf(v, |buckets|);
      var es := buckets[b].entries;
      while i < |es|
        invariant i <= |es| && forall j :: 0 <= j < i ==> es[j].value != v
      {
        if es[i].value == v {
          FindEntryIs(es, v, i);
          return true, b, i;
        }
        i := i + 1;
      }
      FindEntryIs(es, v, |es|);
      return false, b, i;
    }

    /** Phase 1: every entry, bucket by bucket, into one array. */
    method Flatten() returns (tmp: array<Entry>)
      requires Valid(Contents())
      ensures fresh(tmp) && tmp.Length == total && tmp[..] == Flat(buckets)
    {
      hide BucketOk;
      tmp := new Entry[total];
      var w := 0;
      for b := 0 to |buckets|
        invariant w == |Flat(buckets[..b])| <= total && tmp[..w] == Flat(buckets[..b])
      {
        var es := buckets[b].entries;
        FlatPrefix(buckets, b);
        assert buckets[..b + 1][..b] == buckets[..b];
        ghost var front := Flat(buckets[..b]);
        hide Flat;
        for e := 0 to |es|
          invariant w == |front| + e && w <= total && tmp[..w] == front + es[..e]
        {
          tmp[w] := es[e];
          assert tmp[..w + 1] == tmp[..w] + [es[e]] && es[..e + 1] == es[..e] + [es[e]];
          w := w + 1;
        }
        assert es[..|es|] == es;
      }
      assert buckets[..|buckets|] == buckets && tmp[..] == tmp[..total];
    }

    /** Phase 2: the target bucket of each entry and how many each will hold. */
    method Tally(tmp: array<Entry>, n: nat) returns (target: array<nat>, counts: array<nat>)
      requires IsPow2(n) && n > 0
      ensures fresh(target) && fresh(counts) && target.Length == tmp.Length && counts.Length == n
      ensures forall i :: 0 <= i < tmp.Length ==> target[i] == Slot(tmp[i].value, n)
      ensures forall b :: 0 <= b < n ==> counts[b] == |Pick(tmp[..], b, n)|
    {
      hide Slot, Pick;
      target := new nat[tmp.Length];
      counts := new nat[n](_ => 0);
      ghost var es := tmp[..];
      forall b | 0 <= b < n ensures Pick(es[..0], b, n) == [] { PickNone(b, n); }
      for i := 0 to tmp.Length
        invariant tmp[..] == es
        invariant forall j :: 0 <= j < i ==> target[j] == Slot(tmp[j].value, n)
        invariant forall b :: 0 <= b < n ==> counts[b] == |Pick(es[..i], b, n)|
      {
        var b := BucketOf(tmp[i].value, n);
        forall c | 0 <= c < n
          ensures Pick(es[..i + 1], c, n) == if c == b then Pick(es[..i], c, n) + [es[i]] else Pick(es[..i], c, n)
        {
          PickStep(es, i, c, n);
        }
        target[i] := b;
        counts[b] := counts[b] + 1;
      }
      assert es[..tmp.Length] == es;
    }

    /** Phases 3 and 4: reserve exactly the counted room, then copy. The copy
        never outgrows what was reserved. */
    method Distribute(tmp: array<Entry>, target: array<nat>, counts: array<nat>, n: nat) returns (nb: array<Bucket>)
      requires n > 0 && target.Length == tmp.Length && counts.Length == n
      requires forall i :: 0 <= i < tmp.Length ==> target[i] == Slot(tmp[i].value, n)
      requires forall b :: 0 <= b < n ==> counts[b] == |Pick(tmp[..], b, n)|
      ensures fresh(nb) && nb.Length == n
      ensures forall b :: 0 <= b < n ==> nb[b] == Bucket(Pick(tmp[..], b, n), |Pick(tmp[..], b, n)|)
    {
      hide Slot, Pick;
      nb := new Bucket[n];
      for b := 0 to n
        invariant forall c :: 0 <= c < b ==> nb[c] == Bucket([], counts[c])
      {
        nb[b] := Bucket([], counts[b]);
      }
      ghost var es := tmp[..];
      forall b | 0 <= b < n ensures Pick(es[..0], b, n) == [] { PickNone(b, n); }
      for i := 0 to tmp.Length
        invariant tmp[..] == es
        invariant forall j :: 0 <= j < tmp.Length ==> target[j] == Slot(tmp[j].value, n)
        invariant forall b :: 0 <= b < n ==> nb[b] == Bucket(Pick(es[..i], b, n), |Pick(es, b, n)|)
      {
        var b := target[i];
        forall c | 0 <= c < n
          ensures Pick(es[..i + 1], c, n) == if c == b then Pick(es[..i], c, n) + [es[i]] else Pick(es[..i], c, n)
        {
          PickStep(es, i, c, n);
        }
        PickGrows(es, i + 1, b, n);
        assert |nb[b].entries| < nb[b].cap;
        nb[b] := nb[b].(entries := nb[b].entries + [tmp[i]]);
      }
      assert es[..tmp.Length] == es;
    }

    method Rehash(n: nat)
      requires Valid(Contents()) && IsPow2(n)
      modifies this
      ensures n > 0 && Contents() == Rehashed(old(Contents()), n)
    {
      Pow2Pos(n);
      ghost var es := Flat(buckets);
      if total == 0 {
        buckets := seq(n, _ => Bucket([], 0));
        assert es == [];
        forall b | 0 <= b < n ensures Pick(es, b, n) == [] { PickNone(b, n); }
        return;
      }
      hide Pick, Flat, Slot;
      var tmp := Flatten();
      var target, counts := Tally(tmp, n);
      var nb := Distribute(tmp, target, counts, n);
      buckets := nb[..];
      assert buckets == Rehashed(old(Contents()), n).buckets;
    }

    /** Inserting files the object and leaves every other lookup alone. */
    method Put(v: Text, o: Id)
      requires Valid(Contents())
      modifies this
      ensures Valid(Contents()) && Contents() == Insert(old(Contents()), v, o)
      ensures Items(Contents(), v) == old(Items(Contents(), v)) + [o]
      ensures forall w: Text :: w != v ==> Items(Contents(), w) == old(Items(Contents(), w))
    {
      hide Slot, Items, FindEntry, Flat, Valid, Rehashed;
      ghost var x := Contents();
      forall w: Text
        ensures Valid(Insert(x, v, o)) && Items(Insert(x, v, o), w) == if w == v then Items(x, w) + [o] else Items(x, w)
      {
        InsertItems(x, v, o, w);
      }
      assert Items(Insert(x, v, o), v) == Items(x, v) + [o];
      var found, b, i := Find(v);
      if found {
        var e := buckets[b].entries[i];
        buckets := buckets[b := buckets[b].(entries := buckets[b].entries[i := Entry(e.value, e.items + [o])])];
        return;
      }
      Grow();
      b := BucketOf(v, |buckets|);
      var bk := buckets[b];
      var cap := if |bk.entries| < bk.cap then bk.cap else NextCap(bk.cap, 4);
      buckets := buckets[b := Bucket(bk.entries + [Entry(v, [o])], cap)];
      total := total + 1;
    }

    method Grow()
      requires Valid(Contents())
      modifies this
      ensures Contents() == Grown(old(Contents())) && Valid(Contents()) && IsPow2(|buckets|)
    {
      hide Slot, Flat, BucketOk, Rehashed;
      GrownSame(Contents(), []);
      if |buckets| != 0 && total < |buckets| { return; }
      var n := NextCap(|buckets|, INITIAL_BUCKETS);
      GrowthPow2(|buckets|);
      Rehash(n);
    }

    method Delete(v: Text, o: Id)
      requires Valid(Contents())
      modifies this
      ensures Valid(Contents()) && Contents() == Remove(old(Contents()), v, o)
      ensures Items(Contents(), v) == SwapPop(old(Items(Contents(), v)), o)
      ensures forall w: Text :: w != v ==> Items(Contents(), w) == old(Items(Contents(), w))
    {
      hide Slot, Items, FindEntry, Flat, Valid, SwapPop;
      ghost var x := Contents();
      forall w: Text
        ensures Valid(Remove(x, v, o)) && Items(Remove(x, v, o), w) == if w == v then SwapPop(Items(x, w), o) else Items(x, w)
      {
        RemoveItems(x, v, o, w);
      }
      assert Items(Remove(x, v, o), v) == SwapPop(Items(x, v), o);
      var found, b, i := Find(v);
      if found {
        var e := buckets[b].entries[i];
        var items := PopItem(e.items, o);
        buckets := buckets[b := buckets[b].(entries := buckets[b].entries[i := Entry(e.value, items)])];
      }
    }
  }

  lemma PickNone(b: nat, n: nat)
    requires n > 0
    ensures Pick([], b, n) == []
  {
  }

  lemma GrowthPow2(n: nat)
    requires n == 0 || IsPow2(n)
    ensures IsPow2(NextCap(n, INITIAL_BUCKETS))
  {
    if n == 0 {
      assert IsPow2(2) && IsPow2(4) && IsPow2(8);
    } else {
      PowStep(n);
    }
  }

  /** Swap-and-pop over the objects of an entry. */
  method PopItem(items: seq<Id>, o: Id) returns (r: seq<Id>)
    ensures r == SwapPop(items, o) && multiset(r) == multiset(items) - multiset{o}
  {
    SwapPopBag(items, o);
    var i, n := 0, |items|;
    while i < n
      invariant i <= n && forall j :: 0 <= j < i ==> items[j] != o
    {
      if items[i] == o {
        ItemIs(items, o, i);
        return items[i := items[n - 1]][..n - 1];
      }
      i := i + 1;
    }
    ItemIs(items, o, n);
    return items;
  }

  lemma ItemIs(items: seq<Id>, o: Id, i: nat)
    requires i <= |items| && (i < |items| ==> items[i] == o)
    requires forall j :: 0 <= j < i ==> items[j] != o
    ensures FindItem(items, o) == i
  {
  }
}
