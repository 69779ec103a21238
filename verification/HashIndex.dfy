/** A declared hash index: chaining buckets, power-of-two growth by rehash. */
module HashIndex {
  import opened Bytes
  import opened Graph

  /** One distinct field value and the objects that hold it. */
  datatype Entry = Entry(value: Text, items: seq<Id>)

  datatype Bucket = Bucket(entries: seq<Entry>, cap: nat)

  datatype Index = Index(buckets: seq<Bucket>, total: nat)

  const INITIAL_BUCKETS := 8
  const FNV_BASIS := 0xcbf2_9ce4_8422_2325
  const FNV_PRIME := 0x100_0000_01b3
  const TWO64 := 0x1_0000_0000_0000_0000

  // ---- hashing -------------------------------------------------------------

  /** Bitwise and / exclusive or of naturals. */
  function And(a: nat, b: nat): (r: nat)
    decreases a
  {
    if a == 0 || b == 0 then 0 else 2 * And(a / 2, b / 2) + (if a % 2 == 1 && b % 2 == 1 then 1 else 0)
  }

  function Xor(a: nat, b: nat): (r: nat)
    decreases a + b
  {
    if a == 0 && b == 0 then 0 else 2 * Xor(a / 2, b / 2) + (if a % 2 != b % 2 then 1 else 0)
  }

  predicate IsPow2(n: nat)
    decreases n
  {
    n == 1 || (n > 1 && n % 2 == 0 && IsPow2(n / 2))
  }

  /** 64-bit FNV-1a over the bytes of a value. */
  function Fnv(s: Text): (h: nat)
    ensures h < TWO64
  {
    if s == [] then FNV_BASIS
    else Xor(Fnv(s[..|s| - 1]), s[|s| - 1]) * FNV_PRIME % TWO64
  }

  lemma Pow2Pos(n: nat)
    requires IsPow2(n)
    ensures n > 0
  {
  }

  lemma AndStep(a: nat, b: nat)
    ensures a == 0 || b == 0 ==> And(a, b) == 0
    ensures a > 0 && b > 0 && b % 2 == 1 ==> And(a, b) == 2 * And(a / 2, b / 2) + a % 2
  {
  }

  lemma PowHalf(n: nat) returns (m: nat)
    requires IsPow2(n) && n > 1
    ensures n == 2 * m && IsPow2(m) && (n - 1) / 2 == m - 1 && (n - 1) % 2 == 1
  {
    m := n / 2;
  }

  /** With a power-of-two count the mask picks the bucket that modulo would. */
  lemma {:induction false} MaskIsMod(h: nat, n: nat)
    requires IsPow2(n)
    ensures n > 0 && And(h, n - 1) == h % n
    decreases h
  {
    Pow2Pos(n);
    AndStep(h, n - 1);
    hide And, IsPow2;
    if h > 0 && n > 1 {
      var m := PowHalf(n);
      MaskIsMod(h / 2, m);
      HalfMod(h, m);
    } else if h == 0 {
      ModUnique(0, n, 0, 0);
    }
  }

  lemma HalfMod(h: nat, m: nat)
    requires m > 0
    ensures h % (2 * m) == 2 * (h / 2 % m) + h % 2
  {
    var q, r := h / 2 / m, h / 2 % m;
    DivMod(h / 2, m);
    assert h == 2 * (h / 2) + h % 2;
    Spread(q, m, r, h % 2);
    ModUnique(h, 2 * m, q, 2 * r + h % 2);
  }

  lemma DivMod(a: nat, m: nat)
    requires m > 0
    ensures a == a / m * m + a % m
  {
  }

  lemma Spread(q: int, m: int, r: int, b: int)
    ensures 2 * (q * m + r) + b == q * (2 * m) + (2 * r + b)
  {
  }

  lemma ModUnique(h: nat, n: nat, q: nat, r: nat)
    requires n > 0 && h == q * n + r && r < n
    ensures h % n == r
  {
    DivMod(h, n);
    var d := q - h / n;
    assert q * n - h / n * n == d * n by { Distribute(q, h / n, n); }
    if d >= 1 { Bigger(d, n); } else if d <= -1 { Bigger(-d, n); }
  }

  lemma Distribute(a: int, b: int, n: int)
    ensures a * n - b * n == (a - b) * n
  {
  }

  lemma Bigger(d: int, n: int)
    requires d >= 1 && n >= 0
    ensures d * n >= n && (-d) * n <= -n
  {
  }

  function Slot(v: Text, n: nat): (b: nat)
    requires n > 0
    ensures b < n
  {
    Fnv(v) % n
  }

  // ---- entries -------------------------------------------------------------

  function FindEntry(es: seq<Entry>, v: Text): (i: nat)
    ensures i <= |es|
    ensures i < |es| ==> es[i].value == v
    ensures forall j :: 0 <= j < i ==> es[j].value != v
  {
    if es == [] || es[0].value == v then 0 else 1 + FindEntry(es[1..], v)
  }

  /** The objects stored under a value in a list of entries. */
  function ItemsIn(es: seq<Entry>, v: Text): seq<Id> {
    var i := FindEntry(es, v);
    if i < |es| then es[i].items else []
  }

  function FindItem(items: seq<Id>, o: Id): (i: nat)
    ensures i <= |items|
    ensures i < |items| ==> items[i] == o
    ensures forall j :: 0 <= j < i ==> items[j] != o
  {
    if items == [] || items[0] == o then 0 else 1 + FindItem(items[1..], o)
  }

  /** Remove one occurrence by moving the last item into its place. */
  function SwapPop(items: seq<Id>, o: Id): (r: seq<Id>) {
    var i := FindItem(items, o);
    if i == |items| then items else items[i := items[|items| - 1]][..|items| - 1]
  }

  lemma SwapPopBag(items: seq<Id>, o: Id)
    ensures multiset(SwapPop(items, o)) == multiset(items) - multiset{o}
  {
    var i, n := FindItem(items, o), |items|;
    if i < n {
      hide FindItem;
      var u := items[i := items[n - 1]];
      assert items == items[..n - 1] + [items[n - 1]];
      assert u == u[..n - 1] + [u[n - 1]];
      if i < n - 1 {
        assert multiset(u) == multiset(items) - multiset{o} + multiset{items[n - 1]};
      } else {
        assert u == items;
      }
    } else {
      assert o !in multiset(items);
    }
  }

  function NextCap(cap: nat, initial: nat): nat { if cap == 0 then initial else 2 * cap }

  // ---- validity ------------------------------------------------------------

  ghost predicate DistinctValues(es: seq<Entry>) {
    forall i, j :: 0 <= i < j < |es| ==> es[i].value != es[j].value
  }

  ghost predicate BucketOk(bk: Bucket, b: nat, n: nat)
    requires n > 0
  {
    && |bk.entries| <= bk.cap && DistinctValues(bk.entries)
    && forall i :: 0 <= i < |bk.entries| ==> Slot(bk.entries[i].value, n) == b
  }

  function Flat(bs: seq<Bucket>): seq<Entry> {
    if bs == [] then [] else Flat(bs[..|bs| - 1]) + bs[|bs| - 1].entries
  }

  /** The bucket count is zero or a power of two, every entry sits in the bucket
      of its hash, no value has two entries, and the total counts them all. */
  ghost predicate Valid(x: Index) {
    && (x.buckets == [] || IsPow2(|x.buckets|))
    && (forall b :: 0 <= b < |x.buckets| ==> BucketOk(x.buckets[b], b, |x.buckets|))
    && x.total == |Flat(x.buckets)|
  }

  /** Lookup: the objects filed under a value. */
  function Items(x: Index, v: Text): seq<Id> {
    if x.buckets == [] then [] else ItemsIn(x.buckets[Slot(v, |x.buckets|)].entries, v)
  }

  const EMPTY := Index([], 0)

  // ---- insert, remove, rehash ----------------------------------------------

  function Pick(es: seq<Entry>, b: nat, n: nat): (r: seq<Entry>)
    requires n > 0
    ensures forall i :: 0 <= i < |r| ==> Slot(r[i].value, n) == b && r[i] in es
    ensures |r| <= |es|
  {
    if es == [] then []
    else
      var front := Pick(es[..|es| - 1], b, n);
      if Slot(es[|es| - 1].value, n) == b then front + [es[|es| - 1]] else front
  }

  /** Every entry moved, in order, to its bucket among `n`, each bucket with
      exactly the room it needs. */
  function Rehashed(x: Index, n: nat): Index
    requires n > 0
  {
    var es := Flat(x.buckets);
    Index(seq(n, b requires 0 <= b < n => Bucket(Pick(es, b, n), |Pick(es, b, n)|)), x.total)
  }

  function Grown(x: Index): (r: Index)
    ensures |r.buckets| > 0
  {
    if |x.buckets| != 0 && x.total < |x.buckets| then x
    else Rehashed(x, NextCap(|x.buckets|, INITIAL_BUCKETS))
  }

  function SetEntry(x: Index, b: nat, i: nat, items: seq<Id>): Index
    requires b < |x.buckets| && i < |x.buckets[b].entries|
  {
    var es := x.buckets[b].entries;
    x.(buckets := x.buckets[b := x.buckets[b].(entries := es[i := Entry(es[i].value, items)])])
  }

  function AddEntry(x: Index, v: Text, o: Id): Index
    requires |x.buckets| > 0
  {
    var b := Slot(v, |x.buckets|);
    var bk := x.buckets[b];
    var cap := if |bk.entries| < bk.cap then bk.cap else NextCap(bk.cap, 4);
    Index(x.buckets[b := Bucket(bk.entries + [Entry(v, [o])], cap)], x.total + 1)
  }

  function Insert(x: Index, v: Text, o: Id): Index {
    if x.buckets != [] && FindEntry(x.buckets[Slot(v, |x.buckets|)].entries, v) < |x.buckets[Slot(v, |x.buckets|)].entries|
    then
      var b := Slot(v, |x.buckets|);
      var i := FindEntry(x.buckets[b].entries, v);
      SetEntry(x, b, i, x.buckets[b].entries[i].items + [o])
    else AddEntry(Grown(x), v, o)
  }

  /** The table keeps at least as many buckets as entries: it starts with eight and
      doubles when it is full. */
  lemma InsertLoad(x: Index, v: Text, o: Id)
    requires x.total <= |x.buckets|
    ensures var y := Insert(x, v, o);
            && y.total <= |y.buckets|
            && (|y.buckets| == |x.buckets|
                || (x.total == |x.buckets| && |y.buckets| == if x.buckets == [] then 8 else 2 * |x.buckets|))
  {
    hide Slot, FindEntry;
  }

  function Remove(x: Index, v: Text, o: Id): Index {
    if x.buckets != [] && FindEntry(x.buckets[Slot(v, |x.buckets|)].entries, v) < |x.buckets[Slot(v, |x.buckets|)].entries|
    then
      var b := Slot(v, |x.buckets|);
      var i := FindEntry(x.buckets[b].entries, v);
      SetEntry(x, b, i, SwapPop(x.buckets[b].entries[i].items, o))
    else x
  }

  // ---- flattening ----------------------------------------------------------

  lemma FindEntryIs(es: seq<Entry>, v: Text, i: nat)
    requires i <= |es| && (i < |es| ==> es[i].value == v)
    requires forall j :: 0 <= j < i ==> es[j].value != v
    ensures FindEntry(es, v) == i
  {
  }

  lemma ItemsConcat(a: seq<Entry>, b: seq<Entry>, v: Text)
    ensures ItemsIn(a + b, v) == if FindEntry(a, v) < |a| then ItemsIn(a, v) else ItemsIn(b, v)
  {
    hide FindEntry;
    var i, j := FindEntry(a, v), FindEntry(b, v);
    if i < |a| { FindEntryIs(a + b, v, i); } else { FindEntryIs(a + b, v, |a| + j); }
  }

  /** A lookup in the table is a lookup in the flattened list of entries. */
  lemma {:induction false} FlatLookup(bs: seq<Bucket>, n: nat, v: Text)
    requires |bs| <= n && n > 0 && forall b :: 0 <= b < |bs| ==> BucketOk(bs[b], b, n)
    ensures ItemsIn(Flat(bs), v) == if Slot(v, n) < |bs| then ItemsIn(bs[Slot(v, n)].entries, v) else []
    ensures Slot(v, n) >= |bs| ==> FindEntry(Flat(bs), v) == |Flat(bs)|
    ensures Slot(v, n) < |bs| ==>
              (FindEntry(Flat(bs), v) < |Flat(bs)| <==> FindEntry(bs[Slot(v, n)].entries, v) < |bs[Slot(v, n)].entries|)
    decreases |bs|
  {
    hide FindEntry, Slot, ItemsIn;
    if bs != [] {
      var front, last := bs[..|bs| - 1], bs[|bs| - 1];
      FlatLookup(front, n, v);
      ItemsConcat(Flat(front), last.entries, v);
      var h, i := Slot(v, n), FindEntry(last.entries, v);
      var all := Flat(front) + last.entries;
      if h != |bs| - 1 {
        NotHere(last, |bs| - 1, n, v);
        if h < |bs| - 1 {
          assert front[h] == bs[h];
        }
      }
      FindConcat(Flat(front), last.entries, v);
      ItemsNone(last.entries, v); ItemsNone(Flat(front), v);
    } else {
      ItemsNone([], v);
    }
  }

  lemma NotHere(bk: Bucket, b: nat, n: nat, v: Text)
    requires n > 0 && BucketOk(bk, b, n) && Slot(v, n) != b
    ensures FindEntry(bk.entries, v) == |bk.entries|
  {
    hide FindEntry, Fnv;
  }

  lemma ItemsNone(es: seq<Entry>, v: Text)
    requires true
    ensures FindEntry(es, v) == |es| ==> ItemsIn(es, v) == []
  {
  }

  lemma FindConcat(a: seq<Entry>, b: seq<Entry>, v: Text)
    ensures FindEntry(a + b, v) < |a + b| <==> FindEntry(a, v) < |a| || FindEntry(b, v) < |b|
  {
    hide FindEntry;
    var i, j := FindEntry(a, v), FindEntry(b, v);
    if i < |a| { FindEntryIs(a + b, v, i); } else { FindEntryIs(a + b, v, |a| + j); }
  }

  lemma {:induction false} PickLookup(es: seq<Entry>, n: nat, v: Text)
    requires n > 0
    ensures ItemsIn(Pick(es, Slot(v, n), n), v) == ItemsIn(es, v)
    ensures FindEntry(Pick(es, Slot(v, n), n), v) < |Pick(es, Slot(v, n), n)| <==> FindEntry(es, v) < |es|
    decreases |es|
  {
    hide FindEntry, Slot, ItemsIn;
    if es != [] {
      var front, last := es[..|es| - 1], es[|es| - 1];
      var h := Slot(v, n);
      PickLookup(front, n, v);
      assert es == front + [last];
      ItemsConcat(front, [last], v);
      FindConcat(front, [last], v);
      var p := Pick(front, h, n);
      if Slot(last.value, n) == h {
        ItemsConcat(p, [last], v);
        FindConcat(p, [last], v);
      } else {
        assert last.value != v;
        assert FindEntry([last], v) == 1;
        ItemsNone([last], v);
        ItemsNone(front, v);
      }
    }
  }

  // ---- rehash refines the same map -----------------------------------------

  lemma {:induction false} PickDistinct(es: seq<Entry>, b: nat, n: nat)
    requires n > 0 && DistinctValues(es)
    ensures DistinctValues(Pick(es, b, n))
    decreases |es|
  {
    hide Slot;
    if es != [] {
      var front, last := es[..|es| - 1], es[|es| - 1];
      PickDistinct(front, b, n);
      var p := Pick(front, b, n);
      forall i | 0 <= i < |p| ensures p[i].value != last.value {
        assert p[i] in front;
      }
    }
  }

  lemma {:induction false} FlatDistinct(bs: seq<Bucket>, n: nat)
    requires |bs| <= n && n > 0 && forall b :: 0 <= b < |bs| ==> BucketOk(bs[b], b, n)
    ensures DistinctValues(Flat(bs))
    ensures forall i :: 0 <= i < |Flat(bs)| ==> Slot(Flat(bs)[i].value, n) < |bs|
    decreases |bs|
  {
    hide Slot;
    if bs != [] {
      var front, last := bs[..|bs| - 1], bs[|bs| - 1];
      FlatDistinct(front, n);
      assert BucketOk(last, |bs| - 1, n);
    }
  }

  /** How many of the entries go to buckets before `k`. */
  lemma {:induction false} PickCount(es: seq<Entry>, bs: seq<Bucket>, n: nat, k: nat)
    requires n > 0 && k <= n && |bs| == n
    requires forall b :: 0 <= b < n ==> bs[b].entries == Pick(es, b, n)
    ensures |Flat(bs[..k])| == CountBelow(es, n, k)
    decreases k
  {
    hide Slot;
    if k > 0 {
      PickCount(es, bs, n, k - 1);
      assert bs[..k][..k - 1] == bs[..k - 1];
      CountStep(es, n, k - 1);
    } else {
      CountNone(es, n);
    }
  }

  function CountBelow(es: seq<Entry>, n: nat, k: nat): nat
    requires n > 0
  {
    if es == [] then 0
    else CountBelow(es[..|es| - 1], n, k) + if Slot(es[|es| - 1].value, n) < k then 1 else 0
  }

  lemma {:induction false} CountStep(es: seq<Entry>, n: nat, k: nat)
    requires n > 0
    ensures CountBelow(es, n, k + 1) == CountBelow(es, n, k) + |Pick(es, k, n)|
    decreases |es|
  {
    hide Slot;
    if es != [] { CountStep(es[..|es| - 1], n, k); }
  }

  lemma {:induction false} CountNone(es: seq<Entry>, n: nat)
    requires n > 0
    ensures CountBelow(es, n, 0) == 0
    decreases |es|
  {
    hide Fnv;
    if es != [] { CountNone(es[..|es| - 1], n); }
  }

  lemma {:induction false} CountAll(es: seq<Entry>, n: nat)
    requires n > 0
    ensures CountBelow(es, n, n) == |es|
    decreases |es|
  {
    hide Fnv;
    if es != [] { CountAll(es[..|es| - 1], n); }
  }

  /** All entries in bucket order: no value twice, and the lookup of the table. */
  lemma FlatFacts(x: Index, v: Text)
    requires Valid(x)
    ensures DistinctValues(Flat(x.buckets)) && ItemsIn(Flat(x.buckets), v) == Items(x, v)
  {
    hide Slot, ItemsIn, FindEntry, IsPow2, Flat;
    if x.buckets == [] {
      FlatNil();
      ItemsNone([], v);
    } else {
      FlatLookup(x.buckets, |x.buckets|, v);
      FlatDistinct(x.buckets, |x.buckets|);
      assert x.buckets[..|x.buckets|] == x.buckets;
    }
  }

  lemma RehashedBuckets(x: Index, n: nat)
    requires n > 0 && DistinctValues(Flat(x.buckets))
    ensures forall b :: 0 <= b < n ==> BucketOk(Rehashed(x, n).buckets[b], b, n)
  {
    hide Slot, Pick, Flat;
    forall b | 0 <= b < n ensures BucketOk(Rehashed(x, n).buckets[b], b, n) {
      PickDistinct(Flat(x.buckets), b, n);
    }
  }

  /** Rehashing to a power of two keeps validity and every lookup, and the room
      reserved in each bucket is exactly filled. */
  lemma RehashSame(x: Index, n: nat, v: Text)
    requires Valid(x) && IsPow2(n)
    ensures Valid(Rehashed(x, n)) && Items(Rehashed(x, n), v) == Items(x, v)
    ensures forall b :: 0 <= b < n ==> |Rehashed(x, n).buckets[b].entries| == Rehashed(x, n).buckets[b].cap
  {
    Pow2Pos(n);
    hide Slot, Pick, ItemsIn, FindEntry, IsPow2, Flat, BucketOk, DistinctValues;
    var y, es := Rehashed(x, n), Flat(x.buckets);
    FlatFacts(x, v);
    RehashedBuckets(x, n);
    PickLookup(es, n, v);
    PickCount(es, y.buckets, n, n);
    assert y.buckets[..n] == y.buckets;
    CountAll(es, n);
  }

  lemma FlatNil()
    ensures Flat([]) == [] && DistinctValues([])
  {
  }

  lemma PowStep(n: nat)
    requires n == 0 || IsPow2(n)
    ensures IsPow2(NextCap(n, INITIAL_BUCKETS))
  {
    assert IsPow2(8) by { assert IsPow2(1) && IsPow2(2) && IsPow2(4); }
  }

  lemma GrownSame(x: Index, v: Text)
    requires Valid(x)
    ensures Valid(Grown(x)) && Items(Grown(x), v) == Items(x, v)
  {
    hide Slot, ItemsIn, FindEntry, IsPow2, Flat, Rehashed;
    PowStep(|x.buckets|);
    RehashSame(x, NextCap(|x.buckets|, INITIAL_BUCKETS), v);
  }

  // ---- insert and remove as map updates ------------------------------------

  lemma {:induction false} FlatLength(bs: seq<Bucket>, b: nat, bk: Bucket)
    requires b < |bs|
    ensures |Flat(bs[b := bk])| == |Flat(bs)| - |bs[b].entries| + |bk.entries|
    decreases |bs|
  {
    var n := |bs| - 1;
    if b < n {
      FlatLength(bs[..n], b, bk);
      assert bs[b := bk][..n] == bs[..n][b := bk];
    } else {
      assert bs[b := bk][..n] == bs[..n];
    }
  }

  lemma SetEntryOk(x: Index, b: nat, i: nat, items: seq<Id>, v: Text)
    requires Valid(x) && b < |x.buckets| && i < |x.buckets[b].entries|
    ensures Valid(SetEntry(x, b, i, items))
    ensures Items(SetEntry(x, b, i, items), v) == if v == x.buckets[b].entries[i].value then items else Items(x, v)
  {
    hide Flat, IsPow2, FindEntry, Fnv;
    var y, es := SetEntry(x, b, i, items), x.buckets[b].entries;
    FlatLength(x.buckets, b, y.buckets[b]);
    assert BucketOk(x.buckets[b], b, |x.buckets|);
    FindEntryIs(y.buckets[b].entries, v, FindEntry(es, v));
    assert Slot(es[i].value, |x.buckets|) == b;
    if v == es[i].value { FindEntryIs(es, v, i); }
  }

  lemma AddEntryOk(x: Index, w: Text, o: Id, v: Text)
    requires Valid(x) && |x.buckets| > 0 && Items(x, w) == []
    requires FindEntry(x.buckets[Slot(w, |x.buckets|)].entries, w) == |x.buckets[Slot(w, |x.buckets|)].entries|
    ensures Valid(AddEntry(x, w, o))
    ensures Items(AddEntry(x, w, o), v) == if v == w then [o] else Items(x, v)
  {
    hide Flat, IsPow2, FindEntry, Fnv, ItemsIn;
    var y, b := AddEntry(x, w, o), Slot(w, |x.buckets|);
    var es, ne := x.buckets[b].entries, Entry(w, [o]);
    FlatLength(x.buckets, b, y.buckets[b]);
    assert BucketOk(x.buckets[b], b, |x.buckets|);
    assert BucketOk(y.buckets[b], b, |x.buckets|);
    ItemsConcat(es, [ne], v);
    ItemsOne(ne, v);
    ItemsNone(es, v);
  }

  lemma ItemsOne(e: Entry, v: Text)
    ensures ItemsIn([e], v) == if e.value == v then e.items else []
  {
  }

  lemma MissingAfterGrowth(x: Index, w: Text)
    requires Valid(x)
    requires x.buckets == [] || FindEntry(x.buckets[Slot(w, |x.buckets|)].entries, w) == |x.buckets[Slot(w, |x.buckets|)].entries|
    ensures var y := Grown(x);
            FindEntry(y.buckets[Slot(w, |y.buckets|)].entries, w) == |y.buckets[Slot(w, |y.buckets|)].entries|
  {
    hide Flat, IsPow2, FindEntry, Slot, Pick, ItemsIn;
    if !(|x.buckets| != 0 && x.total < |x.buckets|) {
      var n := NextCap(|x.buckets|, INITIAL_BUCKETS);
      PickLookup(Flat(x.buckets), n, w);
      if x.buckets == [] { FlatNil(); } else { FlatLookup(x.buckets, |x.buckets|, w); }
    }
  }

  /** Inserting files one more object under its value and changes no other. */
  lemma InsertItems(x: Index, w: Text, o: Id, v: Text)
    requires Valid(x)
    ensures Valid(Insert(x, w, o))
    ensures Items(Insert(x, w, o), v) == if v == w then Items(x, w) + [o] else Items(x, v)
  {
    hide Flat, IsPow2, FindEntry, Slot, Grown, AddEntry, SetEntry;
    if x.buckets != [] && FindEntry(x.buckets[Slot(w, |x.buckets|)].entries, w) < |x.buckets[Slot(w, |x.buckets|)].entries| {
      var b := Slot(w, |x.buckets|);
      var i := FindEntry(x.buckets[b].entries, w);
      SetEntryOk(x, b, i, x.buckets[b].entries[i].items + [o], v);
    } else {
      GrownSame(x, v); GrownSame(x, w);
      MissingAfterGrowth(x, w);
      AddEntryOk(Grown(x), w, o, v);
    }
  }

  /** Removing takes one occurrence out of one value. */
  lemma RemoveItems(x: Index, w: Text, o: Id, v: Text)
    requires Valid(x)
    ensures Valid(Remove(x, w, o))
    ensures Items(Remove(x, w, o), v) == if v == w then SwapPop(Items(x, w), o) else Items(x, v)
  {
    hide Flat, IsPow2, FindEntry, Slot, SetEntry, FindItem;
    if x.buckets != [] && FindEntry(x.buckets[Slot(w, |x.buckets|)].entries, w) < |x.buckets[Slot(w, |x.buckets|)].entries| {
      var b := Slot(w, |x.buckets|);
      var i := FindEntry(x.buckets[b].entries, w);
      SetEntryOk(x, b, i, SwapPop(x.buckets[b].entries[i].items, o), v);
    }
  }

  lemma EmptyValid(v: Text)
    ensures Valid(EMPTY) && Items(EMPTY, v) == []
  {
  }
}
