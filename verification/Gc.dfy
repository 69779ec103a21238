/** Mark and sweep: an explicit worklist marks what the used roots reach, the
    sweep keeps the marked objects in table order. */
module Gc {
  import opened Bytes
  import opened Graph

  // ---- what must survive ---------------------------------------------------

  /** A chain of references that starts at the object of a used root. */
  ghost predicate Path(s: State, p: seq<Id>) {
    && |p| > 0
    && (exists i :: 0 <= i < |s.roots| && s.roots[i].used && s.roots[i].obj == p[0])
    && (forall i :: 0 <= i < |p| ==> p[i] in s.heap)
    && (forall i :: 0 < i < |p| ==> Edge(s, p, i))
  }

  predicate Edge(s: State, p: seq<Id>, i: nat)
    requires 0 < i < |p|
  {
    p[i - 1] in s.heap && p[i] in Refs(s.heap[p[i - 1]])
  }

  ghost predicate Reaches(s: State, id: Id) {
    exists p :: Path(s, p) && p[|p| - 1] == id
  }

  ghost function Reached(s: State): set<Id> {
    set id | id in s.heap && Reaches(s, id)
  }

  /** Ids of `order` that are in `keep`, in order. */
  function Kept(order: seq<Id>, keep: set<Id>): (r: seq<Id>)
    ensures forall id :: id in r <==> id in order && id in keep
  {
    if order == [] then []
    else
      var rest := Kept(order[..|order| - 1], keep);
      var last := order[|order| - 1];
      if last in keep then rest + [last] else rest
  }

  /** The store reduced to the objects in `keep`. */
  function Sweep(s: State, keep: set<Id>): State {
    s.(order := Kept(s.order, keep), heap := map id | id in s.heap && id in keep :: s.heap[id])
  }

  ghost function Collect(s: State): State { Sweep(s, Reached(s)) }

  // ---- reachability --------------------------------------------------------

  lemma RootReaches(s: State, i: nat)
    requires i < |s.roots| && s.roots[i].used && s.roots[i].obj in s.heap
    ensures Reaches(s, s.roots[i].obj)
  {
    assert Path(s, [s.roots[i].obj]);
  }

  lemma StepReaches(s: State, a: Id, b: Id)
    requires Reaches(s, a) && a in s.heap && b in Refs(s.heap[a]) && b in s.heap
    ensures Reaches(s, b)
  {
    var p :| Path(s, p) && p[|p| - 1] == a;
    var q := p + [b];
    forall i | 0 < i < |q| ensures Edge(s, q, i) {
      if i < |p| { assert Edge(s, p, i); }
    }
    assert Path(s, q);
  }

  /** A set that holds the root objects and is closed under references. */
  ghost predicate Closed(s: State, m: set<Id>) {
    && (forall i :: 0 <= i < |s.roots| && s.roots[i].used && s.roots[i].obj != 0 ==> s.roots[i].obj in m)
    && RefsClosed(s, m)
  }

  ghost predicate RefsClosed(s: State, m: set<Id>) {
    forall a, b :: a in m && a in s.heap && b in Refs(s.heap[a]) && b != 0 ==> b in m
  }

  lemma {:induction false} PathInside(s: State, m: set<Id>, p: seq<Id>)
    requires Closed(s, m) && Path(s, p) && 0 !in s.heap
    ensures p[|p| - 1] in m
    decreases |p|
  {
    if |p| > 1 {
      var q := p[..|p| - 1];
      forall i | 0 < i < |q| ensures Edge(s, q, i) {
        assert Edge(s, p, i);
      }
      PathInside(s, m, q);
      assert Edge(s, p, |p| - 1);
    }
  }

  /** The marked set of a complete traversal is exactly what is reached. */
  lemma MarkedIsReached(s: State, m: set<Id>)
    requires Wf(s) && Closed(s, m) && m <= s.heap.Keys
    requires forall id :: id in m ==> Reaches(s, id)
    ensures m == Reached(s)
  {
    forall id | id in Reached(s) ensures id in m {
      var p :| Path(s, p) && p[|p| - 1] == id;
      PathInside(s, m, p);
    }
  }

  lemma ReachedClosed(s: State)
    requires Wf(s)
    ensures Closed(s, Reached(s))
  {
    forall i | 0 <= i < |s.roots| && s.roots[i].used && s.roots[i].obj != 0
      ensures s.roots[i].obj in Reached(s)
    {
      assert RootOk(s, s.roots[i]);
      RootReaches(s, i);
    }
    forall a, b | a in Reached(s) && a in s.heap && b in Refs(s.heap[a]) && b != 0
      ensures b in Reached(s)
    {
      assert BodyOk(s, s.heap[a]);
      StepReaches(s, a, b);
    }
  }

  // ---- mark ----------------------------------------------------------------

  /** The references of an object, in the order they are pushed. */
  function RefSeq(b: Body): (r: seq<Id>)
    ensures forall id :: id in r <==> id in Refs(b)
  {
    match b
    case Composite(_, fs) => var r := seq(|fs|, i requires 0 <= i < |fs| => fs[i].value);
                             assert forall i :: 0 <= i < |fs| ==> r[i] == fs[i].value; r
    case ListVal(items) => items
    case VListVal(_, p) => [p]
    case _ => []
  }

  /** Every reference out of a marked object is marked or waiting. */
  ghost predicate Tricolour(s: State, marked: set<Id>, stack: seq<Id>) {
    forall a, b :: a in marked && a in s.heap && b in Refs(s.heap[a]) && b != 0 ==> b in marked || b in stack
  }

  method PushChildren(cs: seq<Id>, marked: set<Id>, stack: seq<Id>) returns (r: seq<Id>)
    ensures forall id :: id in r <==> id in stack || (id in cs && id != 0 && id !in marked)
  {
    r := stack;
    for i := 0 to |cs|
      invariant forall id :: id in r <==> id in stack || (id in cs[..i] && id != 0 && id !in marked)
    {
      assert cs[..i + 1] == cs[..i] + [cs[i]];
      if cs[i] != 0 && cs[i] !in marked {
        r := r + [cs[i]];
      }
    }
    assert cs[..|cs|] == cs;
  }

  /** Marks everything reachable from one root object. An object may be pushed
      several times; each pop either marks a new object or shrinks the stack. */
  method MarkFrom(s: State, before: set<Id>, root: Id) returns (marked: set<Id>)
    requires Wf(s) && before <= s.heap.Keys && RefsClosed(s, before)
    requires forall id :: id in before ==> Reaches(s, id)
    requires root == 0 || (root in s.heap && Reaches(s, root))
    ensures before <= marked <= s.heap.Keys && RefsClosed(s, marked)
    ensures root != 0 ==> root in marked
    ensures forall id :: id in marked ==> Reaches(s, id)
  {
    hide Reaches, Refs, RefSeq, Wf;
    marked := before;
    if root == 0 || root in marked { return; }
    var stack := [root];
    while |stack| > 0
      invariant before <= marked <= s.heap.Keys
      invariant forall id :: id in marked || id in stack ==> id in s.heap && Reaches(s, id)
      invariant root in marked || root in stack
      invariant Tricolour(s, marked, stack)
      decreases s.heap.Keys - marked, |stack|
    {
      var o := stack[|stack| - 1];
      ghost var was := stack;
      stack := stack[..|stack| - 1];
      assert was == stack + [o];
      assert o in was;
      if o !in marked {
        ghost var grey := marked;
        marked := marked + {o};
        assert s.heap.Keys - marked < s.heap.Keys - grey by { assert o in s.heap.Keys - grey; }
        ghost var rest := stack;
        stack := PushChildren(RefSeq(s.heap[o]), marked, stack);
        ChildrenReached(s, o);
        Blacken(s, grey, o, was, rest, stack);
      } else {
        assert Tricolour(s, marked, stack);
      }
    }
  }

  lemma ChildrenReached(s: State, o: Id)
    requires Wf(s) && o in s.heap && Reaches(s, o)
    ensures forall id :: id in RefSeq(s.heap[o]) && id != 0 ==> id in s.heap && Reaches(s, id)
  {
    forall id | id in RefSeq(s.heap[o]) && id != 0 ensures id in s.heap && Reaches(s, id) {
      assert BodyOk(s, s.heap[o]);
      StepReaches(s, o, id);
    }
  }

  /** Marking the popped object and pushing its unmarked children. */
  lemma Blacken(s: State, grey: set<Id>, o: Id, was: seq<Id>, rest: seq<Id>, stack: seq<Id>)
    requires o in s.heap && Tricolour(s, grey, was) && was == rest + [o]
    requires forall id :: id in stack <==> id in rest || (id in RefSeq(s.heap[o]) && id != 0 && id !in grey + {o})
    ensures Tricolour(s, grey + {o}, stack)
  {
  }

  /** Marks from every used root: the result is exactly what must survive. */
  method Mark(s: State) returns (marked: set<Id>)
    requires Wf(s)
    ensures marked == Reached(s)
  {
    marked := {};
    for i := 0 to |s.roots|
      invariant marked <= s.heap.Keys && RefsClosed(s, marked)
      invariant forall id :: id in marked ==> Reaches(s, id)
      invariant forall j :: 0 <= j < i && s.roots[j].used && s.roots[j].obj != 0 ==> s.roots[j].obj in marked
    {
      if s.roots[i].used {
        assert RootOk(s, s.roots[i]);
        if s.roots[i].obj != 0 { RootReaches(s, i); }
        marked := MarkFrom(s, marked, s.roots[i].obj);
      }
    }
    MarkedIsReached(s, marked);
  }

  // ---- sweep ---------------------------------------------------------------

  lemma {:induction false} KeptNoDup(order: seq<Id>, keep: set<Id>)
    requires NoDup(order)
    ensures NoDup(Kept(order, keep))
  {
    if order != [] {
      KeptNoDup(order[..|order| - 1], keep);
    }
  }

  /** Collection leaves a well-formed store: no survivor or root dangles. */
  lemma CollectWf(s: State)
    requires Wf(s)
    ensures Wf(Collect(s))
  {
    hide Kept, Reaches, Refs;
    var m, t := Reached(s), Collect(s);
    ReachedClosed(s);
    KeptNoDup(s.order, m);
    assert t.heap.Keys == m;
    forall k | k in t.heap ensures BodyOk(t, t.heap[k]) {
      assert BodyOk(s, s.heap[k]);
    }
    forall i | 0 <= i < |t.roots| ensures RootOk(t, t.roots[i]) {
      assert RootOk(s, s.roots[i]);
    }
  }

  /** The sweep is a subsequence of the table: order is kept. */
  lemma {:induction false} KeptOrder(order: seq<Id>, keep: set<Id>, i: nat, j: nat)
    requires i < j < |Kept(order, keep)|
    ensures exists a, b :: 0 <= a < b < |order| && order[a] == Kept(order, keep)[i] && order[b] == Kept(order, keep)[j]
    decreases |order|
  {
    var front, n := order[..|order| - 1], |order| - 1;
    var k := Kept(front, keep);
    if j < |k| {
      KeptOrder(front, keep, i, j);
      var a, b :| 0 <= a < b < |front| && front[a] == k[i] && front[b] == k[j];
      assert order[a] == Kept(order, keep)[i] && order[b] == Kept(order, keep)[j];
    } else {
      assert Kept(order, keep)[i] == k[i] && k[i] in front;
      var a :| 0 <= a < |front| && front[a] == k[i];
      assert order[a] == Kept(order, keep)[i] && order[n] == Kept(order, keep)[j];
    }
  }
}
