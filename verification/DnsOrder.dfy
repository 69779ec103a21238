/** Canonical ordering of DNS names (section 6.1 of RFC 4034) over label
    sequences: rightmost label first, labels octet by octet. */
module DnsOrder {
  import opened Bytes

  type Text = seq<byte>

  const DOT: byte := 46
  const MAX_LABELS := 128

  // ---- splitting a name into labels ----------------------------------------

  /** First dot at or after `p`, or the length of the name. */
  function DotFrom(name: Text, p: nat): (e: nat)
    requires p <= |name|
    ensures p <= e <= |name|
    ensures e < |name| ==> name[e] == DOT
    ensures forall i :: p <= i < e ==> name[i] != DOT
    decreases |name| - p
  {
    if p == |name| || name[p] == DOT then p else DotFrom(name, p + 1)
  }

  /** Labels from offset `p`, at most `room`; a trailing dot adds no label. */
  function SplitFrom(name: Text, p: nat, room: nat): seq<Text>
    requires p <= |name|
    decreases room
  {
    if p == |name| || room == 0 then []
    else
      var e := DotFrom(name, p);
      [name[p..e]] + if e < |name| then SplitFrom(name, e + 1, room - 1) else []
  }

  function Labels(name: Text): seq<Text> { SplitFrom(name, 0, MAX_LABELS) }

  // ---- comparing -----------------------------------------------------------

  /** Octet order; of two labels where one starts the other, the shorter first. */
  function CmpLabel(a: Text, b: Text): (c: int)
    ensures -1 <= c <= 1
  {
    if a == [] && b == [] then 0
    else if a == [] then -1
    else if b == [] then 1
    else if a[0] < b[0] then -1
    else if a[0] > b[0] then 1
    else CmpLabel(a[1..], b[1..])
  }

  /** Label sequences from the right; a proper suffix sorts first. */
  function CmpLabels(a: seq<Text>, b: seq<Text>): (c: int)
    ensures -1 <= c <= 1
  {
    if a == [] || b == [] then (if |a| < |b| then -1 else if |a| > |b| then 1 else 0)
    else
      var c := CmpLabel(a[|a| - 1], b[|b| - 1]);
      if c != 0 then c else CmpLabels(a[..|a| - 1], b[..|b| - 1])
  }

  function CmpNames(a: Text, b: Text): int { CmpLabels(Labels(a), Labels(b)) }

  // ---- a total order on label sequences ------------------------------------

  lemma {:induction false} LabelOrder(a: Text, b: Text)
    ensures CmpLabel(b, a) == -CmpLabel(a, b)
    ensures CmpLabel(a, b) == 0 <==> a == b
  {
    if a != [] && b != [] && a[0] == b[0] {
      LabelOrder(a[1..], b[1..]);
      assert a == [a[0]] + a[1..] && b == [b[0]] + b[1..];
    }
  }

  lemma {:induction false} LabelTrans(a: Text, b: Text, c: Text)
    requires CmpLabel(a, b) <= 0 && CmpLabel(b, c) <= 0
    ensures CmpLabel(a, c) <= 0
    ensures CmpLabel(a, b) < 0 || CmpLabel(b, c) < 0 ==> CmpLabel(a, c) < 0
  {
    if a != [] && b != [] && c != [] && a[0] == b[0] == c[0] {
      LabelTrans(a[1..], b[1..], c[1..]);
    }
  }

  lemma {:induction false} LabelsOrder(a: seq<Text>, b: seq<Text>)
    ensures CmpLabels(b, a) == -CmpLabels(a, b)
    ensures CmpLabels(a, b) == 0 <==> a == b
  {
    hide CmpLabel;
    if a != [] && b != [] {
      LabelOrder(a[|a| - 1], b[|b| - 1]);
      LabelsOrder(a[..|a| - 1], b[..|b| - 1]);
      assert a == a[..|a| - 1] + [a[|a| - 1]] && b == b[..|b| - 1] + [b[|b| - 1]];
    }
  }

  lemma {:induction false} LabelsTrans(a: seq<Text>, b: seq<Text>, c: seq<Text>)
    requires CmpLabels(a, b) <= 0 && CmpLabels(b, c) <= 0
    ensures CmpLabels(a, c) <= 0
    ensures CmpLabels(a, b) < 0 || CmpLabels(b, c) < 0 ==> CmpLabels(a, c) < 0
  {
    hide CmpLabel;
    if a != [] && b != [] && c != [] {
      var x, y, z := a[|a| - 1], b[|b| - 1], c[|c| - 1];
      LabelOrder(x, y); LabelOrder(y, z); LabelOrder(x, z);
      LabelTrans(x, y, z);
      if x == y == z { LabelsTrans(a[..|a| - 1], b[..|b| - 1], c[..|c| - 1]); }
    }
  }

  /** Names compare equal exactly when their labels are the same. */
  lemma NameOrder(a: Text, b: Text)
    ensures CmpNames(b, a) == -CmpNames(a, b)
    ensures CmpNames(a, b) == 0 <==> Labels(a) == Labels(b)
  {
    LabelsOrder(Labels(a), Labels(b));
  }

  lemma NameTrans(a: Text, b: Text, c: Text)
    requires CmpNames(a, b) <= 0 && CmpNames(b, c) <= 0
    ensures CmpNames(a, c) <= 0
    ensures CmpNames(a, b) < 0 || CmpNames(b, c) < 0 ==> CmpNames(a, c) < 0
  {
    LabelsTrans(Labels(a), Labels(b), Labels(c));
  }

  // ---- which order it is ---------------------------------------------------

  /** A proper start of the other, or smaller at the first octet that differs. */
  predicate LabelBefore(a: Text, b: Text) {
    || a < b
    || (exists i :: 0 <= i < |a| && i < |b| && a[..i] == b[..i] && a[i] < b[i])
  }

  /** The last `k` labels are the same. */
  predicate SameEnd(a: seq<Text>, b: seq<Text>, k: nat)
    requires k <= |a| && k <= |b|
  {
    a[|a| - k..] == b[|b| - k..]
  }

  /** The same but for the label before the last `k`, which is the smaller one. */
  predicate SmallerAt(a: seq<Text>, b: seq<Text>, k: nat) {
    k < |a| && k < |b| && SameEnd(a, b, k) && LabelBefore(a[|a| - 1 - k], b[|b| - 1 - k])
  }

  /** A proper end of the other, or with the smaller label at the rightmost that
      differ. */
  predicate NameBefore(a: seq<Text>, b: seq<Text>) {
    || (|a| < |b| && SameEnd(a, b, |a|))
    || (exists k :: 0 <= k < |a| && SmallerAt(a, b, k))
  }

  lemma {:induction false} LabelExact(a: Text, b: Text)
    ensures CmpLabel(a, b) < 0 <==> LabelBefore(a, b)
    decreases |a|
  {
    if a == [] {
    } else if b == [] {
      assert !LabelBefore(a, b);
    } else if a[0] != b[0] {
      if a[0] < b[0] { assert a[..0] == b[..0] && a[0] < b[0]; }
      else if i :| 0 <= i < |a| && i < |b| && a[..i] == b[..i] && a[i] < b[i] {
        if i > 0 { assert a[..i][0] == b[..i][0]; }
      }
    } else {
      LabelExact(a[1..], b[1..]);
      BeforeTail(a, b);
    }
  }

  lemma BeforeTail(a: Text, b: Text)
    requires a != [] && b != [] && a[0] == b[0]
    ensures LabelBefore(a, b) <==> LabelBefore(a[1..], b[1..])
  {
    var x, y := a[1..], b[1..];
    assert a == [a[0]] + x && b == [b[0]] + y;
    assert a < b <==> x < y;
    if i :| 0 <= i < |a| && i < |b| && a[..i] == b[..i] && a[i] < b[i] {
      assert i > 0;
      assert x[..i - 1] == a[..i][1..] && y[..i - 1] == b[..i][1..];
      assert x[i - 1] < y[i - 1];
    }
    if i :| 0 <= i < |x| && i < |y| && x[..i] == y[..i] && x[i] < y[i] {
      assert a[..i + 1] == [a[0]] + x[..i] && b[..i + 1] == [b[0]] + y[..i];
      assert a[i + 1] < b[i + 1];
    }
  }

  lemma SameEndSnoc(x: seq<Text>, y: seq<Text>, l: Text, k: nat)
    requires k <= |x| && k <= |y|
    ensures SameEnd(x + [l], y + [l], k + 1) <==> SameEnd(x, y, k)
  {
    var p, q := x[|x| - k..], y[|y| - k..];
    assert (x + [l])[|x| - k..] == p + [l] && (y + [l])[|y| - k..] == q + [l];
    if p + [l] == q + [l] { assert (p + [l])[..k] == p && (q + [l])[..k] == q; }
  }

  lemma SmallerSnoc(x: seq<Text>, y: seq<Text>, l: Text, k: nat)
    ensures SmallerAt(x + [l], y + [l], k + 1) <==> SmallerAt(x, y, k)
  {
    hide LabelBefore, SameEnd;
    if k < |x| && k < |y| { SameEndSnoc(x, y, l, k); }
  }

  lemma NameFront(a: seq<Text>, b: seq<Text>)
    requires a != [] && b != [] && a[|a| - 1] == b[|b| - 1]
    ensures NameBefore(a, b) <==> NameBefore(a[..|a| - 1], b[..|b| - 1])
  {
    var x, y, l := a[..|a| - 1], b[..|b| - 1], a[|a| - 1];
    assert a == x + [l] && b == y + [l];
    assert !SmallerAt(a, b, 0) by { LabelIrreflexive(l); }
    hide SmallerAt, SameEnd;
    if |x| < |y| { SameEndSnoc(x, y, l, |x|); }
    if k :| 0 <= k < |a| && SmallerAt(a, b, k) { SmallerSnoc(x, y, l, k - 1); Inside(x, y, k - 1); }
    if k :| 0 <= k < |x| && SmallerAt(x, y, k) { SmallerSnoc(x, y, l, k); }
  }

  lemma Inside(a: seq<Text>, b: seq<Text>, k: nat)
    requires SmallerAt(a, b, k)
    ensures k < |a| && k < |b|
  {
  }

  lemma LabelIrreflexive(a: Text)
    ensures !LabelBefore(a, a)
  {
  }

  lemma NameLast(a: seq<Text>, b: seq<Text>)
    requires a != [] && b != [] && a[|a| - 1] != b[|b| - 1]
    ensures NameBefore(a, b) <==> LabelBefore(a[|a| - 1], b[|b| - 1])
  {
    hide LabelBefore;
    assert SameEnd(a, b, 0);
    assert SmallerAt(a, b, 0) <==> LabelBefore(a[|a| - 1], b[|b| - 1]);
    forall k: nat | 0 < k <= |a| && k <= |b| ensures !SameEnd(a, b, k) {
      var p, q := a[|a| - k..], b[|b| - k..];
      assert p[k - 1] == a[|a| - 1] && q[k - 1] == b[|b| - 1];
    }
  }

  /** The comparison of label lists is the canonical order. */
  lemma {:induction false} CanonicalOrder(a: seq<Text>, b: seq<Text>)
    ensures CmpLabels(a, b) < 0 <==> NameBefore(a, b)
    ensures CmpLabels(a, b) > 0 <==> NameBefore(b, a)
    ensures CmpLabels(a, b) == 0 <==> a == b
    decreases |a|
  {
    hide CmpLabel, LabelBefore;
    LabelsOrder(a, b);
    if a == [] || b == [] {
      NameNone(a, b);
    } else {
      var x, y := a[|a| - 1], b[|b| - 1];
      LabelOrder(x, y);
      LabelExact(x, y);
      LabelExact(y, x);
      if x == y {
        CanonicalOrder(a[..|a| - 1], b[..|b| - 1]);
        NameFront(a, b);
        NameFront(b, a);
      } else {
        NameLast(a, b);
        NameLast(b, a);
      }
    }
  }

  lemma NameNone(a: seq<Text>, b: seq<Text>)
    requires a == [] || b == []
    ensures NameBefore(a, b) <==> |a| < |b|
    ensures NameBefore(b, a) <==> |b| < |a|
  {
    assert |a| < |b| ==> a[|a| - |a|..] == b[|b| - |a|..];
    assert |b| < |a| ==> b[|b| - |b|..] == a[|a| - |b|..];
  }

  // ---- the comparator as written -------------------------------------------

  lemma DotFromIs(name: Text, p: nat, e: nat)
    requires p <= e <= |name| && (e < |name| ==> name[e] == DOT)
    requires forall i :: p <= i < e ==> name[i] != DOT
    ensures DotFrom(name, p) == e
  {
  }

  lemma SplitStep(name: Text, p: nat, room: nat, e: nat, done: seq<Text>)
    requires p < |name| && room > 0 && e == DotFrom(name, p)
    ensures done + SplitFrom(name, p, room) ==
            done + [name[p..e]] + (if e < |name| then SplitFrom(name, e + 1, room - 1) else [])
  {
    SplitOne(name, p, room, e);
    hide SplitFrom, DotFrom;
    Assoc(done, [name[p..e]], if e < |name| then SplitFrom(name, e + 1, room - 1) else []);
  }

  lemma SplitOne(name: Text, p: nat, room: nat, e: nat)
    requires p < |name| && room > 0 && e == DotFrom(name, p)
    ensures SplitFrom(name, p, room) == [name[p..e]] + (if e < |name| then SplitFrom(name, e + 1, room - 1) else [])
  {
    hide DotFrom;
  }

  lemma Assoc<T>(a: seq<T>, b: seq<T>, c: seq<T>)
    ensures a + (b + c) == a + b + c
  {
  }

  lemma SplitEnd(name: Text, p: nat, room: nat)
    requires p <= |name| && (p == |name| || room == 0)
    ensures SplitFrom(name, p, room) == []
  {
  }

  /** Splits in place: one pass over the bytes, recording label spans. */
  method Split(name: Text) returns (labels: seq<Text>)
    ensures labels == Labels(name)
  {
    hide SplitFrom, DotFrom;
    labels := [];
    var p := 0;
    assert [] + Labels(name) == Labels(name);
    while p < |name| && |labels| < MAX_LABELS
      invariant 0 <= p <= |name| && |labels| <= MAX_LABELS
      invariant labels + SplitFrom(name, p, MAX_LABELS - |labels|) == Labels(name)
      decreases |name| - p
    {
      var start := p;
      while p < |name| && name[p] != DOT
        invariant start <= p <= |name|
        invariant forall i :: start <= i < p ==> name[i] != DOT
      {
        p := p + 1;
      }
      DotFromIs(name, start, p);
      SplitStep(name, start, MAX_LABELS - |labels|, p, labels);
      labels := labels + [name[start..p]];
      if p < |name| { p := p + 1; } else { SplitEnd(name, p, MAX_LABELS - |labels|); }
    }
    SplitEnd(name, p, MAX_LABELS - |labels|);
  }

  /** memcmp over the common length, then the lengths. */
  method CompareLabel(a: Text, b: Text) returns (c: int)
    ensures c == CmpLabel(a, b)
  {
    var i := 0;
    while i < |a| && i < |b|
      invariant 0 <= i <= |a| && i <= |b|
      invariant CmpLabel(a, b) == CmpLabel(a[i..], b[i..])
    {
      if a[i] != b[i] { return if a[i] < b[i] then -1 else 1; }
      i := i + 1;
    }
    return if |a| < |b| then -1 else if |a| > |b| then 1 else 0;
  }

  lemma CmpStep(a: seq<Text>, b: seq<Text>, i: nat, j: nat)
    requires 0 < i <= |a| && 0 < j <= |b|
    ensures CmpLabels(a[..i], b[..j]) ==
            var c := CmpLabel(a[i - 1], b[j - 1]); if c != 0 then c else CmpLabels(a[..i - 1], b[..j - 1])
  {
    assert a[..i][..i - 1] == a[..i - 1] && b[..j][..j - 1] == b[..j - 1];
  }

  /** Walk from the least significant label while both lists have one. */
  method CompareLists(a: seq<Text>, b: seq<Text>) returns (c: int)
    ensures c == CmpLabels(a, b)
    ensures (c < 0 <==> NameBefore(a, b)) && (c == 0 <==> a == b) && (c > 0 <==> NameBefore(b, a))
  {
    hide CmpLabel, CmpLabels, NameBefore;
    CanonicalOrder(a, b);
    var i, j := |a|, |b|;
    assert a[..i] == a && b[..j] == b;
    while i > 0 && j > 0
      invariant 0 <= i <= |a| && 0 <= j <= |b| && |a| - i == |b| - j
      invariant CmpLabels(a, b) == CmpLabels(a[..i], b[..j])
    {
      CmpStep(a, b, i, j);
      i, j := i - 1, j - 1;
      c := CompareLabel(a[i], b[j]);
      if c != 0 { return; }
    }
    CmpEnd(a[..i], b[..j]);
    return if |a| < |b| then -1 else if |a| > |b| then 1 else 0;
  }

  method CompareNames(a: Text, b: Text) returns (c: int)
    ensures c == CmpNames(a, b)
    ensures (c < 0 <==> NameBefore(Labels(a), Labels(b))) && (c == 0 <==> Labels(a) == Labels(b))
    ensures c > 0 <==> NameBefore(Labels(b), Labels(a))
  {
    hide NameBefore, SplitFrom;
    var as_ := Split(a);
    var bs := Split(b);
    c := CompareLists(as_, bs);
  }

  lemma CmpEnd(a: seq<Text>, b: seq<Text>)
    requires a == [] || b == []
    ensures CmpLabels(a, b) == if |a| < |b| then -1 else if |a| > |b| then 1 else 0
  {
  }
}
