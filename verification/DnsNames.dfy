/** Names of the wire codec: tokens between dots, lower-casing, and the
    canonical comparator (section 6.1 of RFC 4034). */
module DnsNames {
  import opened Bytes
  import opened Dns = DnsOrder

  /** Longest text that the fixed buffers hold, terminator excluded. */
  const MAX_TEXT := 255

  function Cut(t: Text): (r: Text)
    ensures |r| <= MAX_TEXT && (|t| <= MAX_TEXT ==> r == t)
  {
    if |t| <= MAX_TEXT then t else t[..MAX_TEXT]
  }

  // ---- lower case ----------------------------------------------------------

  function LowerByte(c: byte): byte { if 65 <= c <= 90 then c + 32 else c }

  function Lower(t: Text): (r: Text)
    ensures |r| == |t|
    ensures forall i :: 0 <= i < |t| ==> r[i] == LowerByte(t[i])
  {
    seq(|t|, i requires 0 <= i < |t| => LowerByte(t[i]))
  }

  function LowerAll(ls: seq<Text>): (r: seq<Text>)
    ensures |r| == |ls|
    ensures forall i :: 0 <= i < |ls| ==> r[i] == Lower(ls[i])
  {
    seq(|ls|, i requires 0 <= i < |ls| => Lower(ls[i]))
  }

  lemma LowerConcat(a: Text, b: Text)
    ensures Lower(a + b) == Lower(a) + Lower(b)
  {
  }

  predicate Letter(c: byte) { 65 <= c <= 90 || 97 <= c <= 122 }

  /** Lower-casing leaves no capital and identifies exactly the texts that differ in
      the case of letters only. */
  lemma FoldExact(a: Text, b: Text)
    ensures forall i :: 0 <= i < |a| ==> !(65 <= Lower(a)[i] <= 90) && (!Letter(a[i]) ==> Lower(a)[i] == a[i])
    ensures Lower(a) == Lower(b) <==>
            |a| == |b| && forall i :: 0 <= i < |a| ==>
              a[i] == b[i] || (Letter(a[i]) && Letter(b[i]) && (a[i] as int == b[i] as int + 32 || b[i] as int == a[i] as int + 32))
  {
    if Lower(a) == Lower(b) {
      forall i | 0 <= i < |a|
        ensures a[i] == b[i] || (Letter(a[i]) && Letter(b[i]) && (a[i] as int == b[i] as int + 32 || b[i] as int == a[i] as int + 32))
      {
        assert Lower(a)[i] == LowerByte(a[i]) && Lower(b)[i] == LowerByte(b[i]);
      }
    }
  }

  // ---- tokens --------------------------------------------------------------

  /** Maximal runs of bytes other than the dot, as strtok finds them. */
  function TokensFrom(t: Text, p: nat): seq<Text>
    requires p <= |t|
    decreases |t| - p
  {
    if p == |t| then []
    else if t[p] == DOT then TokensFrom(t, p + 1)
    else
      var e := DotFrom(t, p);
      [t[p..e]] + TokensFrom(t, e)
  }

  function Tokens(t: Text): seq<Text> { TokensFrom(t, 0) }

  predicate IsLabel(l: Text) { |l| > 0 && DOT !in l }

  predicate AreLabels(ls: seq<Text>) {
    forall i :: 0 <= i < |ls| ==> IsLabel(ls[i])
  }

  function Join(ls: seq<Text>): Text {
    if ls == [] then []
    else if |ls| == 1 then ls[0]
    else ls[0] + ([DOT] + Join(ls[1..]))
  }

  lemma JoinMore(l: Text, ls: seq<Text>)
    ensures Join([l] + ls) == if ls == [] then l else l + ([DOT] + Join(ls))
  {
    assert ([l] + ls)[1..] == ls;
  }

  lemma {:induction false} TokensAreLabels(t: Text, p: nat)
    requires p <= |t|
    ensures AreLabels(TokensFrom(t, p)) && |Join(TokensFrom(t, p))| <= |t| - p
    decreases |t| - p
  {
    if p < |t| {
      if t[p] == DOT {
        TokensAreLabels(t, p + 1);
      } else {
        var e := DotFrom(t, p);
        hide DotFrom;
        TokensAreLabels(t, e);
        var l, rest := t[p..e], TokensFrom(t, e);
        JoinMore(l, rest);
        if e < |t| { TokensAreLabels(t, e + 1); } else { assert rest == []; }
        assert AreLabels([l] + rest);
      }
    }
  }

  /** Tokens are undone by joining: names are their labels. */
  lemma {:induction false} TokensJoin(ls: seq<Text>, t: Text, p: nat)
    requires AreLabels(ls) && At(t, p, Join(ls)) && p + |Join(ls)| == |t|
    ensures TokensFrom(t, p) == ls
    decreases |ls|
  {
    hide DotFrom;
    if ls != [] {
      var l, e := ls[0], p + |ls[0]|;
      if |ls| > 1 {
        AtConcat(t, p, l, [DOT] + Join(ls[1..]));
        AtConcat(t, e, [DOT], Join(ls[1..]));
        assert t[e] == t[e..e + 1][0] == DOT;
        TokensJoin(ls[1..], t, e + 1);
        assert TokensFrom(t, e) == ls[1..];
      }
      assert t[p..e] == l;
      forall i | p <= i < e ensures t[i] != DOT {
        assert t[i] == l[i - p] && l[i - p] in l;
      }
      DotFromIs(t, p, e);
      assert ls == [l] + ls[1..];
    }
  }

  lemma TokensOfJoin(ls: seq<Text>)
    requires AreLabels(ls)
    ensures Tokens(Join(ls)) == ls
  {
    TokensJoin(ls, Join(ls), 0);
  }

  /** The first label of a joined name ends at the first dot. */
  lemma FirstLabel(ls: seq<Text>, t: Text, p: nat)
    requires ls != [] && DOT !in ls[0] && At(t, p, Join(ls)) && p + |Join(ls)| == |t|
    ensures var e := p + |ls[0]|;
            && e <= |t| && DotFrom(t, p) == e && t[p..e] == ls[0] && (|ls| == 1 ==> e == |t|)
            && (|ls| > 1 ==> e < |t| && At(t, e + 1, Join(ls[1..])) && e + 1 + |Join(ls[1..])| == |t|)
  {
    hide DotFrom;
    var l, e := ls[0], p + |ls[0]|;
    if |ls| > 1 {
      AtConcat(t, p, l, [DOT] + Join(ls[1..]));
      AtConcat(t, e, [DOT], Join(ls[1..]));
      assert t[e] == t[e..e + 1][0] == DOT;
    }
    assert t[p..e] == l;
    forall i | p <= i < e ensures t[i] != DOT {
      assert t[i] == l[i - p] && l[i - p] in l;
    }
    DotFromIs(t, p, e);
  }

  /** What stands between dots, but nothing after a trailing dot. */
  function Between(ls: seq<Text>): seq<Text>
    requires ls != []
  {
    if ls[|ls| - 1] == [] then ls[..|ls| - 1] else ls
  }

  lemma {:induction false} LabelsBetween(ls: seq<Text>, t: Text, p: nat, room: nat)
    requires ls != [] && (forall i :: 0 <= i < |ls| ==> DOT !in ls[i]) && At(t, p, Join(ls)) && p + |Join(ls)| == |t|
    ensures SplitFrom(t, p, room) == Take(Between(ls), room)
    decreases |ls|
  {
    hide DotFrom, At, Join, SplitFrom, Between, Take;
    FirstLabel(ls, t, p);
    TakeNone(ls);
    if room == 0 || p == |t| {
      SplitEnd(t, p, room);
      TakeOne(ls, room);
    } else {
      SplitOne(t, p, room, p + |ls[0]|);
      if |ls| > 1 {
        LabelsBetween(ls[1..], t, p + |ls[0]| + 1, room - 1);
        TakeMore(ls, room);
      } else {
        TakeOne(ls, room);
      }
    }
  }

  lemma TakeNone(ls: seq<Text>)
    requires ls != []
    ensures Take(Between(ls), 0) == []
  {
  }

  lemma TakeOne(ls: seq<Text>, room: nat)
    requires ls != []
    ensures |ls| == 1 && room > 0 ==> Take(Between(ls), room) == if ls[0] == [] then [] else [ls[0]] + []
  {
    if |ls| == 1 { assert ls == [ls[0]]; }
  }

  lemma TakeMore(ls: seq<Text>, room: nat)
    requires |ls| > 1 && room > 0
    ensures Take(Between(ls), room) == [ls[0]] + Take(Between(ls[1..]), room - 1)
  {
    assert ls[1..][..|ls| - 2] == ls[..|ls| - 1][1..];
  }

  /** The labels that the ordered index sees of a name: what stands between its dots,
      empty ones too, and at most 128. */
  lemma LabelsOfJoin(ls: seq<Text>)
    requires ls != [] && forall i :: 0 <= i < |ls| ==> DOT !in ls[i]
    ensures Labels(Join(ls)) == Take(if ls[|ls| - 1] == [] then ls[..|ls| - 1] else ls, 128)
  {
    hide Join;
    LabelsBetween(ls, Join(ls), 0, MAX_LABELS);
  }

  lemma {:induction false} LowerJoin(ls: seq<Text>)
    ensures Lower(Join(ls)) == Join(LowerAll(ls))
    decreases |ls|
  {
    if |ls| > 1 {
      LowerConcat(ls[0], [DOT] + Join(ls[1..]));
      LowerConcat([DOT], Join(ls[1..]));
      LowerJoin(ls[1..]);
      assert LowerAll(ls)[1..] == LowerAll(ls[1..]);
    }
  }

  lemma LowerLabels(ls: seq<Text>)
    requires AreLabels(ls)
    ensures AreLabels(LowerAll(ls))
  {
    forall i | 0 <= i < |ls| ensures IsLabel(Lower(ls[i])) {
      var l := ls[i];
      assert IsLabel(l);
      forall k | 0 <= k < |l| ensures Lower(l)[k] != DOT {
        assert l[k] in l;
      }
    }
  }

  /** Two names are the same up to case exactly when their labels are. */
  lemma SameName(a: seq<Text>, b: seq<Text>)
    requires AreLabels(a) && AreLabels(b)
    ensures Lower(Join(a)) == Lower(Join(b)) <==> LowerAll(a) == LowerAll(b)
  {
    LowerJoin(a); LowerJoin(b);
    LowerLabels(a); LowerLabels(b);
    TokensOfJoin(LowerAll(a)); TokensOfJoin(LowerAll(b));
  }

  lemma {:induction false} JoinPrefix(ls: seq<Text>, n: nat)
    requires n <= |ls|
    ensures |Join(ls[..n])| <= |Join(ls)|
    decreases n
  {
    if n > 1 {
      assert ls[..n][0] == ls[0] && ls[..n][1..] == ls[1..][..n - 1];
      JoinPrefix(ls[1..], n - 1);
    } else if n == 1 {
      assert ls[..n] == [ls[0]];
    }
  }

  // ---- names longer than the buffer ----------------------------------------

  /** The bytes past the buffer, if any, are dots. */
  predicate Uncut(t: Text) { forall i :: MAX_TEXT <= i < |t| ==> t[i] == DOT }

  /** The bytes other than dots from `p` on. */
  function NonDots(t: Text, p: nat): nat
    requires p <= |t|
    decreases |t| - p
  {
    if p == |t| then 0 else (if t[p] == DOT then 0 else 1) + NonDots(t, p + 1)
  }

  function BytesOf(ls: seq<Text>): nat { if ls == [] then 0 else |ls[0]| + BytesOf(ls[1..]) }

  lemma {:induction false} NonDotsRun(t: Text, p: nat, e: nat)
    requires p <= e <= |t| && forall i :: p <= i < e ==> t[i] != DOT
    ensures NonDots(t, p) == e - p + NonDots(t, e)
    decreases e - p
  {
    if p < e { NonDotsRun(t, p + 1, e); }
  }

  lemma {:induction false} TokenBytes(t: Text, p: nat)
    requires p <= |t|
    ensures BytesOf(TokensFrom(t, p)) == NonDots(t, p)
    decreases |t| - p
  {
    if p < |t| {
      if t[p] == DOT {
        TokenBytes(t, p + 1);
      } else {
        var e := DotFrom(t, p);
        hide DotFrom;
        NonDotsRun(t, p, e);
        TokenBytes(t, e);
        assert ([t[p..e]] + TokensFrom(t, e))[1..] == TokensFrom(t, e);
      }
    }
  }

  lemma {:induction false} NonDotsSplit(t: Text, p: nat, n: nat)
    requires p <= n <= |t|
    ensures NonDots(t, p) == NonDots(t[..n], p) + NonDots(t, n)
    decreases n - p
  {
    if p < n { NonDotsSplit(t, p + 1, n); }
  }

  lemma {:induction false} NonDotsNone(t: Text, p: nat)
    requires p <= |t|
    ensures NonDots(t, p) == 0 <==> forall i :: p <= i < |t| ==> t[i] == DOT
    decreases |t| - p
  {
    if p < |t| { NonDotsNone(t, p + 1); }
  }

  lemma {:induction false} BytesLower(ls: seq<Text>)
    ensures BytesOf(LowerAll(ls)) == BytesOf(ls)
  {
    if ls != [] {
      BytesLower(ls[1..]);
      assert LowerAll(ls)[1..] == LowerAll(ls[1..]);
    }
  }

  lemma {:induction false} BytesTake(ls: seq<Text>, n: nat)
    ensures BytesOf(Take(ls, n)) <= BytesOf(ls)
    decreases n
  {
    if 0 < n < |ls| {
      assert Take(ls, n)[0] == ls[0] && Take(ls, n)[1..] == Take(ls[1..], n - 1);
      BytesTake(ls[1..], n - 1);
    }
  }

  /** Cutting a name loses bytes of its labels exactly if it cuts more than dots. */
  lemma CutBytes(t: Text)
    ensures BytesOf(Tokens(Cut(t))) <= BytesOf(Tokens(t))
    ensures BytesOf(Tokens(Cut(t))) == BytesOf(Tokens(t)) <==> Uncut(t)
  {
    hide TokensFrom, NonDots, BytesOf;
    TokenBytes(t, 0);
    TokenBytes(Cut(t), 0);
    if |t| > MAX_TEXT {
      NonDotsSplit(t, 0, MAX_TEXT);
      NonDotsNone(t, MAX_TEXT);
    }
  }

  lemma {:induction false} DotsOnly(t: Text, p: nat)
    requires p <= |t| && forall i :: p <= i < |t| ==> t[i] == DOT
    ensures TokensFrom(t, p) == []
    decreases |t| - p
  {
    if p < |t| { DotsOnly(t, p + 1); }
  }

  lemma {:induction false} UncutTokens(t: Text, p: nat)
    requires Uncut(t) && |t| > MAX_TEXT && p <= MAX_TEXT
    ensures TokensFrom(t[..MAX_TEXT], p) == TokensFrom(t, p)
    decreases MAX_TEXT - p
  {
    var c := t[..MAX_TEXT];
    if p == MAX_TEXT {
      DotsOnly(t, p);
    } else if t[p] == DOT {
      UncutTokens(t, p + 1);
    } else {
      var e := DotFrom(t, p);
      assert t[MAX_TEXT] == DOT && e <= MAX_TEXT;
      DotFromIs(c, p, e);
      UncutTokens(t, e);
      assert c[p..e] == t[p..e];
    }
  }

  /** A name survives the buffer exactly if it fits but for trailing dots. */
  lemma CutExact(t: Text)
    ensures Tokens(Cut(t)) == Tokens(t) <==> Uncut(t)
  {
    CutBytes(t);
    if Uncut(t) && |t| > MAX_TEXT { UncutTokens(t, 0); }
  }

  // ---- the tokenizing loop -------------------------------------------------

  /** At most `room` tokens, in one pass. */
  method Tokenize(t: Text, room: nat) returns (ls: seq<Text>)
    ensures ls == if |Tokens(t)| <= room then Tokens(t) else Tokens(t)[..room]
  {
    ls := [];
    var p := 0;
    while p < |t| && |ls| < room
      invariant 0 <= p <= |t| && |ls| <= room && ls + TokensFrom(t, p) == Tokens(t)
      decreases |t| - p
    {
      if t[p] == DOT {
        p := p + 1;
      } else {
        var start := p;
        while p < |t| && t[p] != DOT
          invariant start <= p <= |t|
          invariant forall i :: start <= i < p ==> t[i] != DOT
        {
          p := p + 1;
        }
        DotFromIs(t, start, p);
        assert ls + ([t[start..p]] + TokensFrom(t, p)) == (ls + [t[start..p]]) + TokensFrom(t, p);
        ls := ls + [t[start..p]];
      }
    }
    if p == |t| { assert ls + [] == ls; }
    if |ls| == room { assert Tokens(t)[..room] == ls; if TokensFrom(t, p) == [] { assert ls + [] == ls; } }
  }

  // ---- canonical order -----------------------------------------------------

  function Take(ls: seq<Text>, n: nat): seq<Text> { if |ls| <= n then ls else ls[..n] }

  /** What the canonical comparator looks at. */
  function CanonLabels(t: Text): seq<Text> { Take(Tokens(Lower(Cut(t))), 128) }

  method CanonCmp(a: Text, b: Text) returns (c: int)
    ensures c == CmpLabels(CanonLabels(a), CanonLabels(b))
    ensures var x, y := LowerAll(Tokens(Cut(a))), LowerAll(Tokens(Cut(b)));
            (c < 0 <==> NameBefore(x, y)) && (c == 0 <==> x == y) && (c > 0 <==> NameBefore(y, x))
  {
    hide NameBefore, CmpLabels, Tokens;
    CanonAll(a);
    CanonAll(b);
    var la := Tokenize(Lower(Cut(a)), 128);
    var lb := Tokenize(Lower(Cut(b)), 128);
    c := CompareLists(la, lb);
  }

  lemma {:induction false} TokensLower(t: Text, p: nat)
    requires p <= |t|
    ensures TokensFrom(Lower(t), p) == LowerAll(TokensFrom(t, p))
    decreases |t| - p
  {
    if p < |t| {
      if t[p] == DOT {
        TokensLower(t, p + 1);
      } else {
        var e := DotFrom(t, p);
        DotFromIs(Lower(t), p, e);
        TokensLower(t, e);
        assert Lower(t)[p..e] == Lower(t[p..e]);
      }
    }
  }

  lemma {:induction false} TokenCount(t: Text, p: nat)
    requires p <= |t|
    ensures 2 * |TokensFrom(t, p)| <= |t| - p + 1
    decreases |t| - p
  {
    if p < |t| {
      if t[p] == DOT {
        TokenCount(t, p + 1);
      } else {
        var e := DotFrom(t, p);
        if e < |t| { TokenCount(t, e + 1); assert TokensFrom(t, e) == TokensFrom(t, e + 1); }
      }
    }
  }

  /** The canonical comparison is a total order on names without regard to case:
      zero exactly for the same labels, antisymmetric and transitive. The limit
      of 128 labels never cuts, because the text buffer holds no more. */
  lemma CanonOrder(a: Text, b: Text, c: Text)
    ensures CanonLabels(a) == LowerAll(Tokens(Cut(a)))
    ensures var ab := CmpLabels(CanonLabels(a), CanonLabels(b));
            var bc := CmpLabels(CanonLabels(b), CanonLabels(c));
            var ac := CmpLabels(CanonLabels(a), CanonLabels(c));
            && CmpLabels(CanonLabels(b), CanonLabels(a)) == -ab
            && (ab == 0 <==> LowerAll(Tokens(Cut(a))) == LowerAll(Tokens(Cut(b))))
            && (Uncut(a) && Uncut(b) ==> (ab == 0 <==> LowerAll(Tokens(a)) == LowerAll(Tokens(b))))
            && (ab <= 0 && bc <= 0 ==> ac <= 0 && (ab < 0 || bc < 0 ==> ac < 0))
  {
    hide CmpLabels, Tokens, Uncut;
    CanonAll(a); CanonAll(b);
    CutExact(a); CutExact(b);
    LabelsOrder(CanonLabels(a), CanonLabels(b));
    if CmpLabels(CanonLabels(a), CanonLabels(b)) <= 0 && CmpLabels(CanonLabels(b), CanonLabels(c)) <= 0 {
      LabelsTrans(CanonLabels(a), CanonLabels(b), CanonLabels(c));
    }
  }

  lemma CanonAll(a: Text)
    ensures CanonLabels(a) == LowerAll(Tokens(Cut(a)))
  {
    TokensLower(Cut(a), 0);
    TokenCount(Lower(Cut(a)), 0);
  }
}
