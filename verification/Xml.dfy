/** The bounded XML tokenizer: tags, skipping to a matching close, and finding
    direct children, against the text of a rendered forest. */
module Xml {
  import opened Bytes

  type Text = seq<byte>

  const MAX_DEPTH := 32

  const LT: byte := 60
  const GT: byte := 62
  const SLASH: byte := 47
  const BANG: byte := 33
  const QUERY: byte := 63
  const DASH: byte := 45
  const COMMENT_OPEN: Text := [60, 33, 45, 45]
  const COMMENT_END: Text := [45, 45, 62]
  const CDATA_OPEN: Text := [60, 33, 91, 67, 68, 65, 84, 65, 91]
  const CDATA_END: Text := [93, 93, 62]
  const PI_OPEN: Text := [60, 63]
  const PI_END: Text := [63, 62]

  predicate IsSpace(c: byte) { c == 32 || c == 9 || c == 10 || c == 13 }

  predicate IsQuote(c: byte) { c == 34 || c == 39 }

  // ---- tokenizer -----------------------------------------------------------

  datatype Tag =
    | Open(name: Text, start: nat, pos: nat)
    | Close(name: Text, start: nat, pos: nat)
    | SelfClose(name: Text, start: nat, pos: nat)
    | Skip(pos: nat) // comment, CDATA section or processing instruction
    | Error
    | Eof

  /** First '<' at or after `p`, or the end. */
  function FindLt(f: Text, p: nat): (q: nat)
    requires p <= |f|
    ensures p <= q <= |f| && (q < |f| ==> f[q] == LT)
    decreases |f| - p
  {
    if p == |f| || f[p] == LT then p else FindLt(f, p + 1)
  }

  /** First place at or after `p` where `pat` occurs. */
  function FindPat(f: Text, p: nat, pat: Text): (q: Option<nat>)
    ensures q.Some? ==> p <= q.value && At(f, q.value, pat)
    decreases |f| - p
  {
    if p + |pat| > |f| then None
    else if At(f, p, pat) then Some(p)
    else if p < |f| then FindPat(f, p + 1, pat)
    else None
  }

  predicate NameStop(c: byte) { c == GT || c == SLASH || IsSpace(c) }

  function NameEnd(f: Text, p: nat): (q: nat)
    requires p <= |f|
    ensures p <= q <= |f|
    decreases |f| - p
  {
    if p == |f| || NameStop(f[p]) then p else NameEnd(f, p + 1)
  }

  /** Past the attributes: the end of the tag and whether it closes itself.
      `quote` is the quote we are inside of, or zero. A tag cut off by the end of
      the text outside quotes is accepted as it stands. */
  function AttrScan(f: Text, p: nat, quote: byte): (r: Option<(nat, bool)>)
    requires p <= |f|
    ensures r.Some? ==> p <= r.value.0 <= |f|
    decreases |f| - p
  {
    if p == |f| then if quote != 0 then None else Some((p, false))
    else if quote != 0 then AttrScan(f, p + 1, if f[p] == quote then 0 else quote)
    else if IsQuote(f[p]) then AttrScan(f, p + 1, f[p])
    else if f[p] == SLASH && p + 1 < |f| && f[p + 1] == GT then Some((p + 2, true))
    else if f[p] == GT then Some((p + 1, false))
    else AttrScan(f, p + 1, 0)
  }

  function SkipTo(f: Text, p: nat, pat: Text): (t: Tag)
    ensures t.Skip? ==> p <= t.pos <= |f|
    ensures t.Skip? || t.Error?
  {
    match FindPat(f, p, pat)
    case None => Error
    case Some(q) => Skip(q + |pat|)
  }

  /** The tag at a '<'. */
  function TagAt(f: Text, q: nat): (t: Tag)
    requires q < |f| && f[q] == LT
    ensures t.Open? || t.Close? || t.SelfClose? || t.Skip? ==> q < t.pos <= |f|
    ensures !t.Eof?
  {
    if q + 1 < |f| && f[q + 1] == BANG then
      if At(f, q, COMMENT_OPEN) then SkipTo(f, q + 4, COMMENT_END)
      else if At(f, q, CDATA_OPEN) then SkipTo(f, q + 9, CDATA_END)
      else Error
    else if q + 1 < |f| && f[q + 1] == QUERY then SkipTo(f, q + 2, PI_END)
    else
      var close := q + 1 < |f| && f[q + 1] == SLASH;
      var s := if close then q + 2 else q + 1;
      var e := NameEnd(f, s);
      if e == s || e == |f| then Error
      else
        match AttrScan(f, e, 0)
        case None => Error
        case Some((pos, self)) =>
          if close then if self then Error else Close(f[s..e], q, pos)
          else if self then SelfClose(f[s..e], q, pos)
          else Open(f[s..e], q, pos)
  }

  function NextTag(f: Text, p: nat): (t: Tag)
    requires p <= |f|
    ensures t.Open? || t.Close? || t.SelfClose? || t.Skip? ==> p < t.pos <= |f|
  {
    var q := FindLt(f, p);
    if q == |f| then Eof else TagAt(f, q)
  }

  // ---- elements ------------------------------------------------------------

  /** From inside an element to its matching close tag: where that tag starts and
      where it ends. */
  function SkipToClose(f: Text, p: nat, name: Text, depth: nat): (r: Option<(nat, nat)>)
    requires p <= |f|
    ensures r.Some? ==> p < r.value.1 <= |f|
    decreases |f| - p
  {
    if depth > MAX_DEPTH then None
    else
      match NextTag(f, p)
      case Skip(q) => SkipToClose(f, q, name, depth)
      case SelfClose(_, _, q) => SkipToClose(f, q, name, depth)
      case Open(n, _, q) =>
        var inner := SkipToClose(f, q, n, depth + 1);
        if inner.None? then None else SkipToClose(f, inner.value.1, name, depth)
      case Close(n, s, q) => if n == name then Some((s, q)) else None
      case _ => None
  }

  /** No such child; malformed or too deep; or its content and what follows it,
      with the range of its opening tag. */
  datatype Child = Missing | Malformed | Child(start: nat, end: nat, next: nat, tagStart: nat, tagEnd: nat)

  function FindChild(f: Text, p: nat, tag: Text): (r: Child)
    requires p <= |f|
    ensures r.Child? ==> p < r.next <= |f|
    decreases |f| - p
  {
    match NextTag(f, p)
    case Skip(q) => FindChild(f, q, tag)
    case Close(_, _, _) => Missing
    case Eof => Missing
    case Error => Malformed
    case SelfClose(n, s, q) => if n == tag then Child(q, q, q, s, q) else FindChild(f, q, tag)
    case Open(n, s, q) =>
      var r := SkipToClose(f, q, n, 1);
      if r.None? then Malformed
      else if n == tag then Child(q, r.value.0, r.value.1, s, q)
      else FindChild(f, r.value.1, tag)
  }

  // ---- rendered forests ----------------------------------------------------

  /** White space, a name, an equals sign that may have white space on both sides,
      and a value in quotes of either kind. */
  datatype Attr = Attr(space: Text, key: Text, before: Text, after: Text, quote: byte, value: Text)

  datatype Node =
    | Chars(text: Text)
    | Comment(text: Text)
    | CData(text: Text)
    | Pi(text: Text)
    | Empty(name: Text, attrs: seq<Attr>, gap: Text)
    | Elem(name: Text, attrs: seq<Attr>, gap: Text, kids: Forest)

  datatype Forest = Nil | Cons(head: Node, tail: Forest)

  predicate Spaces(t: Text) { forall i :: 0 <= i < |t| ==> IsSpace(t[i]) }

  /** A byte that the attribute scan passes over. */
  predicate Dull(c: byte) { !IsQuote(c) && c != SLASH && c != GT }

  predicate AllDull(t: Text) { forall i :: 0 <= i < |t| ==> Dull(t[i]) }

  predicate AttrOk(a: Attr) {
    && |a.space| > 0 && Spaces(a.space) && AllDull(a.key) && Spaces(a.before) && Spaces(a.after)
    && IsQuote(a.quote) && a.quote !in a.value
  }

  predicate AttrsOk(attrs: seq<Attr>) { forall i :: 0 <= i < |attrs| ==> AttrOk(attrs[i]) }

  predicate NameOk(n: Text) {
    |n| > 0 && n[0] != BANG && n[0] != QUERY && forall i :: 0 <= i < |n| ==> !NameStop(n[i])
  }

  /** The end mark does not occur before the end. */
  predicate EndsFirst(t: Text, pat: Text) {
    forall i :: 0 <= i < |t| ==> !At(t + pat, i, pat)
  }

  predicate NodeOk(n: Node)
    decreases n
  {
    match n
    case Chars(t) => LT !in t
    case Comment(t) => EndsFirst(t, COMMENT_END)
    case CData(t) => EndsFirst(t, CDATA_END)
    case Pi(t) => EndsFirst(t, PI_END)
    case Empty(name, attrs, gap) => NameOk(name) && AttrsOk(attrs) && Spaces(gap)
    case Elem(name, attrs, gap, kids) => NameOk(name) && AttrsOk(attrs) && Spaces(gap) && ForestOk(kids)
  }

  predicate ForestOk(ns: Forest)
    decreases ns
  {
    ns.Cons? ==> NodeOk(ns.head) && ForestOk(ns.tail)
  }

  function RenderAttr(a: Attr): Text {
    a.space + a.key + a.before + [61] + a.after + [a.quote] + a.value + [a.quote]
  }

  function RenderAttrs(attrs: seq<Attr>): Text {
    if attrs == [] then [] else RenderAttr(attrs[0]) + RenderAttrs(attrs[1..])
  }

  /** Everything of a tag between its name and its end. */
  function Inside(attrs: seq<Attr>, gap: Text): Text { RenderAttrs(attrs) + gap }

  function OpenTag(name: Text, attrs: seq<Attr>, gap: Text): Text { [LT] + name + Inside(attrs, gap) + [GT] }

  function EmptyTag(name: Text, attrs: seq<Attr>, gap: Text): Text { [LT] + name + Inside(attrs, gap) + [SLASH, GT] }

  function CloseTag(name: Text): Text { [LT, SLASH] + name + [GT] }

  function RenderNode(n: Node): Text
    decreases n
  {
    match n
    case Chars(t) => t
    case Comment(t) => COMMENT_OPEN + (t + COMMENT_END)
    case CData(t) => CDATA_OPEN + (t + CDATA_END)
    case Pi(t) => PI_OPEN + (t + PI_END)
    case Empty(name, attrs, gap) => EmptyTag(name, attrs, gap)
    case Elem(name, attrs, gap, kids) => OpenTag(name, attrs, gap) + (Render(kids) + CloseTag(name))
  }

  function Render(ns: Forest): Text
    decreases ns
  {
    if ns.Nil? then [] else RenderNode(ns.head) + Render(ns.tail)
  }

  /** Deepest nesting of elements with open and close tags. */
  function Height(ns: Forest): nat
    decreases ns
  {
    match ns
    case Nil => 0
    case Cons(Elem(_, _, _, kids), rest) => if 1 + Height(kids) > Height(rest) then 1 + Height(kids) else Height(rest)
    case Cons(_, rest) => Height(rest)
  }

  // ---- scanning what was rendered ------------------------------------------

  lemma {:induction false} LtSkips(f: Text, p: nat, t: Text)
    requires At(f, p, t) && LT !in t
    ensures FindLt(f, p) == FindLt(f, p + |t|)
    decreases |t|
  {
    if t != [] {
      assert f[p] == f[p..p + |t|][0] == t[0];
      assert f[p + 1..p + |t|] == f[p..p + |t|][1..];
      assert t[0] in t;
      LtSkips(f, p + 1, t[1..]);
    }
  }

  lemma SubAt(f: Text, p: nat, u: Text, i: nat, pat: Text)
    requires At(f, p, u) && i + |pat| <= |u|
    ensures At(f, p + i, pat) <==> At(u, i, pat)
  {
    var b, c := u[i..i + |pat|], f[p + i..p + i + |pat|];
    forall k | 0 <= k < |pat| ensures b[k] == c[k] {
      assert f[p..p + |u|][i + k] == f[p + i + k];
    }
  }

  lemma {:induction false} PatFound(f: Text, p: nat, t: Text, pat: Text, i: nat)
    requires At(f, p, t + pat) && EndsFirst(t, pat) && i <= |t|
    ensures FindPat(f, p + i, pat) == Some(p + |t|)
    decreases |t| - i
  {
    if i < |t| {
      SubAt(f, p, t + pat, i, pat);
      PatFound(f, p, t, pat, i + 1);
    } else {
      AtConcat(f, p, t, pat);
    }
  }

  lemma {:induction false} NameScanned(f: Text, p: nat, n: Text)
    requires At(f, p, n) && p + |n| < |f| && NameStop(f[p + |n|])
    requires forall i :: 0 <= i < |n| ==> !NameStop(n[i])
    ensures NameEnd(f, p) == p + |n|
    decreases |n|
  {
    if n != [] {
      assert f[p] == f[p..p + |n|][0] == n[0];
      assert f[p + 1..p + |n|] == f[p..p + |n|][1..];
      NameScanned(f, p + 1, n[1..]);
    }
  }

  lemma {:induction false} DullScanned(f: Text, p: nat, t: Text)
    requires At(f, p, t) && AllDull(t)
    ensures AttrScan(f, p, 0) == AttrScan(f, p + |t|, 0)
    decreases |t|
  {
    if t != [] {
      assert f[p] == f[p..p + |t|][0] == t[0];
      assert f[p + 1..p + |t|] == f[p..p + |t|][1..];
      assert Dull(t[0]);
      DullScanned(f, p + 1, t[1..]);
    }
  }

  /** A tag whose attributes run to the end of the input counts as opened there, but
      not inside a quoted value. */
  lemma OpenEnded(f: Text, p: nat, t: Text, quote: byte, v: Text)
    requires p <= |f| && AllDull(t) && (f[p..] == t || (IsQuote(quote) && f[p..] == t + ([quote] + v) && quote !in v))
    ensures AttrScan(f, p, 0) == if f[p..] == t then Some((|f|, false)) else None
  {
    hide Dull;
    assert f[p..|f|] == f[p..];
    assert At(f, p, t);
    DullScanned(f, p, t);
    if f[p..] != t {
      var q := p + |t|;
      assert f[q] == f[p..][|t|] == quote;
      assert f[q + 1..] == f[p..][|t| + 1..] == v;
      Unclosed(f, q + 1, quote);
    }
  }

  lemma {:induction false} Unclosed(f: Text, p: nat, quote: byte)
    requires p <= |f| && quote !in f[p..] && quote != 0
    ensures AttrScan(f, p, quote) == None
    decreases |f| - p
  {
    if p < |f| {
      assert f[p] == f[p..][0] && f[p + 1..] == f[p..][1..];
      Unclosed(f, p + 1, quote);
    }
  }

  lemma {:induction false} ValueScanned(f: Text, p: nat, v: Text, q: byte)
    requires At(f, p, v + [q]) && IsQuote(q) && q !in v
    ensures AttrScan(f, p, q) == AttrScan(f, p + |v| + 1, 0)
    decreases |v|
  {
    var u := v + [q];
    assert f[p] == f[p..p + |u|][0] == u[0];
    if v != [] {
      assert v[0] in v;
      assert v[1..] + [q] == u[1..];
      assert f[p + 1..p + |u|] == f[p..p + |u|][1..];
      ValueScanned(f, p + 1, v[1..], q);
    }
  }

  lemma SpacesDull(t: Text)
    requires Spaces(t)
    ensures AllDull(t)
  {
  }

  lemma AttrScanned(f: Text, p: nat, a: Attr)
    requires AttrOk(a) && At(f, p, RenderAttr(a))
    ensures AttrScan(f, p, 0) == AttrScan(f, p + |RenderAttr(a)|, 0)
  {
    hide AttrScan;
    var lead, rest := a.space + a.key + a.before + [61] + a.after, a.value + [a.quote];
    assert RenderAttr(a) == lead + ([a.quote] + rest);
    AtConcat(f, p, lead, [a.quote] + rest);
    var q := p + |lead|;
    AtConcat(f, q, [a.quote], rest);
    LeadDull(a);
    DullScanned(f, p, lead);
    assert f[q] == f[q..q + 1][0] == a.quote;
    QuoteOpens(f, q);
    ValueScanned(f, q + 1, a.value, a.quote);
  }

  lemma LeadDull(a: Attr)
    requires AttrOk(a)
    ensures AllDull(a.space + a.key + a.before + [61] + a.after)
  {
    SpacesDull(a.space); SpacesDull(a.before); SpacesDull(a.after);
  }

  lemma QuoteOpens(f: Text, q: nat)
    requires q < |f| && IsQuote(f[q])
    ensures AttrScan(f, q, 0) == AttrScan(f, q + 1, f[q])
  {
  }

  lemma {:induction false} InsideScanned(f: Text, p: nat, attrs: seq<Attr>, gap: Text)
    requires AttrsOk(attrs) && Spaces(gap) && At(f, p, Inside(attrs, gap))
    ensures AttrScan(f, p, 0) == AttrScan(f, p + |Inside(attrs, gap)|, 0)
    decreases |attrs|
  {
    hide AttrScan, RenderAttr, AttrOk;
    if attrs == [] {
      assert Inside(attrs, gap) == gap;
      SpacesDull(gap);
      DullScanned(f, p, gap);
    } else {
      var a := attrs[0];
      assert Inside(attrs, gap) == RenderAttr(a) + Inside(attrs[1..], gap);
      AtConcat(f, p, RenderAttr(a), Inside(attrs[1..], gap));
      AttrScanned(f, p, a);
      InsideScanned(f, p + |RenderAttr(a)|, attrs[1..], gap);
    }
  }

  /** What follows a name stops it. */
  lemma AfterName(attrs: seq<Attr>, gap: Text, end: Text)
    requires AttrsOk(attrs) && Spaces(gap) && end != [] && NameStop(end[0])
    ensures NameStop((Inside(attrs, gap) + end)[0])
  {
    if attrs != [] {
      assert AttrOk(attrs[0]);
      assert (Inside(attrs, gap) + end)[0] == attrs[0].space[0];
    } else if gap != [] {
      assert (Inside(attrs, gap) + end)[0] == gap[0];
    } else {
      assert Inside(attrs, gap) + end == end;
    }
  }

  lemma FirstOf(f: Text, p: nat, t: Text)
    requires t != [] && At(f, p, t)
    ensures p < |f| && f[p] == t[0]
  {
    assert f[p] == f[p..p + |t|][0];
  }

  /** The name of a tag, and what the attribute scan makes of the rest. */
  lemma NamePart(f: Text, s: nat, name: Text, rest: Text)
    requires NameOk(name) && rest != [] && NameStop(rest[0]) && At(f, s, name + rest)
    ensures var e := s + |name|;
            e < |f| && f[s] == name[0] && f[s..e] == name && NameEnd(f, s) == e && At(f, e, rest)
  {
    hide NameEnd;
    var e := s + |name|;
    AtConcat(f, s, name, rest);
    FirstOf(f, s, name);
    FirstOf(f, e, rest);
    NameScanned(f, s, name);
  }

  lemma AttrPart(f: Text, e: nat, attrs: seq<Attr>, gap: Text, end: Text)
    requires AttrsOk(attrs) && Spaces(gap) && (end == [GT] || end == [SLASH, GT])
    requires At(f, e, Inside(attrs, gap) + end)
    ensures e + |Inside(attrs, gap)| + |end| <= |f|
    ensures AttrScan(f, e, 0) == Some((e + |Inside(attrs, gap)| + |end|, |end| == 2))
  {
    hide AttrScan, Inside, AttrOk;
    AtConcat(f, e, Inside(attrs, gap), end);
    InsideScanned(f, e, attrs, gap);
    TagEnds(f, e + |Inside(attrs, gap)|, end);
  }

  /** A tag with a name: its end is found past its attributes. */
  lemma NamedTag(f: Text, s: nat, name: Text, attrs: seq<Attr>, gap: Text, end: Text)
    requires NameOk(name) && AttrsOk(attrs) && Spaces(gap) && (end == [GT] || end == [SLASH, GT])
    requires At(f, s, name + (Inside(attrs, gap) + end))
    ensures var e := s + |name|;
            var z := e + |Inside(attrs, gap)| + |end|;
            z <= |f| && f[s] == name[0] && f[s..e] == name && NameEnd(f, s) == e && s < e < |f|
            && AttrScan(f, e, 0) == Some((z, |end| == 2))
  {
    hide AttrScan, NameEnd, Inside, AttrOk, At;
    AfterName(attrs, gap, end);
    NamePart(f, s, name, Inside(attrs, gap) + end);
    AttrPart(f, s + |name|, attrs, gap, end);
  }

  lemma TagEnds(f: Text, p: nat, end: Text)
    requires (end == [GT] || end == [SLASH, GT]) && At(f, p, end)
    ensures AttrScan(f, p, 0) == Some((p + |end|, |end| == 2))
  {
    assert f[p] == f[p..p + |end|][0];
    if |end| == 2 { assert f[p + 1] == f[p..p + 2][1]; }
  }

  lemma Regroup(a: Text, b: Text, c: Text, d: Text)
    ensures a + b + c + d == a + (b + (c + d))
  {
  }

  lemma OpenRead(f: Text, p: nat, name: Text, attrs: seq<Attr>, gap: Text)
    requires NameOk(name) && AttrsOk(attrs) && Spaces(gap) && At(f, p, OpenTag(name, attrs, gap))
    ensures NextTag(f, p) == Open(name, p, p + |OpenTag(name, attrs, gap)|)
  {
    hide AttrScan, NameEnd, Inside, AttrOk, At, FindPat;
    Regroup([LT], name, Inside(attrs, gap), [GT]);
    AtConcat(f, p, [LT], name + (Inside(attrs, gap) + [GT]));
    FirstOf(f, p, [LT]);
    NamedTag(f, p + 1, name, attrs, gap, [GT]);
  }

  lemma EmptyRead(f: Text, p: nat, name: Text, attrs: seq<Attr>, gap: Text)
    requires NameOk(name) && AttrsOk(attrs) && Spaces(gap) && At(f, p, EmptyTag(name, attrs, gap))
    ensures NextTag(f, p) == SelfClose(name, p, p + |EmptyTag(name, attrs, gap)|)
  {
    hide AttrScan, NameEnd, Inside, AttrOk, At, FindPat;
    Regroup([LT], name, Inside(attrs, gap), [SLASH, GT]);
    AtConcat(f, p, [LT], name + (Inside(attrs, gap) + [SLASH, GT]));
    FirstOf(f, p, [LT]);
    NamedTag(f, p + 1, name, attrs, gap, [SLASH, GT]);
  }

  lemma CloseRead(f: Text, p: nat, name: Text)
    requires NameOk(name) && At(f, p, CloseTag(name))
    ensures NextTag(f, p) == Close(name, p, p + |CloseTag(name)|)
  {
    assert Inside([], []) == [];
    hide AttrScan, NameEnd, AttrOk, At, FindPat, Inside;
    assert CloseTag(name) == [LT] + ([SLASH] + (name + (Inside([], []) + [GT])));
    AtConcat(f, p, [LT], [SLASH] + (name + (Inside([], []) + [GT])));
    AtConcat(f, p + 1, [SLASH], name + (Inside([], []) + [GT]));
    FirstOf(f, p, [LT]);
    FirstOf(f, p + 1, [SLASH]);
    NamedTag(f, p + 2, name, [], [], [GT]);
  }

  lemma CommentRead(f: Text, p: nat, t: Text)
    requires EndsFirst(t, COMMENT_END) && At(f, p, COMMENT_OPEN + (t + COMMENT_END))
    ensures NextTag(f, p) == Skip(p + 7 + |t|)
  {
    hide FindPat, NameEnd, AttrScan;
    AtConcat(f, p, COMMENT_OPEN, t + COMMENT_END);
    assert f[p] == f[p..p + 4][0] == LT && f[p + 1] == f[p..p + 4][1] == BANG;
    PatFound(f, p + 4, t, COMMENT_END, 0);
  }

  lemma CommentMark(f: Text, p: nat)
    ensures At(f, p, COMMENT_OPEN) ==> f[p + 2] == DASH
  {
    if At(f, p, COMMENT_OPEN) { assert f[p + 2] == f[p..p + 4][2]; }
  }

  lemma CDataRead(f: Text, p: nat, t: Text)
    requires EndsFirst(t, CDATA_END) && At(f, p, CDATA_OPEN + (t + CDATA_END))
    ensures NextTag(f, p) == Skip(p + 12 + |t|)
  {
    hide FindPat, NameEnd, AttrScan;
    AtConcat(f, p, CDATA_OPEN, t + CDATA_END);
    assert f[p] == f[p..p + 9][0] == LT && f[p + 1] == f[p..p + 9][1] == BANG && f[p + 2] == f[p..p + 9][2] == 91;
    CommentMark(f, p);
    PatFound(f, p + 9, t, CDATA_END, 0);
  }

  lemma PiRead(f: Text, p: nat, t: Text)
    requires EndsFirst(t, PI_END) && At(f, p, PI_OPEN + (t + PI_END))
    ensures NextTag(f, p) == Skip(p + 4 + |t|)
  {
    hide FindPat, NameEnd, AttrScan;
    AtConcat(f, p, PI_OPEN, t + PI_END);
    assert f[p] == f[p..p + 2][0] == LT && f[p + 1] == f[p..p + 2][1] == QUERY;
    PatFound(f, p + 2, t, PI_END, 0);
  }

  lemma CharsRead(f: Text, p: nat, t: Text)
    requires LT !in t && At(f, p, t)
    ensures NextTag(f, p) == NextTag(f, p + |t|)
  {
    hide TagAt;
    LtSkips(f, p, t);
  }

  /** What the tokenizer sees at a node other than an element with content:
      either nothing, so that it goes on behind, or a tag to step over. */
  lemma LeafRead(f: Text, p: nat, n: Node)
    requires NodeOk(n) && !n.Elem? && At(f, p, RenderNode(n))
    ensures n.Chars? ==> NextTag(f, p) == NextTag(f, p + |RenderNode(n)|)
    ensures n.Empty? ==> NextTag(f, p) == SelfClose(n.name, p, p + |RenderNode(n)|)
    ensures !n.Chars? && !n.Empty? ==> NextTag(f, p) == Skip(p + |RenderNode(n)|)
  {
    hide NextTag, EmptyTag, EndsFirst;
    if n.Chars? { CharsRead(f, p, n.text); }
    else if n.Comment? { CommentRead(f, p, n.text); }
    else if n.CData? { CDataRead(f, p, n.text); }
    else if n.Pi? { PiRead(f, p, n.text); }
    else { EmptyRead(f, p, n.name, n.attrs, n.gap); }
  }

  // ---- matching close tags -------------------------------------------------

  lemma SkipSame(f: Text, p: nat, q: nat, name: Text, depth: nat)
    requires p <= |f| && q <= |f| && NextTag(f, p) == NextTag(f, q)
    ensures SkipToClose(f, p, name, depth) == SkipToClose(f, q, name, depth)
  {
    hide NextTag;
  }

  lemma SkipStep(f: Text, p: nat, q: nat, n: Node, name: Text, depth: nat)
    requires NodeOk(n) && !n.Elem? && At(f, p, RenderNode(n)) && q == p + |RenderNode(n)|
    ensures SkipToClose(f, p, name, depth) == SkipToClose(f, q, name, depth)
  {
    hide NextTag, RenderNode, NodeOk;
    LeafRead(f, p, n);
    if n.Chars? { SkipSame(f, p, q, name, depth); }
  }

  /** The parts of a rendered element. */
  lemma ElemParts(f: Text, p: nat, n: Node)
    requires n.Elem? && At(f, p, RenderNode(n))
    ensures var s := p + |OpenTag(n.name, n.attrs, n.gap)|;
            var e := s + |Render(n.kids)|;
            && At(f, p, OpenTag(n.name, n.attrs, n.gap)) && At(f, s, Render(n.kids)) && At(f, e, CloseTag(n.name))
            && e + |CloseTag(n.name)| == p + |RenderNode(n)|
            && At(f, s, Render(n.kids) + CloseTag(n.name))
  {
    hide OpenTag, CloseTag, Render;
    AtConcat(f, p, OpenTag(n.name, n.attrs, n.gap), Render(n.kids) + CloseTag(n.name));
    AtConcat(f, p + |OpenTag(n.name, n.attrs, n.gap)|, Render(n.kids), CloseTag(n.name));
  }

  /** Skipping over rendered content finds its close tag, exactly when the
      nesting stays within the limit. */
  lemma {:induction false} SkipRendered(f: Text, p: nat, ns: Forest, name: Text, depth: nat)
    requires ForestOk(ns) && NameOk(name) && At(f, p, Render(ns) + CloseTag(name))
    ensures SkipToClose(f, p, name, depth) ==
            if depth > MAX_DEPTH || depth + Height(ns) > MAX_DEPTH then None
            else Some((p + |Render(ns)|, p + |Render(ns)| + |CloseTag(name)|))
    decreases ns
  {
    hide CloseTag, OpenTag, NextTag, NameOk, RenderNode, SkipToClose, NodeOk, AttrOk, At;
    match ns
    case Nil =>
      assert Render(ns) + CloseTag(name) == CloseTag(name);
      CloseRead(f, p, name);
      SkipAtClose(f, p, name, depth);
    case Cons(n, rest) =>
      var q := p + |RenderNode(n)|;
      assert Render(ns) + CloseTag(name) == RenderNode(n) + (Render(rest) + CloseTag(name));
      AtConcat(f, p, RenderNode(n), Render(rest) + CloseTag(name));
      SkipRendered(f, q, rest, name, depth);
      if n.Elem? {
        ElemOk(n);
        ElemParts(f, p, n);
        OpenRead(f, p, n.name, n.attrs, n.gap);
        SkipRendered(f, p + |OpenTag(n.name, n.attrs, n.gap)|, n.kids, n.name, depth + 1);
        SkipAtOpen(f, p, name, depth);
      } else {
        SkipStep(f, p, q, n, name, depth);
      }
  }

  lemma ElemOk(n: Node)
    requires n.Elem? && NodeOk(n)
    ensures NameOk(n.name) && AttrsOk(n.attrs) && Spaces(n.gap) && ForestOk(n.kids)
  {
  }

  lemma SkipAtClose(f: Text, p: nat, name: Text, depth: nat)
    requires p <= |f| && NextTag(f, p).Close? && NextTag(f, p).name == name
    ensures SkipToClose(f, p, name, depth) ==
            if depth > MAX_DEPTH then None else Some((NextTag(f, p).start, NextTag(f, p).pos))
  {
    hide NextTag;
  }

  lemma SkipAtOpen(f: Text, p: nat, name: Text, depth: nat)
    requires p <= |f| && NextTag(f, p).Open?
    ensures var inner := SkipToClose(f, NextTag(f, p).pos, NextTag(f, p).name, depth + 1);
            SkipToClose(f, p, name, depth) ==
            if depth > MAX_DEPTH || inner.None? then None else SkipToClose(f, inner.value.1, name, depth)
  {
    hide NextTag;
  }

  // ---- finding children ----------------------------------------------------

  /** The first direct child with a name, in the forest itself. */
  datatype Hit = NoHit | TooDeep | Hit(child: Child, kids: Forest, rest: Forest)

  function FirstNamed(ns: Forest, tag: Text, p: nat): Hit
    decreases ns
  {
    match ns
    case Nil => NoHit
    case Cons(n, rest) =>
      var q := p + |RenderNode(n)|;
      match n
      case Empty(name, _, _) => if name == tag then Hit(Child(q, q, q, p, q), Nil, rest) else FirstNamed(rest, tag, q)
      case Elem(name, attrs, gap, kids) =>
        if 1 + Height(kids) > MAX_DEPTH then TooDeep
        else if name == tag then
          var s := p + |OpenTag(name, attrs, gap)|;
          Hit(Child(s, s + |Render(kids)|, q, p, s), kids, rest)
        else FirstNamed(rest, tag, q)
      case _ => FirstNamed(rest, tag, q)
  }

  function Answer(h: Hit): Child {
    match h
    case NoHit => Missing
    case TooDeep => Malformed
    case Hit(c, _, _) => c
  }

  lemma FindSame(f: Text, p: nat, q: nat, tag: Text)
    requires p <= |f| && q <= |f| && NextTag(f, p) == NextTag(f, q)
    ensures FindChild(f, p, tag) == FindChild(f, q, tag)
  {
    hide NextTag;
  }

  lemma FindAtOpen(f: Text, p: nat, tag: Text)
    requires p <= |f| && NextTag(f, p).Open?
    ensures var t := NextTag(f, p);
            var r := SkipToClose(f, t.pos, t.name, 1);
            FindChild(f, p, tag) ==
            if r.None? then Malformed
            else if t.name == tag then Child(t.pos, r.value.0, r.value.1, t.start, t.pos)
            else FindChild(f, r.value.1, tag)
  {
    hide NextTag, SkipToClose;
  }

  lemma FindAtLeaf(f: Text, p: nat, q: nat, n: Node, tag: Text)
    requires NodeOk(n) && !n.Elem? && At(f, p, RenderNode(n)) && q == p + |RenderNode(n)|
    ensures FindChild(f, p, tag) ==
            if n.Empty? && n.name == tag then Child(q, q, q, p, q) else FindChild(f, q, tag)
  {
    hide NextTag, RenderNode, NodeOk, SkipToClose;
    LeafRead(f, p, n);
    if n.Chars? { FindSame(f, p, q, tag); }
  }

  /** Searching the text finds what the forest holds: the first direct child of
      that name, wherever comments, CDATA, quoted attributes or same-named
      descendants stand before it. */
  lemma {:induction false} FindRendered(f: Text, p: nat, ns: Forest, tag: Text)
    requires ForestOk(ns) && At(f, p, Render(ns)) && p + |Render(ns)| == |f|
    ensures FindChild(f, p, tag) == Answer(FirstNamed(ns, tag, p))
    decreases ns
  {
    hide NextTag, RenderNode, NodeOk, NameOk, SkipToClose, FindChild, CloseTag, OpenTag, AttrOk, At;
    match ns
    case Nil => FindNothing(f, p, tag);
    case Cons(n, rest) =>
      var q := p + |RenderNode(n)|;
      AtConcat(f, p, RenderNode(n), Render(rest));
      FindRendered(f, q, rest, tag);
      if n.Elem? {
        ElemOk(n);
        ElemParts(f, p, n);
        OpenRead(f, p, n.name, n.attrs, n.gap);
        SkipRendered(f, p + |OpenTag(n.name, n.attrs, n.gap)|, n.kids, n.name, 1);
        FindAtOpen(f, p, tag);
      } else {
        FindAtLeaf(f, p, q, n, tag);
      }
  }

  lemma FindNothing(f: Text, p: nat, tag: Text)
    requires p == |f|
    ensures FindChild(f, p, tag) == Missing
  {
  }

  /** A hit is exact: its range is the rendered content of the child, and what
      follows it is the rendered rest. */
  lemma {:induction false} HitExact(f: Text, p: nat, ns: Forest, tag: Text)
    requires ForestOk(ns) && At(f, p, Render(ns)) && p + |Render(ns)| == |f| && FirstNamed(ns, tag, p).Hit?
    ensures var h := FirstNamed(ns, tag, p);
            && h.child.Child? && h.child.start <= h.child.end <= |f| && f[h.child.start..h.child.end] == Render(h.kids)
            && At(f, h.child.next, Render(h.rest)) && h.child.next + |Render(h.rest)| == |f|
            && ForestOk(h.rest) && ForestOk(h.kids) && Size(h.rest) < Size(ns)
            && Named(ns, tag) == [h.kids] + Named(h.rest, tag)
            && Height(h.rest) <= Height(ns)
    decreases ns
  {
    hide RenderNode, NodeOk, OpenTag, CloseTag, AttrOk, At;
    var n, q := ns.head, p + |RenderNode(ns.head)|;
    AtConcat(f, p, RenderNode(n), Render(ns.tail));
    if !((n.Elem? || n.Empty?) && n.name == tag) {
      assert FirstNamed(ns, tag, p) == FirstNamed(ns.tail, tag, q);
      assert [] + Named(ns.tail, tag) == Named(ns.tail, tag);
      HitExact(f, q, ns.tail, tag);
    } else if n.Elem? {
      ElemOk(n);
      ElemParts(f, p, n);
      AtSlice(f, p + |OpenTag(n.name, n.attrs, n.gap)|, Render(n.kids));
    } else {
      AtBound(f, p, RenderNode(n));
      assert f[q..q] == [];
    }
  }

  lemma AtSlice(f: Text, p: nat, t: Text)
    requires At(f, p, t)
    ensures p + |t| <= |f| && f[p..p + |t|] == t
  {
  }

  lemma AtBound(f: Text, p: nat, t: Text)
    requires At(f, p, t)
    ensures p + |t| <= |f|
  {
  }

  function Size(ns: Forest): nat { if ns.Nil? then 0 else 1 + Size(ns.tail) }

  /** The contents of all direct children with a name, in order. */
  function Named(ns: Forest, tag: Text): seq<Forest> {
    match ns
    case Nil => []
    case Cons(Empty(name, _, _), rest) => (if name == tag then [Nil] else []) + Named(rest, tag)
    case Cons(Elem(name, _, _, kids), rest) => (if name == tag then [kids] else []) + Named(rest, tag)
    case Cons(_, rest) => Named(rest, tag)
  }

  lemma {:induction false} NoHitNoNames(ns: Forest, tag: Text, p: nat)
    requires Height(ns) <= MAX_DEPTH
    ensures !FirstNamed(ns, tag, p).TooDeep?
    ensures FirstNamed(ns, tag, p).NoHit? ==> Named(ns, tag) == []
    decreases ns
  {
    hide RenderNode;
    if ns.Cons? {
      NoHitNoNames(ns.tail, tag, p + |RenderNode(ns.head)|);
    }
  }

  /** Repeated searches, each from where the last one ended. */
  function Enumerate(f: Text, p: nat, tag: Text): seq<Text>
    requires p <= |f|
    decreases |f| - p
  {
    match FindChild(f, p, tag)
    case Child(s, e, next, _, _) => (if s <= e <= |f| then [f[s..e]] else []) + Enumerate(f, next, tag)
    case _ => []
  }

  function RenderEach(ks: seq<Forest>): (r: seq<Text>)
    ensures |r| == |ks|
  {
    seq(|ks|, i requires 0 <= i < |ks| => Render(ks[i]))
  }

  /** They visit all direct children of that name in order, each with exactly its
      content. */
  lemma {:induction false} EnumerateRendered(f: Text, p: nat, ns: Forest, tag: Text)
    requires ForestOk(ns) && Height(ns) <= MAX_DEPTH && At(f, p, Render(ns)) && p + |Render(ns)| == |f|
    ensures Enumerate(f, p, tag) == RenderEach(Named(ns, tag))
    decreases Size(ns)
  {
    hide FindChild, FirstNamed, Render, Named, ForestOk, Height;
    FindRendered(f, p, ns, tag);
    NoHitNoNames(ns, tag, p);
    if FirstNamed(ns, tag, p).Hit? {
      var h := FirstNamed(ns, tag, p);
      HitExact(f, p, ns, tag);
      EnumerateRendered(f, h.child.next, h.rest, tag);
      assert RenderEach([h.kids] + Named(h.rest, tag)) == [Render(h.kids)] + RenderEach(Named(h.rest, tag));
    }
  }

  /** An element inside an element, `n` deep. */
  function Nested(name: Text, n: nat): (ns: Forest)
    requires NameOk(name)
    ensures ForestOk(ns) && Height(ns) == n
  {
    if n == 0 then Nil else Cons(Elem(name, [], [], Nested(name, n - 1)), Nil)
  }

  /** Thirty-two nested elements are found, thirty-three are malformed. */
  lemma DepthLimit(name: Text)
    requires NameOk(name)
    ensures FindChild(Render(Nested(name, 32)), 0, name).Child?
    ensures FindChild(Render(Nested(name, 33)), 0, name) == Malformed
  {
    hide FindChild, Render, RenderNode, OpenTag;
    var a, b := Render(Nested(name, 32)), Render(Nested(name, 33));
    assert At(a, 0, a) && At(b, 0, b) by { assert a[0..|a|] == a && b[0..|b|] == b; }
    FindRendered(a, 0, Nested(name, 32), name);
    FindRendered(b, 0, Nested(name, 33), name);
    assert Height(Nested(name, 31)) == 31 && Height(Nested(name, 32)) == 32;
  }
}
