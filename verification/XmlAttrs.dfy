/** What attribute extraction reads from the opening tag of a rendered element. It
    does not track quotes, so a quoted value can pass for an attribute. */
module XmlAttrs {
  import opened Bytes
  import opened Xml
  import opened XmlScanner

  /** First place at or after `i` that passes for an attribute of that name. */
  function FirstPass(f: Text, s: nat, e: nat, attr: Text, i: nat): (r: Option<nat>)
    requires s <= i && e <= |f|
    ensures r.Some? ==> i <= r.value && r.value + |attr| < e && ValueAt(f, s, e, attr, r.value).Some?
    decreases e - i
  {
    if i + |attr| >= e then None
    else if ValueAt(f, s, e, attr, i).Some? then Some(i)
    else FirstPass(f, s, e, attr, i + 1)
  }

  lemma {:induction false} FirstPassLeast(f: Text, s: nat, e: nat, attr: Text, i: nat, j: nat)
    requires s <= i <= j && j + |attr| < e <= |f| && ValueAt(f, s, e, attr, j).Some?
    ensures var r := FirstPass(f, s, e, attr, i); r.Some? && r.value <= j
    decreases j - i
  {
    hide ValueAt;
    if i < j { FirstPassLeast(f, s, e, attr, i + 1, j); }
  }

  lemma {:induction false} ExtractFirst(f: Text, s: nat, e: nat, attr: Text, cap: nat, i: nat)
    requires s <= i && e <= |f| && cap > 0
    ensures var r := FirstPass(f, s, e, attr, i);
            Extract(f, s, e, attr, cap, i) ==
            if r.None? then [] else Reading(f, e, ValueAt(f, s, e, attr, r.value).value, cap)
    decreases e - i
  {
    hide ValueAt, Reading;
    if i + |attr| < e { ExtractFirst(f, s, e, attr, cap, i + 1); }
  }

  /** A value cut to the room there is. */
  function Shorten(v: Text, cap: nat): Text
    requires cap > 0
  {
    if |v| >= cap then v[..cap - 1] else v
  }

  // ---- the place of an attribute -------------------------------------------

  predicate TagEnd(end: Text) { end == [GT] || end == [SLASH, GT] }

  function TagText(name: Text, attrs: seq<Attr>, gap: Text, end: Text): Text {
    [LT] + name + Inside(attrs, gap) + end
  }

  /** Where the name of attribute `t` stands in a tag that starts at `s`. */
  function KeyPos(s: nat, name: Text, attrs: seq<Attr>, t: nat): nat
    requires t < |attrs|
  {
    s + 1 + |name| + |RenderAttrs(attrs[..t])| + |attrs[t].space|
  }

  lemma {:induction false} AttrsSplit(attrs: seq<Attr>, t: nat)
    requires t < |attrs|
    ensures RenderAttrs(attrs) == RenderAttrs(attrs[..t]) + (RenderAttr(attrs[t]) + RenderAttrs(attrs[t + 1..]))
    decreases t
  {
    hide RenderAttr;
    if t > 0 {
      AttrsSplit(attrs[1..], t - 1);
      assert attrs[..t][0] == attrs[0] && attrs[..t][1..] == attrs[1..][..t - 1];
      assert attrs[1..][t..] == attrs[t + 1..];
    }
  }

  lemma {:induction false} ByteFound(f: Text, p: nat, e: nat, v: Text, c: byte)
    requires At(f, p, v + [c]) && p + |v| < e <= |f| && c !in v
    ensures FindByte(f, p, e, c) == p + |v|
    decreases |v|
  {
    var u := v + [c];
    assert f[p] == f[p..p + |u|][0] == u[0];
    if v != [] {
      assert v[0] in v;
      assert v[1..] + [c] == u[1..];
      assert f[p + 1..p + |u|] == f[p..p + |u|][1..];
      ByteFound(f, p + 1, e, v[1..], c);
    }
  }

  /** Where the value starts if the name stands at `k`. */
  function ValuePos(a: Attr, k: nat): nat { k + |a.key| + |a.before| + |a.after| + 2 }

  /** The pieces of a rendered attribute whose name stands at `k`. */
  ghost predicate Pieces(f: Text, k: nat, a: Attr) {
    var q := k + |a.key| + |a.before|;
    && |a.space| <= k && At(f, k - |a.space|, a.space) && At(f, k, a.key) && At(f, k + |a.key|, a.before)
    && q < |f| && f[q] == 61 && At(f, q + 1, a.after) && q + 1 + |a.after| < |f| && f[q + 1 + |a.after|] == a.quote
    && At(f, ValuePos(a, k), a.value + [a.quote])
  }

  lemma Assoc(a: Text, b: Text, c: Text)
    ensures a + b + c == a + (b + c)
  {
  }

  lemma RenderGrouped(a: Attr)
    ensures RenderAttr(a) ==
            a.space + (a.key + (a.before + ([61] + (a.after + ([a.quote] + (a.value + [a.quote]))))))
  {
    var q, tail := [a.quote], a.value + [a.quote];
    var l4 := a.space + a.key + a.before + [61];
    Assoc(l4 + a.after + q, a.value, q);
    Assoc(l4 + a.after, q, tail);
    Assoc(l4, a.after, q + tail);
    Assoc(a.space + a.key + a.before, [61], a.after + (q + tail));
    Assoc(a.space + a.key, a.before, [61] + (a.after + (q + tail)));
    Assoc(a.space, a.key, a.before + ([61] + (a.after + (q + tail))));
  }

  lemma TwoParts(f: Text, p: nat, a: Text, b: Text, rest: Text)
    requires At(f, p, a + (b + rest))
    ensures At(f, p, a) && At(f, p + |a|, b) && At(f, p + |a| + |b|, rest)
  {
    hide At;
    AtConcat(f, p, a, b + rest);
    AtConcat(f, p + |a|, b, rest);
  }

  /** An equals sign or a quote, with white space before it. */
  lemma MarkPart(f: Text, p: nat, sp: Text, c: byte, rest: Text)
    requires At(f, p, sp + ([c] + rest))
    ensures At(f, p, sp) && p + |sp| < |f| && f[p + |sp|] == c && At(f, p + |sp| + 1, rest)
  {
    hide At;
    TwoParts(f, p, sp, [c], rest);
    FirstOf(f, p + |sp|, [c]);
  }

  lemma AttrPieces(f: Text, k: nat, a: Attr)
    requires |a.space| <= k && At(f, k - |a.space|, RenderAttr(a))
    ensures Pieces(f, k, a)
  {
    hide At, RenderAttr;
    var tail := a.value + [a.quote];
    var last := a.after + ([a.quote] + tail);
    RenderGrouped(a);
    TwoParts(f, k - |a.space|, a.space, a.key, a.before + ([61] + last));
    MarkPart(f, k + |a.key|, a.before, 61, last);
    MarkPart(f, k + |a.key| + |a.before| + 1, a.after, a.quote, tail);
  }

  predicate Blanks(t: Text) { forall i :: 0 <= i < |t| ==> Blank(t[i]) }

  lemma NoBlank(f: Text, p: nat, e: nat)
    requires p < e <= |f| && !Blank(f[p])
    ensures SkipBlanks(f, p, e) == p
  {
  }

  /** Blanks are passed over; a line break is not. */
  lemma {:induction false} BlanksOver(f: Text, p: nat, e: nat, sp: Text)
    requires At(f, p, sp) && Spaces(sp) && p + |sp| < e <= |f| && !Blank(f[p + |sp|])
    ensures Blanks(sp) ==> SkipBlanks(f, p, e) == p + |sp|
    ensures !Blanks(sp) ==> SkipBlanks(f, p, e) < e && IsSpace(f[SkipBlanks(f, p, e)])
    decreases |sp|
  {
    if sp != [] {
      assert f[p] == f[p..p + |sp|][0] == sp[0];
      assert f[p + 1..p + |sp|] == f[p..p + |sp|][1..];
      BlanksOver(f, p + 1, e, sp[1..]);
    }
  }

  /** No line break stands around the equals sign. */
  predicate Tight(a: Attr) { Blanks(a.before) && Blanks(a.after) }

  /** The test at one place, when the name is there. */
  lemma ValueSteps(f: Text, s: nat, e: nat, attr: Text, k: nat)
    requires s <= k && k + |attr| < e <= |f| && At(f, k, attr) && (k == s || !IdentByte(f[k - 1]))
    ensures var j := SkipBlanks(f, k + |attr|, e);
            ValueAt(f, s, e, attr, k) ==
            if j == e || f[j] != 61 then None
            else var z := SkipBlanks(f, j + 1, e); if z == e || !IsQuote(f[z]) then None else Some(z + 1)
  {
    hide SkipBlanks;
  }

  lemma OwnValue(f: Text, s: nat, e: nat, k: nat, a: Attr)
    requires AttrOk(a) && Pieces(f, k, a) && s < k && ValuePos(a, k) < e <= |f|
    ensures ValueAt(f, s, e, a.key, k) == if Tight(a) then Some(ValuePos(a, k)) else None
  {
    hide SkipBlanks, Blanks, Spaces, AllDull, ValueAt;
    var q := k + |a.key| + |a.before|;
    BeforeKey(f, k, a.space);
    ValueSteps(f, s, e, a.key, k);
    BlanksOver(f, k + |a.key|, e, a.before);
    BlanksOver(f, q + 1, e, a.after);
  }

  lemma BeforeKey(f: Text, k: nat, sp: Text)
    requires |sp| > 0 && Spaces(sp) && |sp| <= k && At(f, k - |sp|, sp)
    ensures IsSpace(f[k - 1])
  {
    assert f[k - 1] == f[k - |sp|..k][|sp| - 1];
  }

  lemma ReadHere(f: Text, e: nat, b: nat, v: Text, c: byte, cap: nat)
    requires 0 < b && b + |v| < e <= |f| && f[b - 1] == c && At(f, b, v + [c]) && c !in v && cap > 0
    ensures Reading(f, e, b, cap) == Shorten(v, cap)
  {
    hide FindByte;
    ByteFound(f, b, e, v, c);
    AtConcat(f, b, v, [c]);
    assert f[b..b + |v|] == v;
    if |v| >= cap { assert f[b..b + cap - 1] == v[..cap - 1]; }
  }

  /** The name of a rendered attribute passes unless a line break follows, and its
      value is read there. */
  lemma OwnPlace(f: Text, s: nat, e: nat, k: nat, a: Attr, cap: nat)
    requires AttrOk(a) && |a.space| <= k && s < k && At(f, k - |a.space|, RenderAttr(a)) && cap > 0
    requires k - |a.space| + |RenderAttr(a)| <= e <= |f|
    ensures ValueAt(f, s, e, a.key, k) == if Tight(a) then Some(ValuePos(a, k)) else None
    ensures 0 < ValuePos(a, k) <= e && Reading(f, e, ValuePos(a, k), cap) == Shorten(a.value, cap)
  {
    hide FindByte, ValueAt, Reading, At, RenderAttr, Tight, Spaces, AllDull;
    AttrPieces(f, k, a);
    AttrLength(a);
    OwnValue(f, s, e, k, a);
    ReadHere(f, e, ValuePos(a, k), a.value, a.quote, cap);
  }

  lemma AttrLength(a: Attr)
    ensures |RenderAttr(a)| == |a.space| + |a.key| + |a.before| + |a.after| + 3 + |a.value|
  {
  }

  lemma AttrPlace(f: Text, s: nat, name: Text, attrs: seq<Attr>, gap: Text, end: Text, t: nat)
    requires At(f, s, TagText(name, attrs, gap, end)) && t < |attrs| && TagEnd(end)
    ensures var k := KeyPos(s, name, attrs, t);
            && At(f, k - |attrs[t].space|, RenderAttr(attrs[t]))
            && k - |attrs[t].space| + |RenderAttr(attrs[t])| < s + |TagText(name, attrs, gap, end)| <= |f|
  {
    hide RenderAttr, RenderAttrs;
    var before, a, after := RenderAttrs(attrs[..t]), RenderAttr(attrs[t]), RenderAttrs(attrs[t + 1..]);
    AttrsSplit(attrs, t);
    assert TagText(name, attrs, gap, end) == ([LT] + name + before) + (a + (after + gap + end));
    AtConcat(f, s, [LT] + name + before, a + (after + gap + end));
    AtConcat(f, s + 1 + |name| + |before|, a, after + gap + end);
  }

  /** An attribute of a rendered tag, without a line break at its equals sign, is
      extracted with its own value if and only if no earlier place passes for it, or
      the first that does reads the same. */
  lemma AttrExact(f: Text, s: nat, name: Text, attrs: seq<Attr>, gap: Text, end: Text, t: nat, cap: nat)
    requires AttrsOk(attrs) && TagEnd(end) && At(f, s, TagText(name, attrs, gap, end)) && cap > 0
    requires t < |attrs| && Tight(attrs[t])
    ensures var e := s + |TagText(name, attrs, gap, end)|;
            var a, k := attrs[t], KeyPos(s, name, attrs, t);
            var j := FirstPass(f, s, e, a.key, s);
            && e <= |f| && j.Some? && j.value <= k
            && (Extract(f, s, e, a.key, cap, s) == Shorten(a.value, cap) <==>
                j.value == k || Reading(f, e, ValueAt(f, s, e, a.key, j.value).value, cap) == Shorten(a.value, cap))
  {
    hide ValueAt, Reading, RenderAttr, RenderAttrs, TagText, Extract, AttrOk, At, Tight;
    var e := s + |TagText(name, attrs, gap, end)|;
    var a, k := attrs[t], KeyPos(s, name, attrs, t);
    AttrPlace(f, s, name, attrs, gap, end, t);
    assert AttrOk(a);
    AttrLength(a);
    OwnPlace(f, s, e, k, a, cap);
    FirstPassLeast(f, s, e, a.key, s, k);
    ExtractFirst(f, s, e, a.key, cap, s);
  }

  // ---- tags whose names are made of identifier bytes -----------------------

  predicate Plain(t: Text) { |t| > 0 && forall i :: 0 <= i < |t| ==> IdentByte(t[i]) }

  predicate PlainTag(name: Text, attrs: seq<Attr>) {
    Plain(name) && forall i :: 0 <= i < |attrs| ==> Plain(attrs[i].key)
  }

  /** Where a value with its closing quote would pass for an attribute, if at all. */
  function Decoy(a: Attr, attr: Text): Option<nat> {
    FirstPass(a.value + [a.quote], 0, |a.value| + 1, attr, 0)
  }

  /** An attribute that is recognised by that name. */
  predicate Named(a: Attr, attr: Text) { a.key == attr && Tight(a) }

  /** Where the extraction reads among attributes rendered at `p`: at the first that
      is recognised or holds a decoy in its value. */
  function Source(attrs: seq<Attr>, attr: Text, p: nat): Option<nat>
    decreases |attrs|
  {
    if attrs == [] then None
    else
      var a := attrs[0];
      var k := p + |a.space|;
      if Named(a, attr) then Some(k)
      else if Decoy(a, attr).Some? then Some(ValuePos(a, k) + Decoy(a, attr).value)
      else Source(attrs[1..], attr, p + |RenderAttr(a)|)
  }

  lemma {:induction false} PassSkips(f: Text, s: nat, e: nat, attr: Text, i: nat, k: nat)
    requires s <= i <= k && e <= |f|
    requires forall j :: i <= j < k && j + |attr| < e ==> ValueAt(f, s, e, attr, j).None?
    ensures FirstPass(f, s, e, attr, i) == FirstPass(f, s, e, attr, k)
    decreases k - i
  {
    hide ValueAt;
    if i < k { PassSkips(f, s, e, attr, i + 1, k); }
  }

  /** Only the first byte of a word can pass. */
  lemma QuietByte(f: Text, s: nat, e: nat, attr: Text, j: nat)
    requires Plain(attr) && s <= j && j + |attr| < e <= |f|
    requires !IdentByte(f[j]) || (j > s && IdentByte(f[j - 1]))
    ensures ValueAt(f, s, e, attr, j).None?
  {
    hide SkipBlanks;
    if f[j..j + |attr|] == attr { assert f[j] == f[j..j + |attr|][0]; }
  }

  /** A whole word other than the name does not pass. */
  lemma OtherWord(f: Text, s: nat, e: nat, attr: Text, j: nat, w: Text)
    requires Plain(attr) && Plain(w) && w != attr && s <= j && j + |attr| < e <= |f|
    requires At(f, j, w) && j + |w| < e && !IdentByte(f[j + |w|])
    ensures ValueAt(f, s, e, attr, j).None?
  {
    hide SkipBlanks;
    var m := f[j..j + |attr|];
    if |w| < |attr| {
      assert m[|w|] == f[j + |w|];
      assert IdentByte(attr[|w|]);
    } else if |attr| < |w| {
      assert f[j + |attr|] == f[j..j + |w|][|attr|] == w[|attr|];
      assert IdentByte(w[|attr|]);
      NoBlank(f, j + |attr|, e);
    } else {
      assert m == w;
    }
  }

  lemma BlanksStop(f: Text, p: nat, e: nat, sp: Text)
    requires At(f, p, sp) && Spaces(sp) && p + |sp| < e <= |f|
    requires !Blank(f[p + |sp|]) && f[p + |sp|] != 61
    ensures var z := SkipBlanks(f, p, e); z < e && f[z] != 61
  {
    hide SkipBlanks, Blanks, Spaces;
    BlanksOver(f, p, e, sp);
  }

  /** No equals sign follows the name of a tag. */
  lemma NameQuiet(f: Text, e0: nat, e: nat, attrs: seq<Attr>, gap: Text, end: Text)
    requires AttrsOk(attrs) && Spaces(gap) && TagEnd(end) && (forall i :: 0 <= i < |attrs| ==> Plain(attrs[i].key))
    requires At(f, e0, Inside(attrs, gap) + end) && e == e0 + |Inside(attrs, gap) + end|
    ensures e <= |f| && !IdentByte(f[e0])
    ensures var z := SkipBlanks(f, e0, e); z < e && f[z] != 61
  {
    hide SkipBlanks;
    if attrs == [] {
      assert Inside(attrs, gap) == gap;
      AtConcat(f, e0, gap, end);
      FirstOf(f, e0 + |gap|, end);
      if gap != [] { FirstOf(f, e0, gap); }
      BlanksStop(f, e0, e, gap);
    } else {
      var a := attrs[0];
      assert AttrOk(a) && Plain(a.key);
      var tail := Inside(attrs[1..], gap) + end;
      assert Inside(attrs, gap) + end == RenderAttr(a) + tail;
      AtConcat(f, e0, RenderAttr(a), tail);
      AttrPieces(f, e0 + |a.space|, a);
      AttrLength(a);
      FirstOf(f, e0, a.space);
      FirstOf(f, e0 + |a.space|, a.key);
      BlanksStop(f, e0, e, a.space);
    }
  }

  lemma NameByte(f: Text, s: nat, e: nat, attr: Text, name: Text, j: nat)
    requires Plain(attr) && Plain(name) && s < |f| && f[s] == LT && At(f, s + 1, name)
    requires s <= j < s + 1 + |name| < e <= |f| && j + |attr| < e
    requires var e0 := s + 1 + |name|; !IdentByte(f[e0]) && var z := SkipBlanks(f, e0, e); z < e && f[z] != 61
    ensures ValueAt(f, s, e, attr, j).None?
  {
    hide SkipBlanks;
    if j == s {
      QuietByte(f, s, e, attr, j);
    } else if j > s + 1 {
      assert f[j - 1] == f[s + 1..s + 1 + |name|][j - 2 - s];
      QuietByte(f, s, e, attr, j);
    } else if name != attr {
      OtherWord(f, s, e, attr, j, name);
    }
  }

  lemma NameSkipped(f: Text, s: nat, e: nat, attr: Text, name: Text, rest: Text)
    requires Plain(attr) && Plain(name) && At(f, s, [LT] + name + rest) && e == s + 1 + |name + rest| && rest != []
    requires e <= |f|
    requires var e0 := s + 1 + |name|; !IdentByte(f[e0]) && var z := SkipBlanks(f, e0, e); z < e && f[z] != 61
    ensures FirstPass(f, s, e, attr, s) == FirstPass(f, s, e, attr, s + 1 + |name|)
  {
    hide SkipBlanks, ValueAt, FirstPass, At, Plain;
    assert [LT] + name + rest == [LT] + (name + rest);
    AtConcat(f, s, [LT], name + rest);
    AtConcat(f, s + 1, name, rest);
    FirstOf(f, s, [LT]);
    forall j | s <= j < s + 1 + |name| && j + |attr| < e ensures ValueAt(f, s, e, attr, j).None? {
      NameByte(f, s, e, attr, name, j);
    }
    PassSkips(f, s, e, attr, s, s + 1 + |name|);
  }

  lemma {:induction false} BlanksInside(f: Text, b: nat, e: nat, u: Text, i: nat)
    requires At(f, b, u) && i < |u| && b + |u| <= e <= |f| && !Blank(u[|u| - 1])
    ensures SkipBlanks(f, b + i, e) == b + SkipBlanks(u, i, |u|) < b + |u|
    decreases |u| - i
  {
    assert f[b + i] == f[b..b + |u|][i] == u[i];
    if Blank(u[i]) { BlanksInside(f, b, e, u, i + 1); }
  }

  /** A name does not run over the closing quote. */
  lemma QuoteEnds(f: Text, attr: Text, b: nat, u: Text, i: nat)
    requires Plain(attr) && At(f, b, u) && i < |u| <= i + |attr| && b + i + |attr| <= |f| && IsQuote(u[|u| - 1])
    ensures f[b + i..b + i + |attr|] != attr
  {
    var z := |u| - 1 - i;
    assert f[b + i..b + i + |attr|][z] == f[b + |u| - 1] == f[b..b + |u|][|u| - 1];
    assert IdentByte(attr[z]);
  }

  lemma SliceInside(f: Text, b: nat, u: Text, i: nat, n: nat)
    requires At(f, b, u) && i + n <= |u|
    ensures f[b + i..b + i + n] == u[i..i + n]
  {
    var x, y := f[b + i..b + i + n], u[i..i + n];
    forall k | 0 <= k < n ensures x[k] == y[k] {
      assert f[b + i + k] == f[b..b + |u|][i + k];
    }
  }

  lemma ByteInside(f: Text, b: nat, u: Text, j: nat)
    requires At(f, b, u) && j < |u|
    ensures b + j < |f| && f[b + j] == u[j]
  {
    assert f[b..b + |u|][j] == u[j];
  }

  /** Inside a quoted value only the value and its closing quote matter. */
  lemma ValueInside(f: Text, s: nat, e: nat, attr: Text, b: nat, a: Attr, i: nat)
    requires AttrOk(a) && Plain(attr) && At(f, b, a.value + [a.quote]) && s < b && !IdentByte(f[b - 1])
    requires b + |a.value| < e <= |f| && i <= |a.value| && b + i + |attr| < e
    ensures var u := a.value + [a.quote];
            ValueAt(f, s, e, attr, b + i) ==
            if i + |attr| < |u| && ValueAt(u, 0, |u|, attr, i).Some?
            then Some(b + ValueAt(u, 0, |u|, attr, i).value) else None
  {
    hide SkipBlanks, At, Plain, Spaces, AllDull;
    var u := a.value + [a.quote];
    if i + |attr| < |u| {
      SliceInside(f, b, u, i, |attr|);
      if i > 0 { ByteInside(f, b, u, i - 1); }
      BlanksInside(f, b, e, u, i + |attr|);
      var j := SkipBlanks(u, i + |attr|, |u|);
      ByteInside(f, b, u, j);
      if j + 1 < |u| {
        BlanksInside(f, b, e, u, j + 1);
        ByteInside(f, b, u, SkipBlanks(u, j + 1, |u|));
      }
    } else {
      QuoteEnds(f, attr, b, u, i);
    }
  }

  lemma {:induction false} ValueSearched(f: Text, s: nat, e: nat, attr: Text, b: nat, a: Attr, i: nat)
    requires AttrOk(a) && Plain(attr) && At(f, b, a.value + [a.quote]) && s < b && !IdentByte(f[b - 1])
    requires b + |a.value| < e <= |f| && i <= |a.value| + 1
    ensures var d := FirstPass(a.value + [a.quote], 0, |a.value| + 1, attr, i);
            FirstPass(f, s, e, attr, b + i) ==
            if d.Some? then Some(b + d.value) else FirstPass(f, s, e, attr, b + |a.value| + 1)
    decreases |a.value| + 1 - i
  {
    hide ValueAt, AttrOk, At, Plain, IdentByte;
    if i <= |a.value| {
      ValueSearched(f, s, e, attr, b, a, i + 1);
      if b + i + |attr| < e {
        ValueInside(f, s, e, attr, b, a, i);
      } else {
        PastEnd(f, s, e, attr, b + i, b + |a.value| + 1);
      }
    }
  }

  lemma PastEnd(f: Text, s: nat, e: nat, attr: Text, i: nat, k: nat)
    requires s <= i <= k && e <= |f| && i + |attr| >= e
    ensures FirstPass(f, s, e, attr, i) == None == FirstPass(f, s, e, attr, k)
  {
  }

  lemma SpaceByte(f: Text, p: nat, sp: Text, j: nat)
    requires At(f, p, sp) && Spaces(sp) && p <= j < p + |sp|
    ensures j < |f| && !IdentByte(f[j])
  {
    assert f[j] == f[p..p + |sp|][j - p] == sp[j - p];
  }

  lemma AfterKey(f: Text, k: nat, a: Attr, j: nat)
    requires AttrOk(a) && Pieces(f, k, a) && k + |a.key| <= j < ValuePos(a, k)
    ensures j < |f| && !IdentByte(f[j])
  {
    var q := k + |a.key| + |a.before|;
    if j < q { SpaceByte(f, k + |a.key|, a.before, j); }
    else if q < j < q + 1 + |a.after| { SpaceByte(f, q + 1, a.after, j); }
  }

  lemma KeyByte(f: Text, s: nat, e: nat, attr: Text, k: nat, a: Attr, j: nat)
    requires AttrOk(a) && Plain(a.key) && Plain(attr) && Pieces(f, k, a) && s < k - |a.space| && ValuePos(a, k) < e <= |f|
    requires !Named(a, attr) && k - |a.space| <= j < ValuePos(a, k) && j + |attr| < e
    ensures ValueAt(f, s, e, attr, j).None?
  {
    hide ValueAt, AttrOk, Tight;
    if j < k {
      assert Spaces(a.space) by { AttrSpace(a); }
      SpaceByte(f, k - |a.space|, a.space, j);
      QuietByte(f, s, e, attr, j);
    } else if j > k {
      if j <= k + |a.key| { assert f[j - 1] == f[k..k + |a.key|][j - 1 - k] == a.key[j - 1 - k]; }
      if j >= k + |a.key| { AfterKey(f, k, a, j); }
      QuietByte(f, s, e, attr, j);
    } else if a.key == attr {
      OwnValue(f, s, e, k, a);
    } else {
      AfterKey(f, k, a, k + |a.key|);
      OtherWord(f, s, e, attr, k, a.key);
    }
  }

  lemma AttrSpace(a: Attr)
    requires AttrOk(a)
    ensures Spaces(a.space)
  {
  }

  /** Up to the value of an attribute only its name can pass. */
  lemma KeySkipped(f: Text, s: nat, e: nat, attr: Text, p: nat, a: Attr)
    requires AttrOk(a) && Plain(a.key) && Plain(attr) && At(f, p, RenderAttr(a)) && s < p && p + |RenderAttr(a)| < e <= |f|
    requires !Named(a, attr)
    ensures FirstPass(f, s, e, attr, p) == FirstPass(f, s, e, attr, ValuePos(a, p + |a.space|))
  {
    hide ValueAt, FirstPass, At, RenderAttr, Plain, AttrOk, Pieces, Named;
    var k := p + |a.space|;
    AttrLength(a);
    AttrPieces(f, k, a);
    forall j | p <= j < ValuePos(a, k) && j + |attr| < e ensures ValueAt(f, s, e, attr, j).None? {
      KeyByte(f, s, e, attr, k, a, j);
    }
    PassSkips(f, s, e, attr, p, ValuePos(a, k));
  }

  lemma SpaceQuiet(f: Text, s: nat, e: nat, attr: Text, p: nat, sp: Text)
    requires Plain(attr) && Spaces(sp) && At(f, p, sp) && s <= p && e <= |f|
    ensures FirstPass(f, s, e, attr, p) == FirstPass(f, s, e, attr, p + |sp|)
  {
    hide ValueAt, FirstPass;
    forall j | p <= j < p + |sp| && j + |attr| < e ensures ValueAt(f, s, e, attr, j).None? {
      assert f[j] == f[p..p + |sp|][j - p] == sp[j - p];
      QuietByte(f, s, e, attr, j);
    }
    PassSkips(f, s, e, attr, p, p + |sp|);
  }

  lemma TailQuiet(f: Text, s: nat, e: nat, attr: Text, p: nat, gap: Text, end: Text)
    requires Plain(attr) && Spaces(gap) && TagEnd(end) && At(f, p, gap + end) && s <= p && e == p + |gap + end|
    ensures e <= |f| && FirstPass(f, s, e, attr, p) == None
  {
    forall j | p <= j < e && j + |attr| < e ensures ValueAt(f, s, e, attr, j).None? {
      assert f[j] == f[p..e][j - p];
      QuietByte(f, s, e, attr, j);
    }
    PassSkips(f, s, e, attr, p, e);
  }

  lemma {:induction false} AttrsSearched(f: Text, s: nat, e: nat, attr: Text, p: nat, attrs: seq<Attr>, gap: Text, end: Text)
    requires AttrsOk(attrs) && Spaces(gap) && TagEnd(end) && Plain(attr) && forall i :: 0 <= i < |attrs| ==> Plain(attrs[i].key)
    requires At(f, p, Inside(attrs, gap) + end) && s < p && e == p + |Inside(attrs, gap) + end| && e <= |f|
    ensures FirstPass(f, s, e, attr, p) == Source(attrs, attr, p)
    decreases |attrs|
  {
    hide ValueAt, AttrOk, RenderAttr, At, Plain, FirstPass, Decoy, Spaces;
    if attrs == [] {
      assert Inside(attrs, gap) == gap;
      TailQuiet(f, s, e, attr, p, gap, end);
    } else {
      var a, tail := attrs[0], Inside(attrs[1..], gap) + end;
      assert Inside(attrs, gap) + end == RenderAttr(a) + tail;
      AtConcat(f, p, RenderAttr(a), tail);
      AttrsSearched(f, s, e, attr, p + |RenderAttr(a)|, attrs[1..], gap, end);
      AttrSearched(f, s, e, attr, p, a);
    }
  }

  lemma AttrSearched(f: Text, s: nat, e: nat, attr: Text, p: nat, a: Attr)
    requires AttrOk(a) && Plain(a.key) && Plain(attr) && At(f, p, RenderAttr(a)) && s < p && p + |RenderAttr(a)| < e <= |f|
    ensures var k := p + |a.space|;
            FirstPass(f, s, e, attr, p) ==
            if Named(a, attr) then Some(k)
            else if Decoy(a, attr).Some? then Some(ValuePos(a, k) + Decoy(a, attr).value)
            else FirstPass(f, s, e, attr, p + |RenderAttr(a)|)
  {
    hide ValueAt, RenderAttr, FirstPass, At, Plain, Tight, AttrOk;
    var k := p + |a.space|;
    AttrPieces(f, k, a);
    AttrLength(a);
    if Named(a, attr) {
      OwnPlace(f, s, e, k, a, 1);
      AttrSpace(a);
      SpaceQuiet(f, s, e, attr, p, a.space);
      PassHere(f, s, e, attr, k);
    } else {
      KeySkipped(f, s, e, attr, p, a);
      assert !IdentByte(f[ValuePos(a, k) - 1]) by { QuoteByte(a); }
      hide Pieces, IdentByte;
      ValueSearched(f, s, e, attr, ValuePos(a, k), a, 0);
    }
  }

  lemma QuoteByte(a: Attr)
    requires AttrOk(a)
    ensures !IdentByte(a.quote)
  {
  }

  lemma PassHere(f: Text, s: nat, e: nat, attr: Text, k: nat)
    requires s <= k && k + |attr| < e <= |f| && ValueAt(f, s, e, attr, k).Some?
    ensures FirstPass(f, s, e, attr, k) == Some(k)
  {
    hide ValueAt;
  }

  /** In a tag whose names are made of identifier bytes, extraction reads at the
      first attribute of the name or inside the first value that holds a decoy,
      whichever comes first; neither the name of the tag nor a longer attribute
      name that contains the name is mistaken for it. */
  lemma SourceExact(f: Text, s: nat, name: Text, attrs: seq<Attr>, gap: Text, end: Text, attr: Text)
    requires PlainTag(name, attrs) && Plain(attr) && AttrsOk(attrs) && Spaces(gap) && TagEnd(end)
    requires At(f, s, TagText(name, attrs, gap, end))
    ensures var e := s + |TagText(name, attrs, gap, end)|;
            e <= |f| && FirstPass(f, s, e, attr, s) == Source(attrs, attr, s + 1 + |name|)
  {
    hide ValueAt, AttrOk, At, Plain, FirstPass, Source, Spaces, SkipBlanks, Inside;
    var e, e0, rest := s + |TagText(name, attrs, gap, end)|, s + 1 + |name|, Inside(attrs, gap) + end;
    assert TagText(name, attrs, gap, end) == [LT] + name + rest;
    AtConcat(f, s, [LT] + name, rest);
    NameQuiet(f, e0, e, attrs, gap, end);
    NameSkipped(f, s, e, attr, name, rest);
    AttrsSearched(f, s, e, attr, e0, attrs, gap, end);
  }

  /** Attribute `t` is the first recognised by its name. */
  predicate FirstOfName(attrs: seq<Attr>, t: nat) {
    t < |attrs| && Tight(attrs[t]) && forall m :: 0 <= m < t ==> !Named(attrs[m], attrs[t].key)
  }

  predicate NoDecoys(attrs: seq<Attr>, attr: Text, n: nat)
    requires n <= |attrs|
  {
    forall m :: 0 <= m < n ==> Decoy(attrs[m], attr).None?
  }

  lemma DecoyInside(a: Attr, attr: Text)
    ensures Decoy(a, attr).Some? ==> Decoy(a, attr).value + |attr| <= |a.value|
    ensures |RenderAttr(a)| == |a.space| + |a.key| + |a.before| + |a.after| + 3 + |a.value|
  {
    hide FirstPass;
  }

  lemma {:induction false} SourceIs(attrs: seq<Attr>, t: nat, p: nat)
    requires FirstOfName(attrs, t)
    ensures Source(attrs, attrs[t].key, p) == Some(p + |RenderAttrs(attrs[..t])| + |attrs[t].space|)
            <==> NoDecoys(attrs, attrs[t].key, t)
    decreases t
  {
    hide RenderAttr, Decoy, Tight;
    if t > 0 {
      var rest := attrs[1..];
      assert attrs[..t][0] == attrs[0] && attrs[..t][1..] == rest[..t - 1];
      SourceIs(rest, t - 1, p + |RenderAttr(attrs[0])|);
      assert NoDecoys(attrs, attrs[t].key, t) <==>
             Decoy(attrs[0], attrs[t].key).None? && NoDecoys(rest, attrs[t].key, t - 1);
      DecoyInside(attrs[0], attrs[t].key);
    }
  }

  /** The attribute of a name is the one read exactly if no value before it holds a
      decoy, and then its own value is extracted. */
  lemma AttrExtracted(f: Text, s: nat, name: Text, attrs: seq<Attr>, gap: Text, end: Text, t: nat, cap: nat)
    requires PlainTag(name, attrs) && AttrsOk(attrs) && Spaces(gap) && TagEnd(end) && cap > 0
    requires At(f, s, TagText(name, attrs, gap, end)) && FirstOfName(attrs, t)
    ensures var e := s + |TagText(name, attrs, gap, end)|;
            var key := attrs[t].key;
            && e <= |f|
            && (FirstPass(f, s, e, key, s) == Some(KeyPos(s, name, attrs, t)) <==> NoDecoys(attrs, key, t))
            && (NoDecoys(attrs, key, t) ==> Extract(f, s, e, key, cap, s) == Shorten(attrs[t].value, cap))
  {
    hide ValueAt, AttrOk, At, Plain, FirstPass, Source, Spaces, TagText, Extract, NoDecoys, RenderAttrs;
    SourceExact(f, s, name, attrs, gap, end, attrs[t].key);
    SourceIs(attrs, t, s + 1 + |name|);
    AttrExact(f, s, name, attrs, gap, end, t, cap);
  }

  lemma {:induction false} SourceNone(attrs: seq<Attr>, attr: Text, p: nat)
    requires forall m :: 0 <= m < |attrs| ==> !Named(attrs[m], attr)
    ensures Source(attrs, attr, p).None? <==> NoDecoys(attrs, attr, |attrs|)
    decreases |attrs|
  {
    hide RenderAttr, Decoy, Tight;
    if attrs != [] {
      SourceNone(attrs[1..], attr, p + |RenderAttr(attrs[0])|);
      assert NoDecoys(attrs, attr, |attrs|) <==> Decoy(attrs[0], attr).None? && NoDecoys(attrs[1..], attr, |attrs| - 1);
    }
  }

  /** Without an attribute recognised by the name nothing passes exactly if no value holds a
      decoy, and then the answer is empty. */
  lemma AttrAbsent(f: Text, s: nat, name: Text, attrs: seq<Attr>, gap: Text, end: Text, attr: Text, cap: nat)
    requires PlainTag(name, attrs) && Plain(attr) && AttrsOk(attrs) && Spaces(gap) && TagEnd(end) && cap > 0
    requires At(f, s, TagText(name, attrs, gap, end)) && forall m :: 0 <= m < |attrs| ==> !Named(attrs[m], attr)
    ensures var e := s + |TagText(name, attrs, gap, end)|;
            && e <= |f| && (FirstPass(f, s, e, attr, s).None? <==> NoDecoys(attrs, attr, |attrs|))
            && (NoDecoys(attrs, attr, |attrs|) ==> Extract(f, s, e, attr, cap, s) == [])
  {
    hide ValueAt, AttrOk, At, Plain, FirstPass, Source, Spaces, TagText, Extract, NoDecoys;
    SourceExact(f, s, name, attrs, gap, end, attr);
    SourceNone(attrs, attr, s + 1 + |name|);
    ExtractFirst(f, s, s + |TagText(name, attrs, gap, end)|, attr, cap, s);
  }

  // ---- the attribute of a child in a forest --------------------------------

  /** The node that a search for a child hits. */
  function NodeHit(ns: Forest, tag: Text): Option<Node>
    decreases ns
  {
    match ns
    case Nil => None
    case Cons(n, rest) => if (n.Empty? || n.Elem?) && n.name == tag then Some(n) else NodeHit(rest, tag)
  }

  function EndOf(n: Node): (end: Text)
    ensures TagEnd(end)
  {
    if n.Empty? then [SLASH, GT] else [GT]
  }

  /** The tag range of a hit holds the opening tag of that node. */
  lemma {:induction false} HitTag(f: Text, p: nat, ns: Forest, tag: Text)
    requires ForestOk(ns) && At(f, p, Render(ns)) && FirstNamed(ns, tag, p).Hit?
    ensures var c := FirstNamed(ns, tag, p).child;
            && NodeHit(ns, tag).Some? && c.Child?
            && var n := NodeHit(ns, tag).value;
            && (n.Empty? || n.Elem?) && n.name == tag && NodeOk(n)
            && At(f, c.tagStart, TagText(n.name, n.attrs, n.gap, EndOf(n)))
            && c.tagEnd == c.tagStart + |TagText(n.name, n.attrs, n.gap, EndOf(n))|
    decreases ns
  {
    hide RenderNode, NodeOk, Inside, CloseTag, At;
    var n := ns.head;
    AtConcat(f, p, RenderNode(n), Render(ns.tail));
    if (n.Elem? || n.Empty?) && n.name == tag {
      if n.Elem? { ElemParts(f, p, n); } else { EmptyParts(n); }
    } else {
      HitTag(f, p + |RenderNode(n)|, ns.tail, tag);
    }
  }

  lemma EmptyParts(n: Node)
    requires n.Empty?
    ensures RenderNode(n) == TagText(n.name, n.attrs, n.gap, [SLASH, GT])
  {
  }

  /** On the text of a forest the search with an attribute gives the value of that
      attribute of the first child of the name, if no value before it in the tag
      holds a decoy. */
  lemma ChildAttr(f: Text, ns: Forest, tag: Text, t: nat, cap: nat)
    requires ForestOk(ns) && f == Render(ns) && cap > 0 && FirstNamed(ns, tag, 0).Hit?
    requires var n := NodeHit(ns, tag);
             n.Some? && (n.value.Empty? || n.value.Elem?) && PlainTag(tag, n.value.attrs) && FirstOfName(n.value.attrs, t)
             && NoDecoys(n.value.attrs, n.value.attrs[t].key, t)
    ensures var n, c := NodeHit(ns, tag).value, FindChild(f, 0, tag);
            && c.Child? && c.tagStart <= c.tagEnd <= |f|
            && Extract(f, c.tagStart, c.tagEnd, n.attrs[t].key, cap, c.tagStart) == Shorten(n.attrs[t].value, cap)
  {
    hide Render, FirstNamed, FindChild, NodeHit, ForestOk, PlainTag, NoDecoys, Extract, TagText, AttrOk, Spaces, NameOk, FirstOfName;
    assert At(f, 0, Render(ns)) by { assert f[0..|f|] == f; }
    FindRendered(f, 0, ns, tag);
    HitTag(f, 0, ns, tag);
    var n, c := NodeHit(ns, tag).value, FirstNamed(ns, tag, 0).child;
    AttrExtracted(f, c.tagStart, n.name, n.attrs, n.gap, EndOf(n), t, cap);
  }

  // ---- instances -----------------------------------------------------------

  const STATUS_TAG: Text := [100, 111, 109, 97, 105, 110, 58, 115, 116, 97, 116, 117, 115] // "domain:status"
  const S: Text := [115]

  /** The attribute "s" of a status element is extracted, though the letter occurs
      in the name of the element. */
  lemma StatusAttr(quote: byte, value: Text, cap: nat)
    requires IsQuote(quote) && quote !in value && cap > 0
    ensures var f := EmptyTag(STATUS_TAG, [Attr([32], S, [], [], quote, value)], []);
            Extract(f, 0, |f|, S, cap, 0) == Shorten(value, cap)
  {
    hide Extract, Inside;
    var a := Attr([32], S, [], [], quote, value);
    var f := EmptyTag(STATUS_TAG, [a], []);
    assert At(f, 0, f) by { assert f[0..|f|] == f; }
    assert f == TagText(STATUS_TAG, [a], [], [SLASH, GT]);
    AttrExtracted(f, 0, STATUS_TAG, [a], [], [SLASH, GT], 0, cap);
  }

  lemma TwoAttrs(name: Text, a: Attr, b: Attr)
    ensures OpenTag(name, [a, b], []) == ([LT] + name + RenderAttr(a)) + (RenderAttr(b) + [GT])
  {
    hide RenderAttr;
    assert [a, b][1..] == [b] && [b][1..] == [];
    assert RenderAttrs([b]) == RenderAttr(b);
    assert RenderAttrs([a, b]) == RenderAttr(a) + RenderAttr(b);
  }

  /** A quoted text that passes for the attribute: of <t x=" op='a'" op="r"> it is
      "a" that is extracted. */
  lemma QuotedDecoy(cap: nat)
    requires cap > 1
    ensures var op: Text := [111, 112];
            var x := Attr([32], [120], [], [], 34, [32, 111, 112, 61, 39, 97, 39]);
            var f := OpenTag([116], [x, Attr([32], op, [], [], 34, [114])], []);
            Extract(f, 0, |f|, op, cap, 0) == [97]
  {
    hide Extract, FirstPass, OpenTag;
    var op: Text := [111, 112];
    var x, y := Attr([32], [120], [], [], 34, [32, 111, 112, 61, 39, 97, 39]), Attr([32], op, [], [], 34, [114]);
    TwoAttrs([116], x, y);
    assert RenderAttr(x) == [32, 120, 61, 34, 32, 111, 112, 61, 39, 97, 39, 34];
    hide RenderAttr;
    assert [LT] + [116] + RenderAttr(x) == [60, 116, 32, 120, 61, 34, 32, 111, 112, 61, 39, 97, 39, 34];
    DecoyRead(OpenTag([116], [x, y], []), cap);
  }

  /** The first place where the name can stand. */
  lemma FirstLetter(f: Text, s: nat, e: nat, attr: Text, k: nat)
    requires attr != [] && s <= k && k + |attr| < e <= |f| && ValueAt(f, s, e, attr, k).Some?
    requires forall j :: s <= j < k ==> f[j] != attr[0]
    ensures FirstPass(f, s, e, attr, s) == Some(k)
  {
    hide FirstPass;
    forall j | s <= j < k && j + |attr| < e ensures ValueAt(f, s, e, attr, j).None? {
      assert f[j..j + |attr|][0] == f[j];
    }
    PassSkips(f, s, e, attr, s, k);
    PassHere(f, s, e, attr, k);
  }

  lemma DecoyRead(g: Text, cap: nat)
    requires cap > 1
    requires [60, 116, 32, 120, 61, 34, 32, 111, 112, 61, 39, 97, 39, 34] <= g
    ensures Extract(g, 0, |g|, [111, 112], cap, 0) == [97]
  {
    hide Extract, FirstPass, Reading, SkipBlanks;
    var op: Text := [111, 112];
    assert g[7] == 111 && g[8] == 112 && g[11] == 97 && g[12] == 39;
    assert g[7..9] == op;
    assert g[11..13] == [97, 39];
    assert [97, 39] == [97] + [39];
    NoBlank(g, 9, |g|);
    NoBlank(g, 10, |g|);
    assert ValueAt(g, 0, |g|, op, 7) == Some(11);
    FirstLetter(g, 0, |g|, op, 7);
    ExtractFirst(g, 0, |g|, op, cap, 0);
    ReadHere(g, |g|, 11, [97], 39, cap);
  }

  /** A dot is no identifier byte, so the end of a longer name passes too: of
      <t x.op="a" op="r"> it is "a" that is extracted. */
  lemma DottedName(cap: nat)
    requires cap > 1
    ensures var op: Text := [111, 112];
            var f := OpenTag([116], [Attr([32], [120, 46, 111, 112], [], [], 34, [97]), Attr([32], op, [], [], 34, [114])], []);
            Extract(f, 0, |f|, op, cap, 0) == [97]
  {
    hide Extract, OpenTag;
    var op: Text := [111, 112];
    var x, y := Attr([32], [120, 46, 111, 112], [], [], 34, [97]), Attr([32], op, [], [], 34, [114]);
    TwoAttrs([116], x, y);
    assert RenderAttr(x) == [32, 120, 46, 111, 112, 61, 34, 97, 34];
    hide RenderAttr;
    assert [LT] + [116] + RenderAttr(x) == [60, 116, 32, 120, 46, 111, 112, 61, 34, 97, 34];
    DottedRead(OpenTag([116], [x, y], []), cap);
  }

  lemma DottedRead(g: Text, cap: nat)
    requires cap > 1
    requires [60, 116, 32, 120, 46, 111, 112, 61, 34, 97, 34] <= g
    ensures Extract(g, 0, |g|, [111, 112], cap, 0) == [97]
  {
    hide Extract, FirstPass, Reading, SkipBlanks;
    var op: Text := [111, 112];
    assert g[5] == 111 && g[6] == 112 && g[9] == 97 && g[10] == 34;
    assert g[5..7] == op;
    assert g[9..11] == [97, 34];
    assert [97, 34] == [97] + [34];
    NoBlank(g, 7, |g|);
    NoBlank(g, 8, |g|);
    assert ValueAt(g, 0, |g|, op, 5) == Some(9);
    FirstLetter(g, 0, |g|, op, 5);
    ExtractFirst(g, 0, |g|, op, cap, 0);
    ReadHere(g, |g|, 9, [97], 34, cap);
  }

  /** A line break before the equals sign is white space in XML, but the attribute is
      not recognised: nothing is extracted. */
  lemma BreakMissed(quote: byte, value: Text, cap: nat)
    requires IsQuote(quote) && quote !in value && cap > 0 && Decoy(Attr([32], S, [10], [], quote, value), S).None?
    ensures var f := EmptyTag(STATUS_TAG, [Attr([32], S, [10], [], quote, value)], []);
            Extract(f, 0, |f|, S, cap, 0) == []
  {
    hide Extract, Inside, Decoy;
    var a := Attr([32], S, [10], [], quote, value);
    var f := EmptyTag(STATUS_TAG, [a], []);
    assert At(f, 0, f) by { assert f[0..|f|] == f; }
    assert f == TagText(STATUS_TAG, [a], [], [SLASH, GT]);
    assert !Blank(a.before[0]);
    AttrAbsent(f, 0, STATUS_TAG, [a], [], [SLASH, GT], S, cap);
  }
}
