/** The scanning loops of the tokenizer over a buffer, and the extraction of an
    attribute from an opening tag. */
module XmlScanner {
  import opened Bytes
  import opened Xml

  method ScanLt(f: Text, p: nat) returns (q: nat)
    requires p <= |f|
    ensures q == FindLt(f, p)
  {
    q := p;
    while q < |f| && f[q] != LT
      invariant p <= q <= |f| && FindLt(f, q) == FindLt(f, p)
    {
      q := q + 1;
    }
  }

  /** Forward to an end mark. */
  method ScanTo(f: Text, p: nat, pat: Text) returns (t: Tag)
    requires p <= |f| && |pat| > 0
    ensures t == SkipTo(f, p, pat)
  {
    var q := p;
    while q + |pat| <= |f| && f[q..q + |pat|] != pat
      invariant p <= q <= |f| && FindPat(f, q, pat) == FindPat(f, p, pat)
      decreases |f| - q
    {
      q := q + 1;
    }
    if q + |pat| > |f| { return Error; }
    return Skip(q + |pat|);
  }

  method ScanName(f: Text, p: nat) returns (q: nat)
    requires p <= |f|
    ensures q == NameEnd(f, p)
  {
    q := p;
    while q < |f| && !NameStop(f[q])
      invariant p <= q <= |f| && NameEnd(f, q) == NameEnd(f, p)
    {
      q := q + 1;
    }
  }

  /** Past the attributes, minding quotes. */
  method ScanAttrs(f: Text, p: nat) returns (r: Option<(nat, bool)>)
    requires p <= |f|
    ensures r == AttrScan(f, p, 0)
  {
    var q: nat, quote: byte := p, 0;
    while q < |f|
      invariant p <= q <= |f| && AttrScan(f, q, quote) == AttrScan(f, p, 0)
      decreases |f| - q
    {
      var c := f[q];
      if quote != 0 {
        if c == quote { quote := 0; }
      } else if IsQuote(c) {
        quote := c;
      } else if c == SLASH && q + 1 < |f| && f[q + 1] == GT {
        return Some((q + 2, true));
      } else if c == GT {
        return Some((q + 1, false));
      }
      q := q + 1;
    }
    return if quote != 0 then None else Some((q, false));
  }

  method ScanTag(f: Text, p: nat) returns (t: Tag)
    requires p <= |f|
    ensures t == NextTag(f, p)
  {
    hide FindLt, FindPat, NameEnd, AttrScan;
    var q := ScanLt(f, p);
    if q == |f| { return Eof; }
    if q + 1 < |f| && f[q + 1] == BANG {
      if q + 3 < |f| && f[q..q + 4] == COMMENT_OPEN { t := ScanTo(f, q + 4, COMMENT_END); return; }
      if q + 8 < |f| && f[q..q + 9] == CDATA_OPEN { t := ScanTo(f, q + 9, CDATA_END); return; }
      return Error;
    }
    if q + 1 < |f| && f[q + 1] == QUERY { t := ScanTo(f, q + 2, PI_END); return; }
    var close := q + 1 < |f| && f[q + 1] == SLASH;
    var s := if close then q + 2 else q + 1;
    var e := ScanName(f, s);
    if e == s || e == |f| { return Error; }
    var a := ScanAttrs(f, e);
    if a.None? { return Error; }
    if close { return if a.value.1 then Error else Close(f[s..e], q, a.value.0); }
    return if a.value.1 then SelfClose(f[s..e], q, a.value.0) else Open(f[s..e], q, a.value.0);
  }

  /** One loop per nesting level, one call per nested element. */
  method ScanToClose(f: Text, p: nat, name: Text, depth: nat) returns (r: Option<(nat, nat)>)
    requires p <= |f|
    ensures r == SkipToClose(f, p, name, depth)
    decreases |f| - p
  {
    hide NextTag;
    if depth > MAX_DEPTH { return None; }
    var q := p;
    while true
      invariant p <= q <= |f| && SkipToClose(f, q, name, depth) == SkipToClose(f, p, name, depth)
      decreases |f| - q
    {
      var t := ScanTag(f, q);
      match t
      case Skip(z) => q := z;
      case SelfClose(_, _, z) => q := z;
      case Open(n, _, z) =>
        var inner := ScanToClose(f, z, n, depth + 1);
        if inner.None? { return None; }
        q := inner.value.1;
      case Close(n, s, z) => return if n == name then Some((s, z)) else None;
      case Error => return None;
      case Eof => return None;
    }
  }

  method SearchChild(f: Text, p: nat, tag: Text) returns (r: Child)
    requires p <= |f|
    ensures r == FindChild(f, p, tag)
  {
    hide NextTag, SkipToClose;
    var q := p;
    while true
      invariant p <= q <= |f| && FindChild(f, q, tag) == FindChild(f, p, tag)
      decreases |f| - q
    {
      var t := ScanTag(f, q);
      match t
      case Skip(z) => q := z;
      case Close(_, _, _) => return Missing;
      case Eof => return Missing;
      case Error => return Malformed;
      case SelfClose(n, s, z) =>
        if n == tag { return Child(z, z, z, s, z); }
        q := z;
      case Open(n, s, z) =>
        var c := ScanToClose(f, z, n, 1);
        if c.None? { return Malformed; }
        if n == tag { return Child(z, c.value.0, c.value.1, s, z); }
        q := c.value.1;
    }
  }

  // ---- an attribute of an opening tag --------------------------------------

  predicate IdentByte(c: byte) {
    48 <= c <= 57 || 65 <= c <= 90 || 97 <= c <= 122 || c == 58 || c == DASH
  }

  predicate Blank(c: byte) { c == 32 || c == 9 }

  function SkipBlanks(f: Text, p: nat, e: nat): (q: nat)
    requires p <= e <= |f|
    ensures p <= q <= e
    decreases e - p
  {
    if p < e && Blank(f[p]) then SkipBlanks(f, p + 1, e) else p
  }

  function FindByte(f: Text, p: nat, e: nat, c: byte): (q: nat)
    requires p <= e <= |f|
    ensures p <= q <= e
    decreases e - p
  {
    if p == e || f[p] == c then p else FindByte(f, p + 1, e, c)
  }

  /** Where the quoted value starts if an attribute is named at `i`. */
  function ValueAt(f: Text, s: nat, e: nat, attr: Text, i: nat): (v: Option<nat>)
    requires s <= i && i + |attr| < e <= |f|
    ensures v.Some? ==> i < v.value <= e && IsQuote(f[v.value - 1])
  {
    if (i > s && IdentByte(f[i - 1])) || f[i..i + |attr|] != attr then None
    else
      var j := SkipBlanks(f, i + |attr|, e);
      if j == e || f[j] != 61 then None
      else
        var k := SkipBlanks(f, j + 1, e);
        if k == e || !IsQuote(f[k]) then None else Some(k + 1)
  }

  /** The text from `v` up to the quote that was opened before it, cut to the room
      there is; empty if the quote is not closed. */
  function Reading(f: Text, e: nat, v: nat, cap: nat): Text
    requires 0 < v <= e <= |f| && cap > 0
  {
    var j := FindByte(f, v, e, f[v - 1]);
    if j == e then [] else f[v..if j - v >= cap then v + cap - 1 else j]
  }

  /** What is read at the first place in the tag text from `s` to `e` that passes
      for an attribute of that name; empty if there is none. */
  function Extract(f: Text, s: nat, e: nat, attr: Text, cap: nat, i: nat): Text
    requires s <= i && e <= |f| && cap > 0
    decreases e - i
  {
    if i + |attr| >= e then []
    else
      var v := ValueAt(f, s, e, attr, i);
      if v.None? then Extract(f, s, e, attr, cap, i + 1) else Reading(f, e, v.value, cap)
  }

  /** The search with an attribute selects the very element that the plain search
      does, on every text. */
  method SearchChildAttr(f: Text, p: nat, tag: Text, attr: Text, cap: nat) returns (r: Child, value: Text)
    requires p <= |f| && cap > 0
    ensures r == FindChild(f, p, tag)
    ensures r.Child? ==> r.tagStart <= r.tagEnd <= |f| && value == Extract(f, r.tagStart, r.tagEnd, attr, cap, r.tagStart)
  {
    hide NextTag, SkipToClose, Extract;
    value := [];
    var q := p;
    while true
      invariant p <= q <= |f| && FindChild(f, q, tag) == FindChild(f, p, tag)
      decreases |f| - q
    {
      TagRange(f, q);
      var t := ScanTag(f, q);
      match t
      case Skip(z) => q := z;
      case Close(_, _, _) => return Missing, [];
      case Eof => return Missing, [];
      case Error => return Malformed, [];
      case SelfClose(n, s, z) =>
        if n == tag {
          value := ReadAttr(f, s, z, attr, cap);
          return Child(z, z, z, s, z), value;
        }
        q := z;
      case Open(n, s, z) =>
        var c := ScanToClose(f, z, n, 1);
        if c.None? { return Malformed, []; }
        if n == tag {
          value := ReadAttr(f, s, z, attr, cap);
          return Child(z, c.value.0, c.value.1, s, z), value;
        }
        q := c.value.1;
    }
  }

  lemma TagRange(f: Text, p: nat)
    requires p <= |f|
    ensures var t := NextTag(f, p); t.Open? || t.SelfClose? ==> t.start < t.pos <= |f|
  {
    hide NameEnd, AttrScan, FindPat;
  }

  method ReadAttr(f: Text, s: nat, e: nat, attr: Text, cap: nat) returns (value: Text)
    requires s <= e <= |f| && cap > 0
    ensures value == Extract(f, s, e, attr, cap, s)
  {
    hide ValueAt, FindByte;
    var i := s;
    while i + |attr| < e
      invariant s <= i && Extract(f, s, e, attr, cap, i) == Extract(f, s, e, attr, cap, s)
      decreases e - i
    {
      var v := ValueAt(f, s, e, attr, i);
      if v.Some? {
        var j := v.value;
        while j < e && f[j] != f[v.value - 1]
          invariant v.value <= j <= e && FindByte(f, j, e, f[v.value - 1]) == FindByte(f, v.value, e, f[v.value - 1])
          decreases e - j
        {
          FindByteStep(f, j, e, f[v.value - 1]);
          j := j + 1;
        }
        FindByteStep(f, j, e, f[v.value - 1]);
        if j == e { return []; }
        return f[v.value..if j - v.value >= cap then v.value + cap - 1 else j];
      }
      i := i + 1;
    }
    return [];
  }

  lemma FindByteStep(f: Text, p: nat, e: nat, c: byte)
    requires p <= e <= |f|
    ensures FindByte(f, p, e, c) == if p == e || f[p] == c then p else FindByte(f, p + 1, e, c)
  {
  }
}
