/** Text form of IPv6 addresses: formatting with the leftmost longest zero run
    compressed (section 4 of RFC 5952), and the parser that reads it back. */
module Ipv6 {
  import opened Bytes

  const COLON: byte := 58
  const DOT: byte := 46

  type Groups = g: seq<u16> | |g| == 8 witness [0, 0, 0, 0, 0, 0, 0, 0]

  // ---- groups and the 128-bit value ----------------------------------------

  function Value(gs: seq<u16>): nat {
    if gs == [] then 0 else Value(gs[..|gs| - 1]) * 0x1_0000 + gs[|gs| - 1]
  }

  function Split(v: nat, n: nat): (gs: seq<u16>)
    ensures |gs| == n
  {
    if n == 0 then [] else Split(v / 0x1_0000, n - 1) + [v % 0x1_0000]
  }

  function Pow(n: nat): nat { if n == 0 then 1 else 0x1_0000 * Pow(n - 1) }

  lemma {:induction false} SplitValue(v: nat, n: nat)
    requires v < Pow(n)
    ensures Value(Split(v, n)) == v
    decreases n
  {
    if n > 0 {
      var gs := Split(v, n);
      assert gs[..n - 1] == Split(v / 0x1_0000, n - 1);
      SplitValue(v / 0x1_0000, n - 1);
    }
  }

  lemma PowPos(n: nat)
    ensures Pow(n) > 0
  {
  }

  /** Group i is the value shifted right by 16 bits for each group after it. */
  lemma {:induction false} SplitShift(v: nat, n: nat, i: nat)
    requires i < n
    ensures Pow(n - 1 - i) > 0 && Split(v, n)[i] == v / Pow(n - 1 - i) % 0x1_0000
    decreases n
  {
    PowPos(n - 1 - i);
    if i < n - 1 {
      SplitShift(v / 0x1_0000, n - 1, i);
      DivDiv(v, 0x1_0000, Pow(n - 2 - i));
    }
  }

  lemma DivDiv(v: nat, a: nat, b: nat)
    requires a > 0 && b > 0
    ensures a * b > 0 && v / a / b == v / (a * b)
  {
    Positive(a, b);
    var q, r := v / a / b, v / a % b;
    DivMod(v, a); DivMod(v / a, b);
    assert v == (q * b + r) * a + v % a;
    Regroup(q, a, b, r, v % a);
    assert v == q * (a * b) + (r * a + v % a);
    Below(r, a, b, v % a);
    DivUnique(v, a * b, q, r * a + v % a);
  }

  lemma Positive(a: nat, b: nat)
    requires a > 0 && b > 0
    ensures a * b > 0
  {
  }

  lemma DivMod(v: nat, a: nat)
    requires a > 0
    ensures v == v / a * a + v % a && 0 <= v % a < a
  {
  }

  lemma Regroup(q: nat, a: nat, b: nat, r: nat, s: nat)
    ensures (q * b + r) * a + s == q * (a * b) + (r * a + s)
  {
    assert (q * b + r) * a == q * b * a + r * a;
    assert q * b * a == q * (a * b);
  }

  lemma Below(r: nat, a: nat, b: nat, s: nat)
    requires r < b && s < a
    ensures r * a + s < a * b
  {
    assert (r + 1) * a <= b * a by { Mono(r + 1, b, a); }
    assert (r + 1) * a == r * a + a;
  }

  lemma Mono(x: nat, y: nat, a: nat)
    requires x <= y
    ensures x * a <= y * a
  {
  }

  lemma DivUnique(v: nat, n: nat, q: nat, r: nat)
    requires n > 0 && v == q * n + r && r < n
    ensures v / n == q
  {
    DivMod(v, n);
    var d := v / n;
    assert (q + 1) * n == q * n + n && (d + 1) * n == d * n + n;
    if d > q { Mono(q + 1, d, n); }
    if d < q { Mono(d + 1, q, n); }
  }

  // ---- zero runs -----------------------------------------------------------

  predicate Zeros(g: seq<u16>, s: nat, l: nat) {
    s + l <= |g| && forall i :: s <= i < s + l ==> g[i] == 0
  }

  /** The run to compress: none if no two adjacent groups are zero, else the
      leftmost among the longest. */
  ghost predicate BestRun(g: Groups, s: nat, l: nat) {
    && Zeros(g, s, l) && (l == 0 || l >= 2)
    && forall a: nat, m: nat :: Zeros(g, a, m) && m >= 2 ==> m < l || (m == l && s <= a)
  }

  /** No run that ends by `i` beats the best one so far; the current run is
      maximal to the left. */
  ghost predicate Scanned(g: Groups, i: nat, s: nat, l: nat, cs: nat, cl: nat) {
    && i <= 8 && Zeros(g, s, l) && s + l <= i && Zeros(g, cs, cl) && cl <= l
    && (cl > 0 ==> cs + cl == i) && (cl == 0 ==> i == 0 || g[i - 1] != 0) && (cl > 0 && cs > 0 ==> g[cs - 1] != 0)
    && forall a: nat, m: nat :: Zeros(g, a, m) && m >= 1 && a + m <= i ==> m < l || (m == l && s <= a)
  }

  method FindRun(g: Groups) returns (s: nat, l: nat)
    ensures BestRun(g, s, l)
  {
    s, l := 0, 0;
    var cs, cl := 0, 0;
    for i := 0 to 8
      invariant Scanned(g, i, s, l, cs, cl)
    {
      ghost var s0, l0, cs0, cl0 := s, l, cs, cl;
      if g[i] == 0 {
        if cl == 0 { cs := i; }
        cl := cl + 1;
        if cl > l { s, l := cs, cl; }
      } else {
        cs, cl := 0, 0;
      }
      ScanStep(g, i, s0, l0, cs0, cl0, s, l, cs, cl);
    }
    if l < 2 { s, l := 0, 0; }
  }

  lemma ScanStep(g: Groups, i: nat, s: nat, l: nat, cs: nat, cl: nat, s': nat, l': nat, cs': nat, cl': nat)
    requires i < 8 && Scanned(g, i, s, l, cs, cl)
    requires g[i] == 0 ==> cs' == (if cl == 0 then i else cs) && cl' == cl + 1
    requires g[i] == 0 ==> s' == (if cl' > l then cs' else s) && l' == (if cl' > l then cl' else l)
    requires g[i] != 0 ==> cs' == 0 && cl' == 0 && s' == s && l' == l
    ensures Scanned(g, i + 1, s', l', cs', cl')
  {
    forall a: nat, m: nat | Zeros(g, a, m) && m >= 1 && a + m <= i + 1
      ensures m < l' || (m == l' && s' <= a)
    {
      if a + m <= i {
        assert m < l || (m == l && s <= a);
      } else {
        assert g[i] == 0;
        RunStart(g, a, m, cs');
        if m > 1 { assert Zeros(g, a, m - 1); }
      }
    }
  }

  /** A run of zeros does not reach past a group that is not zero. */
  lemma RunStart(g: Groups, a: nat, m: nat, c: nat)
    requires Zeros(g, a, m) && c < a + m && (c > 0 ==> g[c - 1] != 0)
    ensures a >= c
  {
  }

  // ---- formatting ----------------------------------------------------------

  function HexDigit(d: nat): byte
    requires d < 16
  {
    if d < 10 then 48 + d else 87 + d
  }

  /** Lower-case hexadecimal without leading zeros. */
  function Hex(v: nat): (r: seq<byte>)
    ensures |r| >= 1
  {
    if v < 16 then [HexDigit(v)] else Hex(v / 16) + [HexDigit(v % 16)]
  }

  function Join(gs: seq<u16>): seq<byte> {
    if gs == [] then []
    else if |gs| == 1 then Hex(gs[0])
    else Hex(gs[0]) + ([COLON] + Join(gs[1..]))
  }

  /** Groups in hexadecimal, with `l` of them from `s` replaced by "::". */
  function Text(g: Groups, s: nat, l: nat): seq<byte>
    requires s + l <= 8
  {
    if l == 0 then Join(g) else Join(g[..s]) + ([COLON, COLON] + Join(g[s + l..]))
  }

  predicate LowerHex(c: byte) { 48 <= c <= 57 || 97 <= c <= 102 }

  /** A group is written in lower case (section 4.3 of RFC 5952) and without leading
      zeros (section 4.1). */
  lemma {:induction false} HexCanonical(v: nat)
    ensures forall i :: 0 <= i < |Hex(v)| ==> LowerHex(Hex(v)[i])
    ensures if v == 0 then Hex(v) == [48] else Hex(v)[0] != 48
  {
    if v >= 16 { HexCanonical(v / 16); }
  }

  predicate TextByte(c: byte) { LowerHex(c) || c == 58 }

  lemma {:induction false} JoinBytes(gs: seq<u16>)
    ensures forall i :: 0 <= i < |Join(gs)| ==> TextByte(Join(gs)[i])
    decreases |gs|
  {
    hide Hex, LowerHex;
    if gs != [] {
      HexCanonical(gs[0]);
      JoinBytes(gs[1..]);
    }
  }

  /** No byte of a text is a capital, or anything but a digit or a colon. */
  lemma TextBytes(g: Groups, s: nat, l: nat)
    requires s + l <= 8
    ensures forall i :: 0 <= i < |Text(g, s, l)| ==> TextByte(Text(g, s, l)[i])
  {
    hide Join, LowerHex;
    JoinBytes(g);
    JoinBytes(g[..s]);
    JoinBytes(g[s + l..]);
  }

  lemma JoinNone()
    ensures Join([]) == []
  {
  }

  lemma {:induction false} JoinSnoc(gs: seq<u16>, v: u16)
    ensures Join(gs + [v]) == if gs == [] then Hex(v) else Join(gs) + ([COLON] + Hex(v))
    decreases |gs|
  {
    hide Hex;
    if gs == [] {
      assert gs + [v] == [v];
    } else {
      assert (gs + [v])[1..] == gs[1..] + [v] && (gs + [v])[0] == gs[0];
      JoinSnoc(gs[1..], v);
    }
  }

  /** What has been written when the loop is at group `i`. */
  function Partial(g: Groups, s: nat, l: nat, i: nat): seq<byte>
    requires s + l <= 8 && i <= 8 && (i <= s || s + l <= i)
  {
    if l == 0 || i <= s then Join(g[..i]) else Join(g[..s]) + ([COLON, COLON] + Join(g[s + l..i]))
  }

  predicate NeedSep(s: nat, l: nat, i: nat) { if l == 0 || i <= s then i > 0 else i > s + l }

  lemma PartialGroup(g: Groups, s: nat, l: nat, i: nat)
    requires s + l <= 8 && i < 8 && (i < s || s + l <= i)
    ensures Partial(g, s, l, i + 1) ==
            Partial(g, s, l, i) + (if NeedSep(s, l, i) then [COLON] else []) + Hex(g[i])
  {
    hide Hex, Join;
    JoinNone();
    if l == 0 || i < s {
      assert g[..i + 1] == g[..i] + [g[i]];
      JoinSnoc(g[..i], g[i]);
    } else {
      var gs := g[s + l..i];
      assert g[s + l..i + 1] == gs + [g[i]];
      JoinSnoc(gs, g[i]);
      AppendGroup(Join(g[..s]) + [COLON, COLON], Join(gs), Hex(g[i]));
    }
  }

  lemma PartialRun(g: Groups, s: nat, l: nat)
    requires s + l <= 8 && l > 0
    ensures Partial(g, s, l, s + l) == Partial(g, s, l, s) + [COLON, COLON]
  {
    assert g[s + l..s + l] == [];
    assert [COLON, COLON] + [] == [COLON, COLON];
  }

  lemma PartialEnd(g: Groups, s: nat, l: nat)
    requires s + l <= 8
    ensures Partial(g, s, l, 0) == [] && Partial(g, s, l, 8) == Text(g, s, l)
  {
    assert g[..8] == g && g[s + l..8] == g[s + l..];
    if s == 8 { assert g[8..] == []; }
  }

  /** The formatting loop: the text with the best run compressed. */
  method Format(v: nat) returns (t: seq<byte>, ghost s: nat, ghost l: nat)
    requires v < Pow(8)
    ensures BestRun(Split(v, 8), s, l) && t == Text(Split(v, 8), s, l)
    ensures forall i :: 0 <= i < |t| ==> 48 <= t[i] <= 58 || 97 <= t[i] <= 102
  {
    hide BestRun, Hex, Join, Split, Partial, Text;
    var g: Groups := GroupsOf(v);
    var bs, bl := FindRun(g);
    s, l := bs, bl;
    RunRange(g, bs, bl);
    TextBytes(g, bs, bl);
    PartialEnd(g, bs, bl);
    t := [];
    var i, sep := 0, false;
    while i < 8
      invariant i <= 8 && (i <= bs || bs + bl <= i) && t == Partial(g, bs, bl, i) && sep == NeedSep(bs, bl, i)
      decreases 8 - i
    {
      if bl > 0 && i == bs {
        PartialRun(g, bs, bl);
        t := t + [COLON, COLON];
        i := i + bl;
        sep := false;
      } else {
        PartialGroup(g, bs, bl, i);
        t := t + (if sep then [COLON] else []) + Hex(g[i]);
        sep := true;
        i := i + 1;
      }
    }
  }

  lemma AppendGroup(done: seq<byte>, piece: seq<byte>, h: seq<byte>)
    ensures done + piece + [COLON] + h == done + (piece + ([COLON] + h))
  {
  }

  lemma RunRange(g: Groups, s: nat, l: nat)
    requires BestRun(g, s, l)
    ensures s + l <= 8
  {
  }

  /** The eight shifts that take the value apart. */
  method GroupsOf(v: nat) returns (g: Groups)
    ensures g == Split(v, 8)
  {
    hide Split;
    g := [0, 0, 0, 0, 0, 0, 0, 0];
    for i := 0 to 8
      invariant |g| == 8 && forall j :: 0 <= j < i ==> g[j] == Split(v, 8)[j]
    {
      SplitShift(v, 8, i);
      g := g[i := v / Pow(7 - i) % 0x1_0000];
    }
  }

  // ---- parsing -------------------------------------------------------------

  /** -1 for a byte that is no hexadecimal digit. */
  function HexVal(c: byte): int {
    if 48 <= c <= 57 then c - 48 else if 97 <= c <= 102 then c - 87 else if 65 <= c <= 70 then c - 55 else -1
  }

  /** One group of up to four digits, ended by a colon or the end of the text. */
  function Group(t: seq<byte>, p: nat, digits: nat, g: nat): (r: Option<(nat, nat)>)
    requires p <= |t|
    ensures r.Some? ==> p <= r.value.1 <= |t| && (digits == 0 ==> p < r.value.1)
    ensures r.Some? ==> r.value.1 == |t| || t[r.value.1] == COLON
    decreases |t| - p
  {
    if p == |t| || t[p] == COLON then if digits == 0 then None else Some((g, p))
    else if HexVal(t[p]) < 0 || digits >= 4 then None
    else Group(t, p + 1, digits + 1, g * 16 + HexVal(t[p]))
  }

  lemma {:induction false} GroupSmall(t: seq<byte>, p: nat, digits: nat, g: nat)
    requires p <= |t| && digits <= 4
    requires digits == 0 ==> g < 1
    requires digits == 1 ==> g < 16
    requires digits == 2 ==> g < 256
    requires digits == 3 ==> g < 4096
    requires digits == 4 ==> g < 0x1_0000
    ensures Group(t, p, digits, g).Some? ==> Group(t, p, digits, g).value.0 < 0x1_0000
    decreases |t| - p
  {
    if p < |t| && t[p] != COLON && HexVal(t[p]) >= 0 && digits < 4 {
      GroupSmall(t, p + 1, digits + 1, g * 16 + HexVal(t[p]));
    }
  }

  /** A dot before the next colon: the rest is a dotted quad. */
  function DotAhead(t: seq<byte>, p: nat): bool
    requires p <= |t|
    decreases |t| - p
  {
    p < |t| && (t[p] == DOT || (t[p] != COLON && DotAhead(t, p + 1)))
  }

  function Octet(t: seq<byte>, p: nat, digits: nat, v: nat): (r: Option<(nat, nat)>)
    requires p <= |t| && v <= 255
    ensures r.Some? ==> p <= r.value.1 <= |t| && r.value.0 <= 255
    decreases |t| - p
  {
    if p < |t| && 48 <= t[p] <= 57 then
      var w := v * 10 + (t[p] as int - 48);
      if w > 255 || digits >= 3 then None else Octet(t, p + 1, digits + 1, w)
    else if digits == 0 then None
    else Some((v, p))
  }

  /** `left` more octets, separated by dots and ended by the end of the text. */
  function Quad(t: seq<byte>, p: nat, left: nat, ip: nat): (r: Option<nat>)
    requires p <= |t|
    decreases left
  {
    if left == 0 then if p == |t| then Some(ip) else None
    else
      match Octet(t, p, 0, 0)
      case None => None
      case Some((v, q)) =>
        if left == 1 then Quad(t, q, 0, ip * 256 + v)
        else if q < |t| && t[q] == DOT then Quad(t, q + 1, left - 1, ip * 256 + v)
        else None
  }

  lemma {:induction false} QuadSmall(t: seq<byte>, p: nat, left: nat, ip: nat)
    requires p <= |t| && left <= 4
    requires left == 4 ==> ip < 1
    requires left == 3 ==> ip < 256
    requires left == 2 ==> ip < 0x1_0000
    requires left == 1 ==> ip < 0x100_0000
    requires left == 0 ==> ip < 0x1_0000_0000
    ensures Quad(t, p, left, ip).Some? ==> Quad(t, p, left, ip).value < 0x1_0000_0000
    decreases left
  {
    hide Octet;
    if left > 0 && Octet(t, p, 0, 0).Some? {
      var (v, q) := Octet(t, p, 0, 0).value;
      if left == 1 { QuadSmall(t, q, 0, ip * 256 + v); }
      else if q < |t| && t[q] == DOT { QuadSmall(t, q + 1, left - 1, ip * 256 + v); }
    }
  }

  function Zero(n: nat): (r: seq<u16>)
    ensures |r| == n && forall i :: 0 <= i < n ==> r[i] == 0
  {
    seq(n, _ => 0)
  }

  function Finish(head: seq<u16>, tail: seq<u16>, dc: bool): Option<Groups> {
    var total := |head| + |tail|;
    if dc then if total > 7 then None else Some(head + Zero(8 - total) + tail)
    else if total != 8 then None else Some(head + tail)
  }

  /** The loop over groups; `dc` once "::" has been seen, after which groups
      count from the end. */
  function Loop(t: seq<byte>, p: nat, head: seq<u16>, tail: seq<u16>, dc: bool): Option<Groups>
    requires p <= |t|
    decreases |t| - p
  {
    var cur := if dc then tail else head;
    if DotAhead(t, p) then
      QuadSmall(t, p, 4, 0);
      match Quad(t, p, 4, 0)
      case None => None
      case Some(v) =>
        if |cur| > 6 then None
        else
          var cur' := cur + [v / 0x1_0000, v % 0x1_0000];
          if dc then Finish(head, cur', dc) else Finish(cur', tail, dc)
    else
      GroupSmall(t, p, 0, 0);
      match Group(t, p, 0, 0)
      case None => None
      case Some((g, q)) =>
        if |cur| >= 8 then None
        else
          After(t, q, if dc then head else cur + [g], if dc then cur + [g] else tail, dc)
  }

  /** At the colon or end that follows a group. */
  function After(t: seq<byte>, q: nat, head: seq<u16>, tail: seq<u16>, dc: bool): Option<Groups>
    requires q <= |t|
    decreases |t| - q
  {
    if q == |t| then Finish(head, tail, dc)
    else if q + 1 == |t| then None
    else if t[q + 1] == COLON then
      if dc then None
      else if q + 2 == |t| then Finish(head, tail, true)
      else Loop(t, q + 2, head, tail, true)
    else Loop(t, q + 1, head, tail, dc)
  }

  function Parse(t: seq<byte>): Option<Groups> {
    if |t| > 0 && t[0] == COLON then
      if |t| == 1 || t[1] != COLON then None
      else if |t| == 2 then Some(Zero(8))
      else Loop(t, 2, [], [], true)
    else Loop(t, 0, [], [], false)
  }

  // ---- what was formatted is read back -------------------------------------

  predicate Plain(c: byte) { HexVal(c) >= 0 && c != COLON && c != DOT }

  lemma {:induction false} HexPlain(v: nat)
    ensures forall i :: 0 <= i < |Hex(v)| ==> Plain(Hex(v)[i])
    ensures v < 0x1_0000 ==> |Hex(v)| <= 4
    ensures v < 0x1000 ==> |Hex(v)| <= 3
    ensures v < 0x100 ==> |Hex(v)| <= 2
    ensures v < 0x10 ==> |Hex(v)| == 1
    decreases v
  {
    if v >= 16 { HexPlain(v / 16); }
  }

  lemma DigitValue(d: nat)
    requires d < 16
    ensures HexVal(HexDigit(d)) == d && HexDigit(d) != COLON
  {
  }

  lemma GroupNext(t: seq<byte>, p: nat, digits: nat, g: nat, d: nat)
    requires p < |t| && d < 16 && t[p] == HexDigit(d) && digits < 4
    ensures Group(t, p, digits, g) == Group(t, p + 1, digits + 1, g * 16 + d)
  {
    DigitValue(d);
    hide HexVal, HexDigit;
  }

  /** Reading the digits of a number leaves its value accumulated. */
  lemma {:induction false} GroupDigits(t: seq<byte>, p: nat, v: nat)
    requires At(t, p, Hex(v)) && |Hex(v)| <= 4
    ensures Group(t, p, 0, 0) == Group(t, p + |Hex(v)|, |Hex(v)|, v)
    decreases v
  {
    hide HexDigit, Group;
    if v < 16 {
      assert t[p] == t[p..p + 1][0] == HexDigit(v);
      GroupNext(t, p, 0, 0, v);
    } else {
      var front := Hex(v / 16);
      AtConcat(t, p, front, [HexDigit(v % 16)]);
      GroupDigits(t, p, v / 16);
      var q := p + |front|;
      assert t[q] == t[q..q + 1][0] == HexDigit(v % 16);
      GroupNext(t, q, |front|, v / 16, v % 16);
    }
  }

  lemma {:induction false} NoDot(t: seq<byte>, p: nat, q: nat)
    requires p <= q <= |t| && (forall i :: p <= i < q ==> Plain(t[i])) && (q == |t| || t[q] == COLON)
    ensures !DotAhead(t, p)
    decreases q - p
  {
    hide HexVal;
    if p < q { NoDot(t, p + 1, q); }
  }

  lemma GroupRead(t: seq<byte>, p: nat, v: u16)
    requires At(t, p, Hex(v)) && (p + |Hex(v)| == |t| || t[p + |Hex(v)|] == COLON)
    ensures !DotAhead(t, p) && Group(t, p, 0, 0) == Some((v as nat, p + |Hex(v)|))
  {
    hide DotAhead, HexVal;
    HexPlain(v);
    var q := p + |Hex(v)|;
    GroupDigits(t, p, v);
    forall i | p <= i < q ensures Plain(t[i]) {
      assert t[i] == t[p..q][i - p] == Hex(v)[i - p];
    }
    NoDot(t, p, q);
  }

  lemma LoopStep(t: seq<byte>, p: nat, v: u16, head: seq<u16>, tail: seq<u16>, dc: bool)
    requires At(t, p, Hex(v)) && (p + |Hex(v)| == |t| || t[p + |Hex(v)|] == COLON)
    requires (if dc then |tail| else |head|) < 8
    ensures Loop(t, p, head, tail, dc) ==
            After(t, p + |Hex(v)|, if dc then head else head + [v], if dc then tail + [v] else tail, dc)
  {
    hide Hex, Group, DotAhead, Quad, Finish, After;
    GroupRead(t, p, v);
  }

  /** The first of several joined groups and the colon behind it. */
  lemma JoinSplit(t: seq<byte>, p: nat, gs: seq<u16>)
    requires |gs| > 1 && At(t, p, Join(gs))
    ensures var q := p + |Hex(gs[0])|;
            && At(t, p, Hex(gs[0])) && q + 1 < |t| && t[q] == COLON && t[q + 1] != COLON
            && At(t, q + 1, Join(gs[1..])) && q + 1 + |Join(gs[1..])| == p + |Join(gs)|
  {
    hide Hex, Join, At;
    JoinMore(gs);
    ColonSplit(t, p, Hex(gs[0]), Join(gs[1..]));
    JoinFirst(t, p + |Hex(gs[0])| + 1, gs[1..]);
  }

  lemma ColonSplit(t: seq<byte>, p: nat, h: seq<byte>, rest: seq<byte>)
    requires At(t, p, h + ([COLON] + rest))
    ensures var q := p + |h|;
            && At(t, p, h) && q < |t| && t[q] == COLON && At(t, q + 1, rest)
            && q + 1 + |rest| == p + |h + ([COLON] + rest)|
  {
    hide At;
    AtConcat(t, p, h, [COLON] + rest);
    AtConcat(t, p + |h|, [COLON], rest);
    ColonAt(t, p + |h|);
  }

  lemma JoinMore(gs: seq<u16>)
    requires |gs| > 1
    ensures Join(gs) == Hex(gs[0]) + ([COLON] + Join(gs[1..]))
  {
    hide Hex;
  }

  lemma ColonAt(t: seq<byte>, q: nat)
    requires At(t, q, [COLON])
    ensures q < |t| && t[q] == COLON
  {
    assert t[q] == t[q..q + 1][0];
  }

  lemma JoinOne(v: u16)
    ensures Join([v]) == Hex(v)
  {
  }

  /** Groups up to the end of the text. */
  lemma {:induction false} LoopToEnd(t: seq<byte>, p: nat, gs: seq<u16>, head: seq<u16>, tail: seq<u16>, dc: bool)
    requires gs != [] && At(t, p, Join(gs)) && p + |Join(gs)| == |t|
    requires |gs| + (if dc then |tail| else |head|) <= 8
    ensures Loop(t, p, head, tail, dc) == if dc then Finish(head, tail + gs, dc) else Finish(head + gs, tail, dc)
    decreases |gs|
  {
    hide Hex, Loop, Finish, Join, At;
    var v := gs[0];
    if |gs| == 1 {
      assert gs == [v];
      JoinOne(v);
      LoopStep(t, p, v, head, tail, dc);
    } else {
      JoinSplit(t, p, gs);
      LoopStep(t, p, v, head, tail, dc);
      LoopToEnd(t, p + |Hex(v)| + 1, gs[1..], if dc then head else head + [v], if dc then tail + [v] else tail, dc);
      assert head + [v] + gs[1..] == head + gs && tail + [v] + gs[1..] == tail + gs;
    }
  }

  /** Joined groups start with a digit. */
  lemma JoinFirst(t: seq<byte>, p: nat, gs: seq<u16>)
    requires gs != [] && At(t, p, Join(gs))
    ensures p < |t| && t[p] != COLON
  {
    hide HexVal;
    HexPlain(gs[0]);
    assert Join(gs)[0] == Hex(gs[0])[0];
    assert t[p] == t[p..p + |Join(gs)|][0];
  }

  /** Groups up to the "::". */
  lemma {:induction false} LoopToDc(t: seq<byte>, p: nat, gs: seq<u16>, head: seq<u16>, e: nat)
    requires gs != [] && At(t, p, Join(gs)) && |head| + |gs| <= 8
    requires e == p + |Join(gs)| && e + 2 <= |t| && t[e] == t[e + 1] == COLON
    ensures Loop(t, p, head, [], false) ==
            if e + 2 == |t| then Finish(head + gs, [], true) else Loop(t, e + 2, head + gs, [], true)
    decreases |gs|
  {
    hide Hex, Loop, Finish, Join, At;
    var v := gs[0];
    if |gs| == 1 {
      assert gs == [v];
      JoinOne(v);
      LoopStep(t, p, v, head, [], false);
    } else {
      JoinSplit(t, p, gs);
      LoopStep(t, p, v, head, [], false);
      LoopToDc(t, p + |Hex(v)| + 1, gs[1..], head + [v], e);
      assert head + [v] + gs[1..] == head + gs;
    }
  }

  lemma AtWhole(bs: seq<byte>)
    ensures At(bs, 0, bs)
  {
  }

  lemma FinishRun(g: Groups, s: nat, l: nat)
    requires 1 <= l && Zeros(g, s, l)
    ensures Finish(g[..s], g[s + l..], true) == Some(g)
  {
    assert g[..s] + Zero(l) + g[s + l..] == g;
  }

  lemma RunTail(t: seq<byte>, p: nat, g: Groups, s: nat, l: nat)
    requires 1 <= l && Zeros(g, s, l) && At(t, p, Join(g[s + l..])) && p + |Join(g[s + l..])| == |t|
    requires s + l < 8
    ensures p < |t| && Loop(t, p, g[..s], [], true) == Some(g)
  {
    hide Join, Finish, Loop, Zeros;
    assert s + l <= 8;
    var gs := g[s + l..];
    JoinFirst(t, p, gs);
    LoopToEnd(t, p, gs, g[..s], [], true);
    assert [] + gs == gs;
    FinishRun(g, s, l);
  }

  /** The pieces of a text with a compressed run. */
  lemma RunPieces(g: Groups, s: nat, l: nat)
    requires 1 <= l && s + l <= 8
    ensures var t, e := Text(g, s, l), |Join(g[..s])|;
            && At(t, 0, Join(g[..s])) && e + 2 <= |t| && t[e] == t[e + 1] == COLON
            && At(t, e + 2, Join(g[s + l..])) && e + 2 + |Join(g[s + l..])| == |t|
  {
    hide Join;
    var t, e := Text(g, s, l), |Join(g[..s])|;
    var dots: seq<byte> := [COLON, COLON];
    AtWhole(t);
    AtConcat(t, 0, Join(g[..s]), dots + Join(g[s + l..]));
    AtConcat(t, e, dots, Join(g[s + l..]));
    assert t[e] == t[e..e + 2][0] == COLON && t[e + 1] == t[e..e + 2][1] == COLON;
  }

  lemma ParseNoRun(g: Groups)
    ensures Parse(Join(g)) == Some(g)
  {
    hide Join, Finish, Loop, At;
    var t := Join(g);
    AtWhole(t);
    JoinFirst(t, 0, g);
    LoopToEnd(t, 0, g, [], [], false);
    assert [] + g == g;
    FinishAll(g);
  }

  /** Round trip for every placement of a run of zero groups, or none. */
  lemma ParseText(g: Groups, s: nat, l: nat)
    requires Zeros(g, s, l)
    ensures Parse(Text(g, s, l)) == Some(g)
  {
    if l == 0 {
      hide Parse, Join;
      ParseNoRun(g);
    } else {
      hide Join, Finish, Loop, At, Text;
      var t, e := Text(g, s, l), |Join(g[..s])|;
      RunPieces(g, s, l);
      FinishRun(g, s, l);
      JoinNone();
      if s + l < 8 { RunTail(t, e + 2, g, s, l); } else { assert g[s + l..] == []; }
      if s == 0 {
        assert g[..s] == [];
        if l == 8 { assert Zero(8) == g; }
      } else {
        JoinFirst(t, 0, g[..s]);
        LoopToDc(t, 0, g[..s], [], e);
        assert [] + g[..s] == g[..s];
      }
    }
  }

  lemma FinishAll(g: Groups)
    ensures Finish(g, [], false) == Some(g)
  {
    assert g + [] == g;
  }

  /** Parsing the formatted text of any 128-bit value returns that value. */
  lemma RoundTrip(v: nat, s: nat, l: nat)
    requires v < Pow(8) && BestRun(Split(v, 8), s, l)
    ensures Parse(Text(Split(v, 8), s, l)) == Some(Split(v, 8)) && Value(Split(v, 8)) == v
  {
    hide Text, Parse, Split, Value;
    ParseText(Split(v, 8), s, l);
    SplitValue(v, 8);
  }

  /** The best run is unique, so the text is determined by the value. */
  lemma BestRunUnique(g: Groups, s: nat, l: nat, s': nat, l': nat)
    requires BestRun(g, s, l) && BestRun(g, s', l')
    ensures l == l' && (l > 0 ==> s == s')
  {
  }

  lemma {:induction false} JoinLength(gs: seq<u16>)
    ensures |Join(gs)| <= 5 * |gs| && (gs != [] ==> |Join(gs)| < 5 * |gs|)
    decreases |gs|
  {
    hide Hex, Plain;
    if gs != [] {
      HexPlain(gs[0]);
      JoinLength(gs[1..]);
    }
  }

  /** No text is longer than 39 bytes. */
  lemma TextShort(g: Groups, s: nat, l: nat)
    requires s + l <= 8 && l != 1
    ensures |Text(g, s, l)| <= 39
  {
    hide Join;
    JoinLength(g);
    JoinLength(g[..s]);
    JoinLength(g[s + l..]);
  }

  // ---- the parsing loops ---------------------------------------------------

  method ReadGroup(t: seq<byte>, p: nat) returns (r: Option<(nat, nat)>)
    requires p <= |t|
    ensures r == Group(t, p, 0, 0)
  {
    hide HexVal;
    var q: nat, digits: nat, g: nat := p, 0, 0;
    while q < |t| && t[q] != COLON
      invariant p <= q <= |t| && Group(t, q, digits, g) == Group(t, p, 0, 0)
      invariant digits <= 4
      decreases |t| - q
    {
      var d := HexVal(t[q]);
      if d < 0 { return None; }
      if digits + 1 > 4 { return None; }
      g, digits, q := g * 16 + d, digits + 1, q + 1;
    }
    if digits == 0 { return None; }
    return Some((g, q));
  }

  method SeesDot(t: seq<byte>, p: nat) returns (r: bool)
    requires p <= |t|
    ensures r == DotAhead(t, p)
  {
    var q := p;
    while q < |t|
      invariant p <= q <= |t| && DotAhead(t, q) == DotAhead(t, p)
      decreases |t| - q
    {
      if t[q] == DOT { return true; }
      if t[q] == COLON { return false; }
      q := q + 1;
    }
    return false;
  }

  method ReadOctet(t: seq<byte>, p: nat) returns (r: Option<(nat, nat)>)
    requires p <= |t|
    ensures r == Octet(t, p, 0, 0)
  {
    var q: nat, digits: nat, v: nat := p, 0, 0;
    while q < |t| && 48 <= t[q] <= 57
      invariant p <= q <= |t| && v <= 255 && digits <= 3 && Octet(t, q, digits, v) == Octet(t, p, 0, 0)
      decreases |t| - q
    {
      var w := v * 10 + (t[q] as int - 48);
      if w > 255 { return None; }
      if digits + 1 > 3 { return None; }
      v, digits, q := w, digits + 1, q + 1;
    }
    if digits == 0 { return None; }
    return Some((v, q));
  }

  method ReadQuad(t: seq<byte>, p: nat) returns (r: Option<nat>)
    requires p <= |t|
    ensures r == Quad(t, p, 4, 0)
  {
    hide Octet;
    var q: nat, ip: nat := p, 0;
    for i := 0 to 4
      invariant q <= |t| && Quad(t, q, 4 - i, ip) == Quad(t, p, 4, 0)
    {
      var o := ReadOctet(t, q);
      if o.None? { return None; }
      ip, q := ip * 256 + o.value.0, o.value.1;
      if i < 3 {
        if q == |t| || t[q] != DOT { return None; }
        q := q + 1;
      }
    }
    if q != |t| { return None; }
    return Some(ip);
  }

  /** The parser with its two group arrays and the switch at "::". */
  method ParseAddress(t: seq<byte>) returns (r: Option<nat>)
    ensures r.Some? <==> Parse(t).Some?
    ensures r.Some? ==> r.value == Value(Parse(t).value)
  {
    hide Group, DotAhead, Quad, Value, Finish;
    var p: nat, head: seq<u16>, tail: seq<u16>, dc := 0, [], [], false;
    if |t| > 0 && t[0] == COLON {
      if |t| == 1 || t[1] != COLON { return None; }
      dc, p := true, 2;
      if p == |t| { ZeroValue(8); return Some(0); }
    }
    while true
      invariant p <= |t| && |head| <= 8 && |tail| <= 8 && Loop(t, p, head, tail, dc) == Parse(t)
      decreases |t| - p
    {
      var quad := SeesDot(t, p);
      if quad {
        var v := ReadQuad(t, p);
        if v.None? { return None; }
        QuadSmall(t, p, 4, 0);
        if dc {
          if |tail| > 6 { return None; }
          tail := tail + [v.value / 0x1_0000, v.value % 0x1_0000];
        } else {
          if |head| > 6 { return None; }
          head := head + [v.value / 0x1_0000, v.value % 0x1_0000];
        }
        r := Assemble(head, tail, dc);
        return;
      }
      var g := ReadGroup(t, p);
      if g.None? { return None; }
      GroupSmall(t, p, 0, 0);
      if dc {
        if |tail| >= 8 { return None; }
        tail := tail + [g.value.0];
      } else {
        if |head| >= 8 { return None; }
        head := head + [g.value.0];
      }
      var q := g.value.1;
      if q == |t| { r := Assemble(head, tail, dc); return; }
      if q + 1 == |t| { return None; }
      p := q + 1;
      if t[p] == COLON {
        if dc { return None; }
        dc, p := true, p + 1;
        if p == |t| { r := Assemble(head, tail, dc); return; }
      }
    }
  }

  lemma {:induction false} ZeroValue(n: nat)
    ensures Value(Zero(n)) == 0
  {
    if n > 0 {
      assert Zero(n)[..n - 1] == Zero(n - 1);
      ZeroValue(n - 1);
    }
  }

  /** The counts are checked, then the groups are shifted into one value. */
  method Assemble(head: seq<u16>, tail: seq<u16>, dc: bool) returns (r: Option<nat>)
    ensures r.Some? <==> Finish(head, tail, dc).Some?
    ensures r.Some? ==> r.value == Value(Finish(head, tail, dc).value)
  {
    var total := |head| + |tail|;
    if dc { if total > 7 { return None; } } else if total != 8 { return None; }
    var full := head + Zero(8 - total) + tail;
    assert !dc ==> full == head + tail;
    hide Zero, Finish;
    var v: nat := 0;
    for i := 0 to 8
      invariant v == Value(full[..i])
    {
      assert full[..i + 1][..i] == full[..i];
      v := v * 0x1_0000 + full[i];
    }
    assert full[..8] == full;
    return Some(v);
  }
}
