/** The texts that the address parser accepts (section 2.2 of RFC 4291), and what they
    mean: groups of one to four digits in either case, at most one "::", and a dotted
    quad in place of the last two groups. */
module Ipv6Grammar {
  import opened Bytes
  import opened Ipv6

  // ---- pieces --------------------------------------------------------------

  predicate IsHex(c: byte) { 48 <= c <= 57 || 97 <= c <= 102 || 65 <= c <= 70 }

  function Digit(c: byte): int {
    if 48 <= c <= 57 then c as int - 48 else if 97 <= c <= 102 then c as int - 97 + 10 else c as int - 65 + 10
  }

  predicate HexGroup(h: seq<byte>) { 1 <= |h| <= 4 && forall i :: 0 <= i < |h| ==> IsHex(h[i]) }

  /** The number that digits stand for in a base. */
  function Worth(ds: seq<byte>, base: int): int {
    if ds == [] then 0 else Worth(ds[..|ds| - 1], base) * base + Digit(ds[|ds| - 1])
  }

  predicate Decimals(o: seq<byte>) { 1 <= |o| <= 3 && forall i :: 0 <= i < |o| ==> 48 <= o[i] <= 57 }

  predicate OctetText(o: seq<byte>) { Decimals(o) && Worth(o, 10) <= 255 }

  /** Four octets, or nothing. */
  predicate QuadText(qs: seq<seq<byte>>) {
    qs == [] || (|qs| == 4 && forall i :: 0 <= i < 4 ==> OctetText(qs[i]))
  }

  predicate HexGroups(hs: seq<seq<byte>>) { forall i :: 0 <= i < |hs| ==> HexGroup(hs[i]) }

  function Glue(ps: seq<seq<byte>>, sep: byte): seq<byte> {
    if ps == [] then [] else if |ps| == 1 then ps[0] else ps[0] + ([sep] + Glue(ps[1..], sep))
  }

  /** Groups to the end of the text, the last two perhaps as a quad. */
  function Ending(hs: seq<seq<byte>>, quad: seq<seq<byte>>): seq<byte> {
    if quad == [] then Glue(hs, COLON)
    else if hs == [] then Glue(quad, DOT)
    else Glue(hs, COLON) + ([COLON] + Glue(quad, DOT))
  }

  datatype Written = Written(head: seq<seq<byte>>, dc: bool, tail: seq<seq<byte>>, quad: seq<seq<byte>>)

  function Render(a: Written): seq<byte> {
    if a.dc then Glue(a.head, COLON) + ([COLON, COLON] + Ending(a.tail, a.quad)) else Ending(a.head, a.quad)
  }

  function Count(a: Written): nat { |a.head| + |a.tail| + if a.quad == [] then 0 else 2 }

  predicate PiecesOk(a: Written) {
    HexGroups(a.head) && HexGroups(a.tail) && QuadText(a.quad) && (!a.dc ==> a.tail == [])
  }

  /** Eight groups, or at most seven and "::" for the others. */
  predicate AddressOk(a: Written) {
    PiecesOk(a) && if a.dc then Count(a) <= 7 else Count(a) == 8
  }

  lemma {:induction false} WorthSmall(h: seq<byte>)
    requires |h| <= 4 && forall i :: 0 <= i < |h| ==> IsHex(h[i])
    ensures 0 <= Worth(h, 16) && (|h| == 0 ==> Worth(h, 16) == 0) && (|h| == 1 ==> Worth(h, 16) < 16)
    ensures (|h| == 2 ==> Worth(h, 16) < 0x100) && (|h| == 3 ==> Worth(h, 16) < 0x1000)
    ensures Worth(h, 16) < 0x1_0000
    decreases |h|
  {
    if h != [] { WorthSmall(h[..|h| - 1]); }
  }

  function GroupVal(h: seq<byte>): u16
    requires HexGroup(h)
  {
    WorthSmall(h);
    Worth(h, 16)
  }

  function Vals(hs: seq<seq<byte>>): (r: seq<u16>)
    requires HexGroups(hs)
    ensures |r| == |hs|
  {
    seq(|hs|, i requires 0 <= i < |hs| => GroupVal(hs[i]))
  }

  lemma {:induction false} DecimalPos(o: seq<byte>)
    requires forall i :: 0 <= i < |o| ==> 48 <= o[i] <= 57
    ensures Worth(o, 10) >= 0
    decreases |o|
  {
    if o != [] { DecimalPos(o[..|o| - 1]); }
  }

  function OctetVal(o: seq<byte>): byte
    requires OctetText(o)
  {
    DecimalPos(o);
    Worth(o, 10)
  }

  /** The two groups of a quad. */
  function QuadVals(qs: seq<seq<byte>>): seq<u16>
    requires QuadText(qs)
  {
    if qs == [] then []
    else [OctetVal(qs[0]) as int * 256 + OctetVal(qs[1]) as int, OctetVal(qs[2]) as int * 256 + OctetVal(qs[3]) as int]
  }

  function Meaning(a: Written): Groups
    requires AddressOk(a)
  {
    var tail := Vals(a.tail) + QuadVals(a.quad);
    if a.dc then Vals(a.head) + Zero(8 - Count(a)) + tail else Vals(a.head) + tail
  }

  // ---- reading one piece ---------------------------------------------------

  lemma HexValIs(c: byte)
    ensures HexVal(c) == if IsHex(c) then Digit(c) else -1
    ensures IsHex(c) ==> 0 <= Digit(c) < 16 && c != COLON && c != DOT
  {
  }

  lemma WorthSnoc(ds: seq<byte>, k: nat, base: int)
    requires k < |ds|
    ensures Worth(ds[..k + 1], base) == Worth(ds[..k], base) * base + Digit(ds[k])
  {
    assert ds[..k + 1][..k] == ds[..k];
  }

  lemma PieceByte(t: seq<byte>, p: nat, h: seq<byte>, i: nat)
    requires At(t, p, h) && i < |h|
    ensures p + i < |t| && t[p + i] == h[i]
  {
    assert t[p..p + |h|][i] == h[i];
  }

  lemma {:induction false} GroupDigitsAny(t: seq<byte>, p: nat, h: seq<byte>, k: nat)
    requires HexGroup(h) && At(t, p, h) && k <= |h|
    ensures Worth(h[..k], 16) >= 0 && Group(t, p, 0, 0) == Group(t, p + k, k, Worth(h[..k], 16))
    decreases k
  {
    hide Group, HexVal, Digit, At;
    if k > 0 {
      GroupDigitsAny(t, p, h, k - 1);
      PieceByte(t, p, h, k - 1);
      WorthSnoc(h, k - 1, 16);
      HexValIs(h[k - 1]);
      GroupOne(t, p + k - 1, k - 1, Worth(h[..k - 1], 16));
    }
  }

  lemma GroupOne(t: seq<byte>, p: nat, digits: nat, g: nat)
    requires p < |t| && IsHex(t[p]) && digits < 4 && Digit(t[p]) >= 0
    ensures Group(t, p, digits, g) == Group(t, p + 1, digits + 1, g * 16 + Digit(t[p]))
  {
    HexValIs(t[p]);
    hide HexVal, Digit;
  }

  lemma {:induction false} HexNoDot(t: seq<byte>, p: nat, h: seq<byte>, k: nat)
    requires HexGroup(h) && At(t, p, h) && k <= |h| && (p + |h| == |t| || t[p + |h|] == COLON)
    ensures !DotAhead(t, p + k)
    decreases |h| - k
  {
    if k < |h| {
      PieceByte(t, p, h, k);
      HexValIs(h[k]);
      HexNoDot(t, p, h, k + 1);
    }
  }

  lemma GroupReadAny(t: seq<byte>, p: nat, h: seq<byte>)
    requires HexGroup(h) && At(t, p, h) && (p + |h| == |t| || t[p + |h|] == COLON)
    ensures !DotAhead(t, p) && Group(t, p, 0, 0) == Some((GroupVal(h) as nat, p + |h|))
  {
    hide DotAhead, HexVal;
    assert h[..|h|] == h;
    GroupDigitsAny(t, p, h, |h|);
    HexNoDot(t, p, h, 0);
  }

  lemma GroupCase(t: seq<byte>, p: nat, digits: nat, g: nat)
    requires p <= |t| && Group(t, p, digits, g).Some?
    ensures p == |t| || t[p] == COLON ==> digits > 0 && Group(t, p, digits, g) == Some((g, p))
    ensures p < |t| && t[p] != COLON ==>
              && IsHex(t[p]) && digits < 4 && Digit(t[p]) >= 0
              && Group(t, p, digits, g) == Group(t, p + 1, digits + 1, g * 16 + Digit(t[p]))
  {
    if p < |t| { HexValIs(t[p]); }
    hide HexVal, Digit;
  }

  lemma WorthNext(t: seq<byte>, s: nat, p: nat, base: int)
    requires s <= p < |t|
    ensures Worth(t[s..p + 1], base) == Worth(t[s..p], base) * base + Digit(t[p])
  {
    assert t[s..p + 1][..p - s] == t[s..p];
  }

  /** Conversely, what is read as a group is one. */
  lemma {:induction false} GroupSound(t: seq<byte>, s: nat, p: nat, digits: nat, g: nat)
    requires s + digits == p <= |t| && digits <= 4 && (forall i :: s <= i < p ==> IsHex(t[i])) && g == Worth(t[s..p], 16)
    requires Group(t, p, digits, g).Some?
    ensures var (v, q) := Group(t, p, digits, g).value;
            s < q <= |t| && HexGroup(t[s..q]) && v == Worth(t[s..q], 16) && (q == |t| || t[q] == COLON)
    decreases |t| - p
  {
    hide Group, Digit, Worth;
    GroupCase(t, p, digits, g);
    if p < |t| && t[p] != COLON {
      WorthNext(t, s, p, 16);
      GroupSound(t, s, p + 1, digits + 1, g * 16 + Digit(t[p]));
    }
  }

  // ---- reading a quad ------------------------------------------------------

  lemma {:induction false} WorthMono(o: seq<byte>, k: nat)
    requires k <= |o| && forall i :: 0 <= i < |o| ==> 48 <= o[i] <= 57
    ensures 0 <= Worth(o[..k], 10) <= Worth(o, 10)
    decreases |o| - k
  {
    DecimalPos(o[..k]);
    if k == |o| { assert o[..k] == o; } else { WorthSnoc(o, k, 10); WorthMono(o, k + 1); }
  }

  lemma {:induction false} OctetDigits(t: seq<byte>, p: nat, o: seq<byte>, k: nat)
    requires OctetText(o) && At(t, p, o) && k <= |o|
    ensures 0 <= Worth(o[..k], 10) <= 255 && Octet(t, p, 0, 0) == Octet(t, p + k, k, Worth(o[..k], 10))
    decreases k
  {
    hide At;
    WorthMono(o, k);
    if k > 0 {
      WorthMono(o, k - 1);
      OctetDigits(t, p, o, k - 1);
      PieceByte(t, p, o, k - 1);
      WorthSnoc(o, k - 1, 10);
    }
  }

  lemma OctetRead(t: seq<byte>, p: nat, o: seq<byte>)
    requires OctetText(o) && At(t, p, o) && (p + |o| == |t| || t[p + |o|] == DOT)
    ensures Octet(t, p, 0, 0) == Some((OctetVal(o) as nat, p + |o|))
  {
    assert o[..|o|] == o;
    OctetDigits(t, p, o, |o|);
  }

  lemma {:induction false} OctetSound(t: seq<byte>, s: nat, p: nat, digits: nat, v: nat)
    requires s + digits == p <= |t| && digits <= 3 && (forall i :: s <= i < p ==> 48 <= t[i] <= 57)
    requires v == Worth(t[s..p], 10) <= 255 && Octet(t, p, digits, v).Some?
    ensures var (w, q) := Octet(t, p, digits, v).value;
            s < q <= |t| && OctetText(t[s..q]) && w == Worth(t[s..q], 10)
    decreases |t| - p
  {
    if p < |t| && 48 <= t[p] <= 57 {
      assert t[s..p + 1][..digits] == t[s..p];
      OctetSound(t, s, p + 1, digits + 1, v * 10 + (t[p] as int - 48));
    }
  }

  lemma GlueCons(p: seq<byte>, ps: seq<seq<byte>>, sep: byte)
    ensures Glue([p] + ps, sep) == if ps == [] then p else p + ([sep] + Glue(ps, sep))
  {
    assert ([p] + ps)[1..] == ps;
  }

  lemma SepAt(t: seq<byte>, p: nat, h: seq<byte>, c: byte, rest: seq<byte>)
    requires At(t, p, h + ([c] + rest))
    ensures At(t, p, h) && p + |h| < |t| && t[p + |h|] == c && At(t, p + |h| + 1, rest)
    ensures |h + ([c] + rest)| == |h| + 1 + |rest|
  {
    AtConcat(t, p, h, [c] + rest);
    AtConcat(t, p + |h|, [c], rest);
    assert t[p + |h|] == t[p + |h|..p + |h| + 1][0];
  }

  /** The value of octets, most significant first, after `ip`. */
  function QuadValue(qs: seq<seq<byte>>, ip: nat): nat
    requires forall i :: 0 <= i < |qs| ==> OctetText(qs[i])
    decreases |qs|
  {
    if qs == [] then ip else QuadValue(qs[1..], ip * 256 + OctetVal(qs[0]))
  }

  lemma {:induction false} QuadRead(t: seq<byte>, p: nat, qs: seq<seq<byte>>, ip: nat)
    requires qs != [] && (forall i :: 0 <= i < |qs| ==> OctetText(qs[i])) && At(t, p, Glue(qs, DOT)) && p + |Glue(qs, DOT)| == |t|
    ensures Quad(t, p, |qs|, ip) == Some(QuadValue(qs, ip))
    decreases |qs|
  {
    hide Octet, OctetText, OctetVal;
    var o := qs[0];
    if |qs| == 1 {
      assert qs[1..] == [];
      OctetRead(t, p, o);
    } else {
      SepAt(t, p, o, DOT, Glue(qs[1..], DOT));
      OctetRead(t, p, o);
      QuadRead(t, p + |o| + 1, qs[1..], ip * 256 + OctetVal(o));
    }
  }

  lemma {:induction false} QuadDot(t: seq<byte>, p: nat, o: seq<byte>, k: nat)
    requires OctetText(o) && At(t, p, o) && k <= |o| && p + |o| < |t| && t[p + |o|] == DOT
    ensures DotAhead(t, p + k)
    decreases |o| - k
  {
    if k < |o| {
      PieceByte(t, p, o, k);
      QuadDot(t, p, o, k + 1);
    }
  }

  lemma QuadCase(t: seq<byte>, p: nat, left: nat, ip: nat)
    requires p <= |t| && left > 0 && Quad(t, p, left, ip).Some?
    ensures Octet(t, p, 0, 0).Some?
    ensures var (v, q) := Octet(t, p, 0, 0).value;
            && q <= |t| && (left == 1 ==> q == |t| && Quad(t, p, left, ip) == Some(ip * 256 + v))
            && (left > 1 ==> q < |t| && t[q] == DOT && Quad(t, p, left, ip) == Quad(t, q + 1, left - 1, ip * 256 + v))
  {
    hide Octet;
  }

  lemma {:induction false} QuadSound(t: seq<byte>, p: nat, left: nat, ip: nat) returns (qs: seq<seq<byte>>)
    requires p <= |t| && left > 0 && Quad(t, p, left, ip).Some?
    ensures |qs| == left && (forall i :: 0 <= i < |qs| ==> OctetText(qs[i])) && t[p..] == Glue(qs, DOT)
    ensures Quad(t, p, left, ip).value == QuadValue(qs, ip)
    decreases left
  {
    hide Octet, OctetText, OctetVal, Quad, Glue, Worth;
    NoDigits(t, p);
    QuadCase(t, p, left, ip);
    OctetSound(t, p, p, 0, 0);
    var (v, q) := Octet(t, p, 0, 0).value;
    var o := t[p..q];
    OctetIs(o, v);
    if left == 1 {
      qs := [o];
      GlueCons(o, [], DOT);
      assert qs == [o] + [] && qs[1..] == [];
    } else {
      var rest := QuadSound(t, q + 1, left - 1, ip * 256 + v);
      qs := [o] + rest;
      GlueCons(o, rest, DOT);
      assert t[p..] == o + ([DOT] + t[q + 1..]);
      assert qs[1..] == rest;
    }
  }

  lemma NoDigits(t: seq<byte>, p: nat)
    requires p <= |t|
    ensures t[p..p] == [] && Worth([], 10) == 0
  {
  }

  lemma OctetIs(o: seq<byte>, v: int)
    requires OctetText(o) && v == Worth(o, 10)
    ensures v == OctetVal(o) as int
  {
  }

  lemma QuadSplit(qs: seq<seq<byte>>)
    requires |qs| == 4 && QuadText(qs)
    ensures QuadValue(qs, 0) < 0x1_0000_0000
    ensures QuadVals(qs) == [QuadValue(qs, 0) / 0x1_0000, QuadValue(qs, 0) % 0x1_0000]
  {
    hide OctetText, OctetVal;
    var a, b, c, d := OctetVal(qs[0]) as int, OctetVal(qs[1]) as int, OctetVal(qs[2]) as int, OctetVal(qs[3]) as int;
    QuadUnroll(qs);
    var hi, lo := a * 256 + b, c * 256 + d;
    assert QuadValue(qs, 0) == hi * 0x1_0000 + lo;
  }

  lemma QuadUnroll(qs: seq<seq<byte>>)
    requires |qs| == 4 && forall i :: 0 <= i < 4 ==> OctetText(qs[i])
    ensures QuadValue(qs, 0) == ((OctetVal(qs[0]) as int * 256 + OctetVal(qs[1]) as int) * 256 + OctetVal(qs[2]) as int) * 256
                                + OctetVal(qs[3]) as int
  {
    hide OctetText, OctetVal;
    var a, b, c := qs[1..], qs[2..], qs[3..];
    assert a[1..] == b && b[1..] == c && c[1..] == [];
    var x := OctetVal(qs[0]) as int;
    var y := x * 256 + OctetVal(qs[1]) as int;
    var z := y * 256 + OctetVal(qs[2]) as int;
    assert QuadValue(c, z) == z * 256 + OctetVal(qs[3]) as int;
    assert QuadValue(b, y) == QuadValue(c, z);
    assert QuadValue(a, x) == QuadValue(b, y);
  }

  // ---- every such text is accepted -----------------------------------------

  lemma StepAny(t: seq<byte>, p: nat, h: seq<byte>, head: seq<u16>, tail: seq<u16>, dc: bool)
    requires HexGroup(h) && At(t, p, h) && (p + |h| == |t| || t[p + |h|] == COLON)
    requires (if dc then |tail| else |head|) < 8
    ensures Loop(t, p, head, tail, dc) ==
            After(t, p + |h|, if dc then head else head + [GroupVal(h)], if dc then tail + [GroupVal(h)] else tail, dc)
  {
    hide Group, DotAhead, Quad, Finish, After, HexGroup, GroupVal;
    GroupReadAny(t, p, h);
  }

  function Joined(cur: seq<u16>, hs: seq<seq<byte>>, quad: seq<seq<byte>>): seq<u16>
    requires HexGroups(hs) && QuadText(quad)
  {
    cur + Vals(hs) + QuadVals(quad)
  }

  lemma JoinedCons(cur: seq<u16>, hs: seq<seq<byte>>, quad: seq<seq<byte>>)
    requires HexGroups(hs) && QuadText(quad)
    ensures hs != [] ==> Joined(cur, hs, quad) == Joined(cur + [GroupVal(hs[0])], hs[1..], quad)
    ensures hs == [] && quad == [] ==> Joined(cur, hs, quad) == cur
    ensures hs == [] ==> Joined(cur, hs, quad) == cur + QuadVals(quad)
  {
    hide GroupVal, QuadVals;
    if hs != [] {
      assert Vals(hs) == [GroupVal(hs[0])] + Vals(hs[1..]);
    } else {
      assert cur + Vals(hs) == cur;
    }
    if quad == [] { NoQuad(quad); assert cur + Vals(hs) + [] == cur + Vals(hs); }
  }

  lemma NoQuad(quad: seq<seq<byte>>)
    requires quad == []
    ensures QuadVals(quad) == []
  {
  }

  lemma QuadStep(t: seq<byte>, p: nat, quad: seq<seq<byte>>, head: seq<u16>, tail: seq<u16>, dc: bool)
    requires quad != [] && QuadText(quad) && At(t, p, Glue(quad, DOT)) && p + |Glue(quad, DOT)| == |t|
    requires (if dc then |tail| else |head|) <= 6
    ensures Loop(t, p, head, tail, dc) ==
            if dc then Finish(head, tail + QuadVals(quad), dc) else Finish(head + QuadVals(quad), tail, dc)
  {
    hide Octet, OctetText, OctetVal, QuadVals, Group, After, Finish;
    SepAt(t, p, quad[0], DOT, Glue(quad[1..], DOT));
    QuadDot(t, p, quad[0], 0);
    hide DotAhead, Quad;
    QuadRead(t, p, quad, 0);
    QuadSplit(quad);
  }

  /** The first group of an ending and what follows it. */
  lemma EndingParts(t: seq<byte>, p: nat, hs: seq<seq<byte>>, quad: seq<seq<byte>>)
    requires hs != [] && HexGroups(hs) && At(t, p, Ending(hs, quad)) && p + |Ending(hs, quad)| == |t|
    ensures var q := p + |hs[0]|;
            && At(t, p, hs[0]) && (|hs| == 1 && quad == [] ==> q == |t|)
            && (|hs| > 1 || quad != [] ==> q < |t| && t[q] == COLON && At(t, q + 1, Ending(hs[1..], quad))
                                           && q + 1 + |Ending(hs[1..], quad)| == |t|)
  {
    hide Ending, Glue, HexGroup, At;
    EndingCons(hs, quad);
    if |hs| > 1 || quad != [] { SepAt(t, p, hs[0], COLON, Ending(hs[1..], quad)); }
  }

  lemma EndingCons(hs: seq<seq<byte>>, quad: seq<seq<byte>>)
    requires hs != []
    ensures Ending(hs, quad) ==
            if |hs| == 1 && quad == [] then hs[0] else hs[0] + ([COLON] + Ending(hs[1..], quad))
  {
    if |hs| == 1 {
      assert hs[1..] == [];
    } else if quad != [] {
      var a, b, c := hs[0], Glue(hs[1..], COLON), Glue(quad, DOT);
      assert Glue(hs, COLON) == a + ([COLON] + b);
      assert a + ([COLON] + b) + ([COLON] + c) == a + ([COLON] + (b + ([COLON] + c)));
    }
  }

  lemma EndingFirst(t: seq<byte>, p: nat, hs: seq<seq<byte>>, quad: seq<seq<byte>>)
    requires HexGroups(hs) && QuadText(quad) && (hs != [] || quad != []) && At(t, p, Ending(hs, quad))
    ensures p < |t| && t[p] != COLON
  {
    var h := if hs != [] then hs[0] else quad[0];
    assert |h| >= 1 && h[0] != COLON by {
      if hs != [] { assert HexGroup(h); HexValIs(h[0]); } else { assert OctetText(h); }
    }
    var e := Ending(hs, quad);
    assert |e| >= 1 && e[0] == h[0] by {
      if hs != [] { EndingCons(hs, quad); }
    }
    PieceByte(t, p, e, 0);
  }

  lemma {:induction false} EndRead(t: seq<byte>, p: nat, hs: seq<seq<byte>>, quad: seq<seq<byte>>,
                                   head: seq<u16>, tail: seq<u16>, dc: bool)
    requires HexGroups(hs) && QuadText(quad) && (hs != [] || quad != [])
    requires At(t, p, Ending(hs, quad)) && p + |Ending(hs, quad)| == |t|
    requires |hs| + (if quad == [] then 0 else 2) + (if dc then |tail| else |head|) <= 8
    ensures Loop(t, p, head, tail, dc) ==
            if dc then Finish(head, Joined(tail, hs, quad), dc) else Finish(Joined(head, hs, quad), tail, dc)
    decreases |hs|
  {
    hide Loop, Finish, At, Ending, HexGroup, GroupVal, Joined, QuadText, QuadVals, Glue;
    JoinedCons(head, hs, quad);
    JoinedCons(tail, hs, quad);
    if hs == [] {
      EndingQuad(quad);
      QuadStep(t, p, quad, head, tail, dc);
    } else {
      EndingParts(t, p, hs, quad);
      StepAny(t, p, hs[0], head, tail, dc);
      var v := GroupVal(hs[0]);
      if |hs| > 1 || quad != [] {
        EndingFirst(t, p + |hs[0]| + 1, hs[1..], quad);
        EndRead(t, p + |hs[0]| + 1, hs[1..], quad, if dc then head else head + [v], if dc then tail + [v] else tail, dc);
      } else {
        assert hs[1..] == [];
        JoinedCons(head + [v], hs[1..], quad);
        JoinedCons(tail + [v], hs[1..], quad);
      }
    }
  }

  lemma EndingQuad(quad: seq<seq<byte>>)
    requires quad != []
    ensures Ending([], quad) == Glue(quad, DOT)
  {
  }

  /** Groups up to the "::". */
  lemma {:induction false} DcRead(t: seq<byte>, p: nat, hs: seq<seq<byte>>, head: seq<u16>, e: nat)
    requires hs != [] && HexGroups(hs) && At(t, p, Glue(hs, COLON)) && |head| + |hs| <= 8
    requires e == p + |Glue(hs, COLON)| && e + 2 <= |t| && t[e] == t[e + 1] == COLON
    ensures Loop(t, p, head, [], false) ==
            if e + 2 == |t| then Finish(head + Vals(hs), [], true) else Loop(t, e + 2, head + Vals(hs), [], true)
    decreases |hs|
  {
    hide Loop, Finish, At, HexGroup, GroupVal;
    var h, v := hs[0], GroupVal(hs[0]);
    if |hs| == 1 {
      assert head + Vals(hs) == head + [v];
      StepAny(t, p, h, head, [], false);
    } else {
      SepAt(t, p, h, COLON, Glue(hs[1..], COLON));
      StepAny(t, p, h, head, [], false);
      GlueFirst(t, p + |h| + 1, hs[1..]);
      DcRead(t, p + |h| + 1, hs[1..], head + [v], e);
      assert Vals(hs) == [v] + Vals(hs[1..]);
      assert head + [v] + Vals(hs[1..]) == head + Vals(hs);
    }
  }

  lemma GlueFirst(t: seq<byte>, p: nat, hs: seq<seq<byte>>)
    requires hs != [] && HexGroups(hs) && At(t, p, Glue(hs, COLON))
    ensures p < |t| && t[p] != COLON
  {
    assert HexGroup(hs[0]);
    HexValIs(hs[0][0]);
    PieceByte(t, p, Glue(hs, COLON), 0);
  }

  lemma FinishOf(a: Written)
    requires AddressOk(a)
    ensures a.dc ==> Finish(Vals(a.head), Joined([], a.tail, a.quad), true) == Some(Meaning(a))
    ensures !a.dc ==> Finish(Joined([], a.head, a.quad), [], false) == Some(Meaning(a))
  {
    hide GroupVal;
    var q := QuadVals(a.quad);
    assert [] + Vals(a.tail) == Vals(a.tail) && [] + Vals(a.head) == Vals(a.head);
    if !a.dc {
      assert Vals(a.tail) == [] && [] + q == q;
      assert Vals(a.head) + q + [] == Vals(a.head) + q;
    }
  }

  lemma DcParts(a: Written)
    requires a.dc
    ensures var t, e := Render(a), |Glue(a.head, COLON)|;
            && At(t, 0, Glue(a.head, COLON)) && e + 2 <= |t| && t[e] == COLON && t[e + 1] == COLON
            && At(t, e + 2, Ending(a.tail, a.quad)) && e + 2 + |Ending(a.tail, a.quad)| == |t|
  {
    hide Glue, Ending;
    var t, e, rest := Render(a), |Glue(a.head, COLON)|, Ending(a.tail, a.quad);
    assert [COLON, COLON] + rest == [COLON] + ([COLON] + rest);
    AtWhole(t);
    SepAt(t, 0, Glue(a.head, COLON), COLON, [COLON] + rest);
    AtConcat(t, e + 1, [COLON], rest);
    ColonAt(t, e + 1);
  }

  lemma EmptyEnding()
    ensures Ending([], []) == [] && Glue([], COLON) == []
  {
  }

  /** Every written address is accepted with its meaning. */
  lemma Accepts(a: Written)
    requires AddressOk(a)
    ensures Parse(Render(a)) == Some(Meaning(a))
  {
    hide Loop, Finish, At, HexGroup, Joined, QuadText, Glue, Ending, Vals, Meaning, QuadVals;
    var t := Render(a);
    FinishOf(a);
    EmptyEnding();
    if a.dc {
      DcParts(a);
      var e := |Glue(a.head, COLON)|;
      if a.tail != [] || a.quad != [] {
        EndRead(t, e + 2, a.tail, a.quad, Vals(a.head), [], true);
        EndingFirst(t, e + 2, a.tail, a.quad);
      } else {
        JoinedCons([], a.tail, a.quad);
      }
      if a.head == [] { NoVals(a.head); WholeZero(a); }
      else {
        GlueFirst(t, 0, a.head);
        DcRead(t, 0, a.head, [], e);
        assert [] + Vals(a.head) == Vals(a.head);
      }
    } else {
      AtWhole(t);
      EndingFirst(t, 0, a.head, a.quad);
      EndRead(t, 0, a.head, a.quad, [], [], false);
    }
  }

  lemma NoVals(hs: seq<seq<byte>>)
    requires hs == []
    ensures HexGroups(hs) && Vals(hs) == []
  {
  }

  lemma WholeZero(a: Written)
    requires AddressOk(a) && a.dc && a.head == []
    ensures a.tail == [] && a.quad == [] ==> Meaning(a) == Zero(8)
  {
    hide GroupVal;
    if a.tail == [] && a.quad == [] {
      assert Vals(a.head) == [] && Vals(a.tail) == [] && QuadVals(a.quad) == [];
      assert [] + Zero(8) + ([] + []) == Zero(8);
    }
  }

  // ---- nothing else is accepted --------------------------------------------

  /** What the loop still reads, and what it makes of it. */
  ghost predicate Reads(t: seq<byte>, p: nat, head: seq<u16>, tail: seq<u16>, dc: bool, a: Written)
    requires p <= |t|
  {
    && PiecesOk(a) && (dc ==> !a.dc) && (a.dc ==> a.head != []) && (a.head != [] || a.quad != [])
    && t[p..] == Render(a)
    && Loop(t, p, head, tail, dc) ==
       if dc then Finish(head, Joined(tail, a.head, a.quad), true)
       else if a.dc then Finish(head + Vals(a.head), Joined(tail, a.tail, a.quad), true)
       else Finish(Joined(head, a.head, a.quad), tail, false)
  }

  lemma ReadsQuad(t: seq<byte>, p: nat, head: seq<u16>, tail: seq<u16>, dc: bool) returns (a: Written)
    requires p <= |t| && DotAhead(t, p) && Loop(t, p, head, tail, dc).Some?
    ensures Reads(t, p, head, tail, dc, a)
  {
    hide OctetText, OctetVal, DotAhead, Quad, Finish, QuadVals, Group, After;
    var qs := QuadSound(t, p, 4, 0);
    a := Written([], false, [], qs);
    QuadSplit(qs);
    EndingQuad(qs);
    JoinedCons(head, [], qs);
    JoinedCons(tail, [], qs);
  }

  lemma ReadsLast(t: seq<byte>, p: nat, h: seq<byte>, head: seq<u16>, tail: seq<u16>, dc: bool)
    requires p <= |t| && HexGroup(h) && t[p..] == h
    requires Loop(t, p, head, tail, dc) ==
             Finish(if dc then head else head + [GroupVal(h)], if dc then tail + [GroupVal(h)] else tail, dc)
    ensures Reads(t, p, head, tail, dc, Written([h], false, [], []))
  {
    hide HexGroup, GroupVal, Loop, Finish, QuadVals, Joined;
    JoinedCons(head, [h], []);
    JoinedCons(tail, [h], []);
    assert [h][1..] == [];
    JoinedCons(head + [GroupVal(h)], [], []);
    JoinedCons(tail + [GroupVal(h)], [], []);
  }

  lemma ReadsMore(t: seq<byte>, p: nat, h: seq<byte>, head: seq<u16>, tail: seq<u16>, dc: bool, b: Written)
    requires p + |h| + 1 <= |t| && HexGroup(h) && t[p..] == h + ([COLON] + t[p + |h| + 1..])
    requires var v := GroupVal(h); var x, y := if dc then head else head + [v], if dc then tail + [v] else tail;
             Reads(t, p + |h| + 1, x, y, dc, b) && Loop(t, p, head, tail, dc) == Loop(t, p + |h| + 1, x, y, dc)
    ensures Reads(t, p, head, tail, dc, Written([h] + b.head, b.dc, b.tail, b.quad))
  {
    hide HexGroup, GroupVal, Loop, Finish, QuadVals, Joined, Render, QuadText, Vals;
    var v, hs := GroupVal(h), [h] + b.head;
    assert hs[0] == h && hs[1..] == b.head;
    RenderMore(h, b);
    JoinedCons(head, hs, b.quad);
    JoinedCons(tail, hs, b.quad);
    ValsMore(head, h, b.head);
  }

  lemma ValsMore(head: seq<u16>, h: seq<byte>, hs: seq<seq<byte>>)
    requires HexGroup(h) && HexGroups(hs)
    ensures head + [GroupVal(h)] + Vals(hs) == head + Vals([h] + hs)
  {
    hide HexGroup, GroupVal;
    assert Vals([h] + hs) == [GroupVal(h)] + Vals(hs);
    assert head + [GroupVal(h)] + Vals(hs) == head + ([GroupVal(h)] + Vals(hs));
  }

  lemma Regroup(a: seq<byte>, b: seq<byte>, c: seq<byte>, d: seq<byte>)
    ensures (a + (b + c)) + d == a + (b + (c + d))
  {
  }

  lemma RenderMore(h: seq<byte>, b: Written)
    requires (b.dc ==> b.head != []) && (b.head != [] || b.quad != [])
    ensures Render(Written([h] + b.head, b.dc, b.tail, b.quad)) == h + ([COLON] + Render(b))
  {
    hide Glue, Ending;
    var hs := [h] + b.head;
    assert hs[0] == h && hs[1..] == b.head;
    if b.dc {
      GlueCons(h, b.head, COLON);
      Regroup(h, [COLON], Glue(b.head, COLON), [COLON, COLON] + Ending(b.tail, b.quad));
    } else {
      EndingCons(hs, b.quad);
    }
  }

  /** After a group: "::" and then the rest. */
  lemma ReadsDc(t: seq<byte>, p: nat, h: seq<byte>, head: seq<u16>, tail: seq<u16>, b: Written)
    requires p + |h| + 2 <= |t| && HexGroup(h) && t[p..] == h + ([COLON, COLON] + t[p + |h| + 2..])
    requires Reads(t, p + |h| + 2, head + [GroupVal(h)], tail, true, b)
    requires Loop(t, p, head, tail, false) == Loop(t, p + |h| + 2, head + [GroupVal(h)], tail, true)
    ensures Reads(t, p, head, tail, false, Written([h], true, b.head, b.quad))
  {
    hide HexGroup, GroupVal, Loop, Finish, QuadVals, Joined, Ending, QuadText;
    assert Vals([h]) == [GroupVal(h)];
  }

  lemma ReadsDcEnd(t: seq<byte>, p: nat, h: seq<byte>, head: seq<u16>, tail: seq<u16>)
    requires p <= |t| && HexGroup(h) && t[p..] == h + [COLON, COLON]
    requires Loop(t, p, head, tail, false) == Finish(head + [GroupVal(h)], tail, true)
    ensures Reads(t, p, head, tail, false, Written([h], true, [], []))
  {
    hide HexGroup, GroupVal, Loop, Finish, QuadVals, Joined;
    assert Vals([h]) == [GroupVal(h)];
    JoinedCons(tail, [], []);
    EmptyEnding();
    assert [COLON, COLON] + [] == [COLON, COLON];
  }

  lemma LoopGroup(t: seq<byte>, p: nat, head: seq<u16>, tail: seq<u16>, dc: bool) returns (q: nat)
    requires p <= |t| && !DotAhead(t, p) && Loop(t, p, head, tail, dc).Some?
    ensures p < q <= |t| && HexGroup(t[p..q]) && (q == |t| || t[q] == COLON)
    ensures var v := GroupVal(t[p..q]);
            Loop(t, p, head, tail, dc) == After(t, q, if dc then head else head + [v], if dc then tail + [v] else tail, dc)
  {
    hide Group, DotAhead, Quad, Finish, After;
    assert t[p..p] == [];
    GroupSound(t, p, p, 0, 0);
    q := Group(t, p, 0, 0).value.1;
  }

  lemma AfterIs(t: seq<byte>, q: nat, head: seq<u16>, tail: seq<u16>, dc: bool)
    requires q <= |t| && After(t, q, head, tail, dc).Some?
    ensures q == |t| ==> After(t, q, head, tail, dc) == Finish(head, tail, dc)
    ensures q < |t| ==> q + 1 < |t|
    ensures q < |t| && t[q + 1] == COLON ==>
              !dc && After(t, q, head, tail, dc) == if q + 2 == |t| then Finish(head, tail, true) else Loop(t, q + 2, head, tail, true)
    ensures q < |t| && t[q + 1] != COLON ==> After(t, q, head, tail, dc) == Loop(t, q + 1, head, tail, dc)
  {
    hide Loop, Finish;
  }

  lemma {:induction false} LoopSound(t: seq<byte>, p: nat, head: seq<u16>, tail: seq<u16>, dc: bool) returns (a: Written)
    requires p <= |t| && Loop(t, p, head, tail, dc).Some?
    ensures Reads(t, p, head, tail, dc, a)
    decreases |t| - p
  {
    hide Loop, Reads, DotAhead, After, HexGroup, GroupVal, Finish;
    if DotAhead(t, p) {
      a := ReadsQuad(t, p, head, tail, dc);
    } else {
      var q := LoopGroup(t, p, head, tail, dc);
      var h := t[p..q];
      var v := GroupVal(h);
      var x, y := if dc then head else head + [v], if dc then tail + [v] else tail;
      AfterIs(t, q, x, y, dc);
      if q == |t| {
        ReadsLast(t, p, h, head, tail, dc);
        a := Written([h], false, [], []);
      } else if t[q + 1] != COLON {
        var b := LoopSound(t, q + 1, x, y, dc);
        assert t[p..] == h + ([COLON] + t[q + 1..]);
        ReadsMore(t, p, h, head, tail, dc, b);
        a := Written([h] + b.head, b.dc, b.tail, b.quad);
      } else if q + 2 == |t| {
        assert t[p..] == h + [COLON, COLON];
        ReadsDcEnd(t, p, h, head, tail);
        a := Written([h], true, [], []);
      } else {
        var b := LoopSound(t, q + 2, x, y, true);
        assert t[p..] == h + ([COLON, COLON] + t[q + 2..]);
        ReadsDc(t, p, h, head, tail, b);
        a := Written([h], true, b.head, b.quad);
      }
    }
  }

  lemma FinishCount(head: seq<u16>, tail: seq<u16>, dc: bool)
    requires Finish(head, tail, dc).Some?
    ensures if dc then |head| + |tail| <= 7 else |head| + |tail| == 8
  {
  }

  lemma JoinedLength(cur: seq<u16>, hs: seq<seq<byte>>, quad: seq<seq<byte>>)
    requires HexGroups(hs) && QuadText(quad)
    ensures |Joined(cur, hs, quad)| == |cur| + |hs| + if quad == [] then 0 else 2
  {
    hide GroupVal, OctetVal, OctetText;
  }

  /** Whatever is accepted is a written address, and nothing else is its value. */
  lemma OnlyAccepts(t: seq<byte>) returns (a: Written)
    requires Parse(t).Some?
    ensures AddressOk(a) && Render(a) == t && Parse(t) == Some(Meaning(a))
  {
    hide Loop, Finish, Joined, Ending, Glue, Vals, Meaning, HexGroups, QuadText;
    EmptyEnding();
    NoVals([]);
    if |t| > 0 && t[0] == COLON {
      if |t| == 2 {
        a := Written([], true, [], []);
        NoPieces();
        WholeZero(a);
        assert t == [] + ([COLON, COLON] + []);
      } else {
        var b := LoopSound(t, 2, [], [], true);
        a := Written([], true, b.head, b.quad);
        JoinedLength([], b.head, b.quad);
        FinishCount([], Joined([], b.head, b.quad), true);
        NoPieces();
        assert t == [] + ([COLON, COLON] + t[2..]);
        FinishOf(a);
      }
    } else {
      a := LoopSound(t, 0, [], [], false);
      assert t[0..] == t;
      JoinedLength([], a.head, a.quad);
      JoinedLength([], a.tail, a.quad);
      assert [] + Vals(a.head) == Vals(a.head);
      if a.dc {
        FinishCount(Vals(a.head), Joined([], a.tail, a.quad), true);
      } else {
        FinishCount(Joined([], a.head, a.quad), [], false);
      }
      FinishOf(a);
    }
  }

  lemma NoPieces()
    ensures HexGroups([]) && QuadText([])
  {
  }

  /** The parser accepts exactly the written addresses. */
  lemma ParserExact(t: seq<byte>, g: Groups)
    ensures Parse(t) == Some(g) <==> exists a :: AddressOk(a) && Render(a) == t && Meaning(a) == g
  {
    hide Parse, Render, Meaning, AddressOk;
    if Parse(t) == Some(g) {
      var a := OnlyAccepts(t);
    }
    if a :| AddressOk(a) && Render(a) == t && Meaning(a) == g {
      Accepts(a);
    }
  }
}
