/** The tag-length-value codec and the hexadecimal text that stores its blobs. */
module Tlv {
  import opened Bytes

  const HDR_LEN := 3

  datatype Item = Item(tag: byte, val: seq<byte>)

  // ---- items ---------------------------------------------------------------

  predicate ItemOk(it: Item) { |it.val| < 0x1_0000 }

  predicate ItemsOk(its: seq<Item>) {
    forall i :: 0 <= i < |its| ==> ItemOk(its[i])
  }

  function EncodeItem(it: Item): (r: seq<byte>)
    requires ItemOk(it)
    ensures |r| == HDR_LEN + |it.val|
  {
    [it.tag] + Put16(|it.val|) + it.val
  }

  function EncodeItems(its: seq<Item>): seq<byte>
    requires ItemsOk(its)
  {
    if its == [] then [] else EncodeItem(its[0]) + EncodeItems(its[1..])
  }

  datatype Next = End | Bad | Found(item: Item, pos: nat)

  function NextItem(f: seq<byte>, p: nat): (r: Next)
    ensures r.Found? ==> p < r.pos <= |f|
  {
    if p == |f| then End
    else if p + HDR_LEN > |f| then Bad
    else
      var n := f[p + 1] as int * 256 + f[p + 2] as int;
      if p + HDR_LEN + n > |f| then Bad else Found(Item(f[p], f[p + HDR_LEN..p + HDR_LEN + n]), p + HDR_LEN + n)
  }

  lemma ItemRead(f: seq<byte>, p: nat, it: Item)
    requires ItemOk(it) && At(f, p, EncodeItem(it))
    ensures NextItem(f, p) == Found(it, p + |EncodeItem(it)|)
  {
    var n := |it.val|;
    AtConcat(f, p, [it.tag] + Put16(n), it.val);
    AtConcat(f, p, [it.tag], Put16(n));
    assert f[p] == f[p..p + 1][0] == it.tag;
    assert f[p + 1] == f[p + 1..p + 3][0] == n / 256;
    assert f[p + 2] == f[p + 1..p + 3][1] == n % 256;
  }

  /** Every blob reads as its items, and no other framing is accepted. */
  function ReadItems(f: seq<byte>, p: nat): Option<seq<Item>>
    decreases if p <= |f| then |f| - p else 0
  {
    match NextItem(f, p)
    case End => Some([])
    case Bad => None
    case Found(it, q) =>
      var rest := ReadItems(f, q);
      if rest.None? then None else Some([it] + rest.value)
  }

  lemma {:induction false} ReadEncoded(f: seq<byte>, p: nat, its: seq<Item>)
    requires ItemsOk(its) && At(f, p, EncodeItems(its)) && p + |EncodeItems(its)| == |f|
    ensures ReadItems(f, p) == Some(its)
    decreases |its|
  {
    hide EncodeItem;
    if its != [] {
      AtConcat(f, p, EncodeItem(its[0]), EncodeItems(its[1..]));
      ItemRead(f, p, its[0]);
      hide NextItem;
      ReadEncoded(f, p + |EncodeItem(its[0])|, its[1..]);
      assert its == [its[0]] + its[1..];
    }
  }

  /** Conversely, whatever is accepted is the encoding of the items it yields. */
  lemma {:induction false} AcceptedIsEncoded(f: seq<byte>, p: nat)
    requires p <= |f| && ReadItems(f, p).Some?
    ensures ItemsOk(ReadItems(f, p).value) && f[p..] == EncodeItems(ReadItems(f, p).value)
    decreases |f| - p
  {
    match NextItem(f, p)
    case End => assert f[p..] == [];
    case Found(it, q) =>
      AcceptedIsEncoded(f, q);
      FoundIsEncoded(f, p);
      var rest := ReadItems(f, q).value;
      var all := ReadItems(f, p).value;
      assert all == [it] + rest && all[1..] == rest;
      assert f[p..] == f[p..q] + f[q..];
  }

  lemma FoundIsEncoded(f: seq<byte>, p: nat)
    requires NextItem(f, p).Found?
    ensures ItemOk(NextItem(f, p).item) && f[p..NextItem(f, p).pos] == EncodeItem(NextItem(f, p).item)
  {
    var it, q := NextItem(f, p).item, NextItem(f, p).pos;
    var n := |it.val|;
    assert Put16(n) == [f[p + 1], f[p + 2]];
    assert f[p..q] == [f[p]] + [f[p + 1], f[p + 2]] + f[p + HDR_LEN..q];
  }

  lemma {:induction false} EncodeSplit(a: seq<Item>, b: seq<Item>)
    requires ItemsOk(a) && ItemsOk(b)
    ensures ItemsOk(a + b) && EncodeItems(a + b) == EncodeItems(a) + EncodeItems(b)
    decreases |a|
  {
    hide EncodeItem, ItemOk;
    if a == [] {
      assert a + b == b;
    } else {
      assert (a + b)[0] == a[0] && (a + b)[1..] == a[1..] + b;
      EncodeSplit(a[1..], b);
      assert EncodeItem(a[0]) + (EncodeItems(a[1..]) + EncodeItems(b))
             == (EncodeItem(a[0]) + EncodeItems(a[1..])) + EncodeItems(b);
    }
  }

  /** Append one item to a blob in a buffer; -1 when it does not fit. */
  method PutItem(buf: array<byte>, off: nat, it: Item) returns (r: int)
    requires off <= buf.Length && ItemOk(it)
    modifies buf
    ensures r == if off + |EncodeItem(it)| <= buf.Length then off + |EncodeItem(it)| else -1
    ensures r >= 0 ==> buf[..r] == old(buf[..off]) + EncodeItem(it)
    ensures r < 0 ==> buf[..] == old(buf[..])
  {
    var n := |it.val|;
    if off + HDR_LEN + n > buf.Length { return -1; }
    buf[off] := it.tag;
    buf[off + 1] := n / 256;
    buf[off + 2] := n % 256;
    assert buf[..off + HDR_LEN] == old(buf[..off]) + ([it.tag] + Put16(n));
    ghost var head := buf[..off + HDR_LEN];
    for i := 0 to n
      invariant buf[..off + HDR_LEN + i] == head + it.val[..i]
    {
      buf[off + HDR_LEN + i] := it.val[i];
      assert buf[..off + HDR_LEN + i + 1] == head + it.val[..i] + [it.val[i]];
      assert it.val[..i + 1] == it.val[..i] + [it.val[i]];
    }
    assert it.val[..n] == it.val;
    return off + HDR_LEN + n;
  }

  // ---- hexadecimal ---------------------------------------------------------

  function HexChar(d: nat): byte
    requires d < 16
  {
    if d < 10 then 48 + d else 87 + d
  }

  function HexEnc(bs: seq<byte>): (r: seq<byte>)
    ensures |r| == 2 * |bs|
  {
    if bs == [] then [] else [HexChar(bs[0] / 16), HexChar(bs[0] % 16)] + HexEnc(bs[1..])
  }

  function HexVal(c: byte): int {
    if 48 <= c <= 57 then c - 48 else if 97 <= c <= 102 then c - 87 else if 65 <= c <= 70 then c - 55 else -1
  }

  predicate IsSpace(c: byte) { c == 32 || 9 <= c <= 13 }

  /** strtol of two characters in base 16, cut to a byte. */
  function PairVal(a: byte, b: byte): byte {
    if HexVal(a) >= 0 then if HexVal(b) >= 0 then HexVal(a) * 16 + HexVal(b) else HexVal(a)
    else if (IsSpace(a) || a == 43) && HexVal(b) >= 0 then HexVal(b)
    else if a == 45 && HexVal(b) > 0 then 256 - HexVal(b)
    else 0
  }

  /** The number at the front of a text in base 16, as strtol reads it: blanks, a sign,
      an optional prefix before a digit, then digits. */
  function Number(t: seq<byte>): int {
    if t != [] && IsSpace(t[0]) then Number(t[1..])
    else if t != [] && t[0] == 45 then 0 - Magnitude(t[1..]) as int
    else if t != [] && t[0] == 43 then Magnitude(t[1..])
    else Magnitude(t)
  }

  function Magnitude(t: seq<byte>): nat {
    if |t| > 2 && t[0] == 48 && (t[1] == 88 || t[1] == 120) && HexVal(t[2]) >= 0 then Digits(t[2..], 0) else Digits(t, 0)
  }

  function Digits(t: seq<byte>, v: nat): nat
    decreases |t|
  {
    if t == [] || HexVal(t[0]) < 0 then v else Digits(t[1..], 16 * v + HexVal(t[0]))
  }

  /** Two characters give what strtol reads in them, cut to a byte. */
  lemma PairIsNumber(a: byte, b: byte)
    ensures PairVal(a, b) == Number([a, b]) % 256
  {
    hide HexVal, Digits, Magnitude;
    assert [a, b][1..] == [b];
    HexRange(a);
    HexRange(b);
    NumberOne(b);
    MagnitudeTwo(a, b);
    if a == 45 && HexVal(b) > 0 { assert -HexVal(b) % 256 == 256 - HexVal(b); }
  }

  lemma NumberOne(b: byte)
    ensures Magnitude([b]) == (if HexVal(b) < 0 then 0 else HexVal(b)) && Number([b]) == Magnitude([b])
  {
    hide HexVal;
    assert [b][1..] == [];
    HexRange(b);
    DigitsOne(b, 0);
  }

  lemma MagnitudeTwo(a: byte, b: byte)
    ensures Magnitude([a, b]) ==
            if HexVal(a) < 0 then 0 else if HexVal(b) < 0 then HexVal(a) else 16 * HexVal(a) + HexVal(b)
  {
    hide HexVal;
    assert [a, b][1..] == [b];
    if HexVal(a) >= 0 { DigitsOne(b, HexVal(a)); }
  }

  lemma HexRange(c: byte)
    ensures -1 <= HexVal(c) < 16 && (HexVal(c) >= 0 ==> !IsSpace(c) && c != 43 && c != 45)
  {
  }

  lemma DigitsOne(b: byte, v: nat)
    ensures Digits([b], v) == if HexVal(b) < 0 then v else 16 * v + HexVal(b)
  {
    assert [b][1..] == [];
  }

  /** Pairs up to the terminator, an odd last character or the room there is. */
  function HexDec(t: seq<byte>, room: nat): seq<byte> {
    if room == 0 || |t| < 2 || t[0] == 0 || t[1] == 0 then [] else [PairVal(t[0], t[1])] + HexDec(t[2..], room - 1)
  }

  lemma CharVal(d: nat)
    requires d < 16
    ensures HexVal(HexChar(d)) == d && HexChar(d) != 0
  {
  }

  /** Decoding the text of a blob gives the blob, as far as there is room. */
  lemma {:induction false} HexRoundTrip(bs: seq<byte>, room: nat)
    ensures HexDec(HexEnc(bs), room) == if |bs| <= room then bs else bs[..room]
    decreases |bs|
  {
    if bs != [] && room > 0 {
      CharVal(bs[0] / 16);
      CharVal(bs[0] % 16);
      hide HexChar, HexVal;
      var t := HexEnc(bs);
      assert t[0] == HexChar(bs[0] / 16) && t[1] == HexChar(bs[0] % 16) && t[2..] == HexEnc(bs[1..]);
      HexRoundTrip(bs[1..], room - 1);
      assert bs == [bs[0]] + bs[1..];
      if |bs| > room { assert bs[..room] == [bs[0]] + bs[1..][..room - 1]; }
    }
  }

  method EncodeHex(bs: seq<byte>) returns (t: seq<byte>)
    ensures t == HexEnc(bs)
  {
    hide HexChar;
    t := [];
    for i := 0 to |bs|
      invariant t + HexEnc(bs[i..]) == HexEnc(bs)
    {
      assert bs[i..][1..] == bs[i + 1..];
      t := t + [HexChar(bs[i] / 16), HexChar(bs[i] % 16)];
    }
    assert bs[|bs|..] == [] && t + [] == t;
  }

  method DecodeHex(t: seq<byte>, room: nat) returns (bs: seq<byte>)
    ensures bs == HexDec(t, room)
  {
    hide PairVal;
    bs := [];
    var i := 0;
    assert t[0..] == t;
    while i + 1 < |t| && t[i] != 0 && t[i + 1] != 0 && |bs| < room
      invariant 0 <= i <= |t| && |bs| <= room && bs + HexDec(t[i..], room - |bs|) == HexDec(t, room)
      decreases |t| - i
    {
      assert t[i..][2..] == t[i + 2..];
      bs := bs + [PairVal(t[i], t[i + 1])];
      i := i + 2;
    }
    assert bs + [] == bs;
  }
}
