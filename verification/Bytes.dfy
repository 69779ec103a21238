/** Bytes, fixed-width integers and the cursor readers shared by the log and
    snapshot formats of the object store (little-endian, as written by fwrite). */
module Bytes {

  type byte = x: int | 0 <= x < 256
  type u16 = x: int | 0 <= x < 0x1_0000
  type u32 = x: int | 0 <= x < 0x1_0000_0000
  type i64 = x: int | -0x8000_0000_0000_0000 <= x < 0x8000_0000_0000_0000

  /** Longest string or blob that the readers accept. */
  const MAX_LEN := 0x100_0000

  datatype Option<+T> = None | Some(value: T)

  /** Outcome of reading at a cursor: a value and the offset just past it. */
  datatype Read<+T> = Fail | Got(value: T, pos: nat) {
    predicate IsFailure() { Fail? }
    function PropagateFailure<U>(): Read<U>
      requires Fail?
    { Fail }
    function Extract(): (T, nat)
      requires Got?
    { (value, pos) }
  }

  /** `bs` occurs in `f` at offset `p`. */
  predicate At(f: seq<byte>, p: nat, bs: seq<byte>) {
    p + |bs| <= |f| && f[p..p + |bs|] == bs
  }

  lemma AtConcat(f: seq<byte>, p: nat, a: seq<byte>, b: seq<byte>)
    requires At(f, p, a + b)
    ensures At(f, p, a) && At(f, p + |a|, b)
  {
    var s := f[p..p + |a + b|];
    assert s[..|a|] == a && s[|a|..] == b;
    assert f[p..p + |a|] == s[..|a|];
    assert f[p + |a|..p + |a| + |b|] == s[|a|..];
  }

  // ---- writers -------------------------------------------------------------

  /** The `n` low bytes of a number, lowest first. */
  function Low(v: nat, n: nat): (r: seq<byte>)
    ensures |r| == n
  {
    if n == 0 then [] else [v % 256] + Low(v / 256, n - 1)
  }

  function U32(v: u32): (r: seq<byte>)
    ensures |r| == 4
  {
    Low(v, 4)
  }

  /** Two's complement, low word first. */
  function I64(v: i64): (r: seq<byte>)
    ensures |r| == 8
  {
    var w := if v < 0 then v + 0x1_0000_0000_0000_0000 else v;
    U32(w % 0x1_0000_0000) + U32(w / 0x1_0000_0000)
  }

  /** Length-prefixed bytes: the format of both strings and blobs. */
  function Str(s: seq<byte>): (r: seq<byte>)
    requires |s| < 0x1_0000_0000
    ensures |r| == 4 + |s|
  {
    U32(|s|) + s
  }

  /** Big-endian forms, used on the wire. */
  function Put16(v: u16): (r: seq<byte>)
    ensures |r| == 2
  {
    [v / 256, v % 256]
  }

  function Put32(v: u32): (r: seq<byte>)
    ensures |r| == 4
  {
    Put16(v / 0x1_0000) + Put16(v % 0x1_0000)
  }

  // ---- readers -------------------------------------------------------------

  function RU8(f: seq<byte>, p: nat): (r: Read<byte>)
    ensures r.Got? ==> p < r.pos <= |f|
  {
    if p < |f| then Got(f[p], p + 1) else Fail
  }

  function Word(b0: int, b1: int, b2: int, b3: int): int {
    b0 + 0x100 * b1 + 0x1_0000 * b2 + 0x100_0000 * b3
  }

  function Pow256(n: nat): nat { if n == 0 then 1 else 256 * Pow256(n - 1) }

  /** The number whose `n` low bytes stand at `p`, lowest first. */
  function Number(f: seq<byte>, p: nat, n: nat): (v: nat)
    requires p + n <= |f|
    ensures v < Pow256(n)
    decreases n
  {
    if n == 0 then 0 else f[p] + 256 * Number(f, p + 1, n - 1)
  }

  lemma Pow4()
    ensures Pow256(4) == 0x1_0000_0000
  {
    assert Pow256(2) == 0x1_0000;
  }

  function RU32(f: seq<byte>, p: nat): (r: Read<u32>)
    ensures r.Got? ==> p < r.pos <= |f|
  {
    Pow4();
    if p + 4 <= |f| then Got(Number(f, p, 4), p + 4) else Fail
  }

  function Signed(lo: u32, hi: u32): i64 {
    var w := lo + 0x1_0000_0000 * hi as int;
    if w >= 0x8000_0000_0000_0000 then w - 0x1_0000_0000_0000_0000 else w
  }

  function RI64(f: seq<byte>, p: nat): (r: Read<i64>)
    ensures r.Got? ==> p < r.pos <= |f|
  {
    var (lo, q) :- RU32(f, p);
    var (hi, q2) :- RU32(f, q);
    Got(Signed(lo, hi), q2)
  }

  function RStr(f: seq<byte>, p: nat): (r: Read<seq<byte>>)
    ensures r.Got? ==> p < r.pos <= |f|
  {
    var (n, q) :- RU32(f, p);
    if n > MAX_LEN || q + n > |f| then Fail else Got(f[q..q + n], q + n)
  }

  // ---- writers and readers agree ------------------------------------------

  lemma {:induction false} LowRead(f: seq<byte>, p: nat, v: nat, n: nat)
    requires At(f, p, Low(v, n)) && v < Pow256(n)
    ensures Number(f, p, n) == v
    decreases n
  {
    if n > 0 {
      AtConcat(f, p, [v % 256], Low(v / 256, n - 1));
      assert f[p] == f[p..p + 1][0] == v % 256;
      LowRead(f, p + 1, v / 256, n - 1);
    }
  }

  lemma U32Read(f: seq<byte>, p: nat, v: u32)
    requires At(f, p, U32(v))
    ensures RU32(f, p) == Got(v, p + 4)
  {
    Pow4();
    LowRead(f, p, v, 4);
  }

  lemma I64Read(f: seq<byte>, p: nat, v: i64)
    requires At(f, p, I64(v))
    ensures RI64(f, p) == Got(v, p + 8)
  {
    hide U32, RU32;
    var w := if v < 0 then v + 0x1_0000_0000_0000_0000 else v;
    var lo, hi := w % 0x1_0000_0000, w / 0x1_0000_0000;
    AtConcat(f, p, U32(lo), U32(hi));
    U32Read(f, p, lo);
    U32Read(f, p + 4, hi);
    assert w == lo + 0x1_0000_0000 * hi;
  }

  /** A string is read back exactly when it is not longer than the cap. */
  lemma StrRead(f: seq<byte>, p: nat, s: seq<byte>)
    requires |s| < 0x1_0000_0000 && At(f, p, Str(s))
    ensures RStr(f, p) == if |s| <= MAX_LEN then Got(s, p + 4 + |s|) else Fail
  {
    AtConcat(f, p, U32(|s|), s);
    U32Read(f, p, |s|);
  }

  lemma {:induction false} NumberStable(f: seq<byte>, g: seq<byte>, p: nat, n: nat)
    requires f <= g && p + n <= |f|
    ensures Number(g, p, n) == Number(f, p, n)
    decreases n
  {
    if n > 0 {
      NumberStable(f, g, p + 1, n - 1);
    }
  }

  /** Whatever a reader accepts it accepts identically in any longer file. */
  lemma ReadersStable(f: seq<byte>, g: seq<byte>)
    requires f <= g
    ensures forall p: nat :: RU8(f, p).Got? ==> RU8(g, p) == RU8(f, p)
    ensures forall p: nat :: RU32(f, p).Got? ==> RU32(g, p) == RU32(f, p)
    ensures forall p: nat :: RI64(f, p).Got? ==> RI64(g, p) == RI64(f, p)
    ensures forall p: nat :: RStr(f, p).Got? ==> RStr(g, p) == RStr(f, p)
  {
    forall p: nat | RU32(f, p).Got?
      ensures RU32(g, p) == RU32(f, p)
    {
      NumberStable(f, g, p, 4);
    }
    forall p: nat | RStr(f, p).Got?
      ensures RStr(g, p) == RStr(f, p)
    {
      var n, q := RU32(f, p).value, RU32(f, p).pos;
      assert g[q..q + n] == f[q..q + n];
    }
  }
}
