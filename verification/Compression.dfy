/** Name compression in DNS messages (section 4.1.4 of RFC 1035): the encoder
    with its table of suffixes, the decoder that gives it meaning, and the proof
    that every owner name of a message decodes to what was asked for. */
module Compression {
  import opened Bytes
  import opened Dns = DnsOrder
  import opened DnsNames

  const MAX_SOURCES := 128
  const MAX_OFFSET := 0x4000
  const MAX_EMIT := 64
  const MAX_STEPS := 128

  /** A suffix already in the message, and where. */
  datatype Source = Source(name: Text, off: nat)

  /** Outcome of emitting: on failure the bytes and sources so far remain. */
  datatype Emitted = Emitted(ok: bool, sources: seq<Source>, bytes: seq<byte>)

  // ---- encoder -------------------------------------------------------------

  /** The labels that the encoder takes from a name. */
  function NameLabels(name: Text): seq<Text> { Take(Tokens(Cut(name)), MAX_EMIT) }

  /** The suffix text, composed label by label into a 256-byte buffer. */
  function Compose(ls: seq<Text>, acc: Text, first: bool): Text {
    if ls == [] || |acc| + |ls[0]| + 1 >= 256 then acc
    else Compose(ls[1..], if first then acc + ls[0] else acc + [DOT] + ls[0], false)
  }

  function Suffix(ls: seq<Text>): Text { Compose(ls, [], true) }

  function FindSource(sources: seq<Source>, name: Text): (k: nat)
    ensures k <= |sources|
    ensures k < |sources| ==> Lower(sources[k].name) == Lower(name)
    ensures forall j :: 0 <= j < k ==> Lower(sources[j].name) != Lower(name)
  {
    if sources == [] || Lower(sources[0].name) == Lower(name) then 0 else 1 + FindSource(sources[1..], name)
  }

  function Pointer(off: nat): (r: seq<byte>)
    requires off < MAX_OFFSET
    ensures |r| == 2
  {
    [192 + off / 256, off % 256]
  }

  predicate OffsetsOk(sources: seq<Source>) {
    forall k :: 0 <= k < |sources| ==> sources[k].off < MAX_OFFSET
  }

  function Registered(sources: seq<Source>, name: Text, pos: nat): seq<Source> {
    if |sources| < MAX_SOURCES && pos < MAX_OFFSET then sources + [Source(name, pos)] else sources
  }

  function Emit(sources: seq<Source>, ls: seq<Text>, pos: nat, blen: nat): (r: Emitted)
    requires OffsetsOk(sources)
    ensures OffsetsOk(r.sources)
    decreases |ls|
  {
    if ls == [] then
      if pos >= blen then Emitted(false, sources, []) else Emitted(true, sources, [0])
    else
      var k := FindSource(sources, Suffix(ls));
      if k < |sources| then
        if pos + 2 > blen then Emitted(false, sources, []) else Emitted(true, sources, Pointer(sources[k].off))
      else
        var more := Registered(sources, Suffix(ls), pos);
        if |ls[0]| > 63 || pos + |ls[0]| + 1 >= blen then Emitted(false, more, [])
        else
          var r := Emit(more, ls[1..], pos + 1 + |ls[0]|, blen);
          Emitted(r.ok, r.sources, [|ls[0]|] + ls[0] + r.bytes)
  }

  /** The uncompressed form. */
  function Plain(ls: seq<Text>): seq<byte>
    requires forall i :: 0 <= i < |ls| ==> |ls[i]| <= 63
  {
    if ls == [] then [0] else [|ls[0]|] + ls[0] + Plain(ls[1..])
  }

  // ---- decoder -------------------------------------------------------------

  function Append(out: Text, l: Text): Text { if out == [] then l else out + [DOT] + l }

  /** Text so far and where to resume after the first jump; a name that needs
      more steps than allowed is silently cut. */
  function Decode(m: seq<byte>, p: nat, steps: nat, out: Text, ret: Option<nat>, olen: nat): Option<(Text, nat)>
    decreases steps
  {
    if steps == 0 then Some((out, if ret.Some? then ret.value else p))
    else if p >= |m| then None
    else if m[p] >= 192 then
      if p + 1 >= |m| then None
      else
        var ptr := (m[p] - 192) * 256 + m[p + 1] as int;
        if ptr >= p then None
        else Decode(m, ptr, steps - 1, out, if ret.None? then Some(p + 2) else ret, olen)
    else if m[p] == 0 then Some((out, if ret.Some? then ret.value else p + 1))
    else if p + 1 + m[p] > |m| || |out| + m[p] + 1 >= olen then None
    else Decode(m, p + 1 + m[p], steps - 1, Append(out, m[p + 1..p + 1 + m[p]]), ret, olen)
  }

  /** The decoded name in lower case, and the offset just past it. */
  function NameFromWire(m: seq<byte>, off: nat, olen: nat): Option<(Text, nat)> {
    match Decode(m, off, MAX_STEPS, [], None, olen)
    case None => None
    case Some((t, e)) => Some((Lower(t), e))
  }

  // ---- what the bytes of a message spell -----------------------------------

  /** At `p` a label starts, and from there the lower-cased labels are `ls`. */
  predicate Here(m: seq<byte>, p: nat, ls: seq<Text>)
    decreases |ls|, 0
  {
    && ls != [] && 1 <= |ls[0]| <= 63 && p + 1 + |ls[0]| <= |m|
    && m[p] == |ls[0]| && Lower(m[p + 1..p + 1 + |ls[0]|]) == ls[0]
    && Tail(m, p + 1 + |ls[0]|, ls[1..])
  }

  /** At `p` the labels `ls` follow: the root, a label, or a pointer to an
      earlier label start. */
  predicate Tail(m: seq<byte>, p: nat, ls: seq<Text>)
    decreases |ls|, 1
  {
    if ls == [] then p < |m| && m[p] == 0
    else
      || Here(m, p, ls)
      || (p + 1 < |m| && m[p] >= 192 && (m[p] - 192) * 256 + m[p + 1] as int < p
          && Here(m, (m[p] - 192) * 256 + m[p + 1] as int, ls))
  }

  /** Just past the name at `p`: its root or its first pointer. */
  function TailEnd(m: seq<byte>, p: nat, ls: seq<Text>): nat
    requires Tail(m, p, ls)
    decreases |ls|
  {
    if ls == [] then p + 1 else if Here(m, p, ls) then TailEnd(m, p + 1 + |ls[0]|, ls[1..]) else p + 2
  }

  /** Longer messages spell the same. */
  lemma {:induction false} HereStable(m: seq<byte>, n: seq<byte>, p: nat, ls: seq<Text>)
    requires m <= n && Here(m, p, ls)
    ensures Here(n, p, ls)
    decreases |ls|, 0
  {
    assert n[..|m|] == m;
    assert n[p + 1..p + 1 + |ls[0]|] == m[p + 1..p + 1 + |ls[0]|];
    TailStable(m, n, p + 1 + |ls[0]|, ls[1..]);
  }

  lemma {:induction false} TailStable(m: seq<byte>, n: seq<byte>, p: nat, ls: seq<Text>)
    requires m <= n && Tail(m, p, ls)
    ensures Tail(n, p, ls) && TailEnd(n, p, ls) == TailEnd(m, p, ls)
    decreases |ls|, 1
  {
    assert n[..|m|] == m;
    if ls != [] {
      if Here(m, p, ls) {
        HereStable(m, n, p, ls);
        TailStable(m, n, p + 1 + |ls[0]|, ls[1..]);
      } else {
        HereStable(m, n, (m[p] - 192) * 256 + m[p + 1] as int, ls);
      }
    }
  }

  // ---- decoding what is spelled --------------------------------------------

  function Out(out: Text, ls: seq<Text>): Text
    decreases |ls|
  {
    if ls == [] then out else Out(Append(out, ls[0]), ls[1..])
  }

  lemma {:induction false} OutLonger(out: Text, ls: seq<Text>)
    ensures |out| <= |Out(out, ls)|
    decreases |ls|
  {
    if ls != [] { OutLonger(Append(out, ls[0]), ls[1..]); }
  }

  /** Steps that suffice: a pointer can precede each label, and the last read of
      a root may be saved when the return offset is already known. */
  function Need(ls: seq<Text>, ret: Option<nat>): nat {
    if ls == [] && ret.None? then 1 else 2 * |ls|
  }

  lemma LowerAppend(a: Text, b: Text, l: Text, k: Text)
    requires Lower(a) == Lower(b) && Lower(l) == Lower(k)
    ensures Lower(Append(a, l)) == Lower(Append(b, k))
  {
    LowerConcat(a, [DOT]); LowerConcat(b, [DOT]);
    LowerConcat(a + [DOT], l); LowerConcat(b + [DOT], k);
  }

  ghost predicate Decoded(r: Option<(Text, nat)>, out: Text, end: nat) {
    r.Some? && Lower(r.value.0) == Lower(out) && r.value.1 == end
  }

  lemma LabelStep(m: seq<byte>, p: nat, n: nat, steps: nat, out: Text, ret: Option<nat>, olen: nat)
    requires 1 <= n < 192 && p + 1 + n <= |m| && m[p] == n && steps > 0 && |out| + n + 1 < olen
    ensures Decode(m, p, steps, out, ret, olen) ==
            Decode(m, p + 1 + n, steps - 1, Append(out, m[p + 1..p + 1 + n]), ret, olen)
  {
    hide Append;
  }

  lemma StepBound(out: Text, want: Text, ls: seq<Text>, olen: nat)
    requires ls != [] && |ls[0]| <= 63 && |out| == |want| && |Out(want, ls)| < olen && olen >= 256
    ensures |out| + |ls[0]| + 1 < olen && |Out(Append(want, ls[0]), ls[1..])| < olen
  {
    OutStep(want, ls);
    OutLonger(Append(want, ls[0]), ls[1..]);
    hide Out;
  }

  lemma HereLabel(m: seq<byte>, p: nat, ls: seq<Text>)
    requires Here(m, p, ls)
    ensures ls != [] && 1 <= |ls[0]| <= 63 && p + 1 + |ls[0]| <= |m| && m[p] == |ls[0]|
    ensures Lower(m[p + 1..p + 1 + |ls[0]|]) == ls[0] == Lower(ls[0])
  {
    hide Tail;
    LowerTwice(m[p + 1..p + 1 + |ls[0]|]);
  }

  /** One label step of the decoder. */
  lemma HereStep(m: seq<byte>, p: nat, ls: seq<Text>, steps: nat, out: Text, ret: Option<nat>, olen: nat, want: Text)
    requires Here(m, p, ls) && steps > 0 && Lower(out) == Lower(want) && |Out(want, ls)| < olen && olen >= 256
    ensures ls != [] && 1 <= |ls[0]| <= 63 && p + 1 + |ls[0]| <= |m|
    ensures var l := m[p + 1..p + 1 + |ls[0]|];
            && Decode(m, p, steps, out, ret, olen) == Decode(m, p + 1 + |ls[0]|, steps - 1, Append(out, l), ret, olen)
            && Lower(Append(out, l)) == Lower(Append(want, ls[0])) && |Out(Append(want, ls[0]), ls[1..])| < olen
  {
    hide Decode, Tail, Here, Out, Append, Lower;
    HereLabel(m, p, ls);
    assert |out| == |Lower(out)| == |want|;
    StepBound(out, want, ls, olen);
    LowerAppend(out, want, m[p + 1..p + 1 + |ls[0]|], ls[0]);
    LabelStep(m, p, |ls[0]|, steps, out, ret, olen);
  }

  lemma LowerTwice(l: Text)
    ensures Lower(Lower(l)) == Lower(l)
  {
  }

  lemma RootStep(m: seq<byte>, p: nat, steps: nat, out: Text, ret: Option<nat>, olen: nat)
    requires p < |m| && m[p] == 0 && (steps > 0 || ret.Some?)
    ensures Decode(m, p, steps, out, ret, olen) == Some((out, if ret.Some? then ret.value else p + 1))
  {
  }

  /** Where a spelled name continues: at its label, or where its pointer leads. */
  function Start(m: seq<byte>, p: nat, ls: seq<Text>): (q: nat)
    requires Tail(m, p, ls) && ls != []
    ensures Here(m, q, ls) && (q == p || (q < p && p + 1 < |m| && m[p] >= 192 && q == (m[p] - 192) * 256 + m[p + 1] as int))
    ensures TailEnd(m, p, ls) == if q == p then TailEnd(m, p + 1 + |ls[0]|, ls[1..]) else p + 2
  {
    if Here(m, p, ls) then p else (m[p] - 192) * 256 + m[p + 1] as int
  }

  /** The decoder reads exactly what is spelled, within its step limit. */
  lemma {:induction false} DecodeTail(m: seq<byte>, p: nat, ls: seq<Text>, steps: nat, out: Text, ret: Option<nat>,
                                      olen: nat, want: Text)
    requires Tail(m, p, ls) && steps >= Need(ls, ret) && Lower(out) == Lower(want)
    requires |Out(want, ls)| < olen && olen >= 256
    ensures Decoded(Decode(m, p, steps, out, ret, olen), Out(want, ls),
                    if ret.Some? then ret.value else TailEnd(m, p, ls))
    decreases |ls|
  {
    hide Append, Here, Decode, Tail, TailEnd, Start, Out, Lower;
    OutStep(want, ls);
    if ls == [] {
      TailRoot(m, p);
      RootStep(m, p, steps, out, ret, olen);
    } else {
      var q := Start(m, p, ls);
      var jump := q != p;
      var ret' := if jump && ret.None? then Some(p + 2) else ret;
      var left := if jump then steps - 1 else steps;
      HereParts(m, q, ls);
      if jump { JumpStep(m, p, steps, out, ret, olen); }
      HereStep(m, q, ls, left, out, ret', olen, want);
      DecodeTail(m, q + 1 + |ls[0]|, ls[1..], left - 1, Append(out, m[q + 1..q + 1 + |ls[0]|]), ret', olen,
                 Append(want, ls[0]));
    }
  }

  lemma OutStep(want: Text, ls: seq<Text>)
    ensures Out(want, ls) == if ls == [] then want else Out(Append(want, ls[0]), ls[1..])
  {
  }

  lemma TailRoot(m: seq<byte>, p: nat)
    requires Tail(m, p, [])
    ensures p < |m| && m[p] == 0 && TailEnd(m, p, []) == p + 1
  {
  }

  lemma JumpStep(m: seq<byte>, p: nat, steps: nat, out: Text, ret: Option<nat>, olen: nat)
    requires p + 1 < |m| && m[p] >= 192 && (m[p] - 192) * 256 + m[p + 1] as int < p && steps > 0
    ensures Decode(m, p, steps, out, ret, olen) ==
            Decode(m, (m[p] - 192) * 256 + m[p + 1] as int, steps - 1, out, if ret.None? then Some(p + 2) else ret, olen)
  {
  }

  lemma HereParts(m: seq<byte>, p: nat, ls: seq<Text>)
    requires Here(m, p, ls)
    ensures ls != [] && 1 <= |ls[0]| <= 63 && p + 1 + |ls[0]| <= |m| && m[p] == |ls[0]|
    ensures Tail(m, p + 1 + |ls[0]|, ls[1..])
  {
  }

  /** Joining label by label or from the right is the same text. */
  lemma {:induction false} OutJoin(out: Text, ls: seq<Text>)
    requires AreLabels(ls)
    ensures Out(out, ls) == if out == [] then Join(ls) else if ls == [] then out else out + ([DOT] + Join(ls))
    decreases |ls|
  {
    if ls != [] {
      assert IsLabel(ls[0]);
      OutJoin(Append(out, ls[0]), ls[1..]);
      if |ls| > 1 && out != [] {
        assert (out + [DOT] + ls[0]) + ([DOT] + Join(ls[1..])) == out + ([DOT] + (ls[0] + ([DOT] + Join(ls[1..]))));
      }
    }
  }

  // ---- the encoder spells its name -----------------------------------------

  /** Each source is the joined text of labels that the message spells there. */
  ghost predicate SourceOk(m: seq<byte>, s: Source) {
    var ls := Tokens(s.name);
    s.off < MAX_OFFSET && ls != [] && Join(ls) == s.name && Here(m, s.off, LowerAll(ls))
  }

  /** A source for a longer suffix of the name being written. */
  predicate Pending(s: Source, n: nat) {
    |Tokens(s.name)| > n && Join(Tokens(s.name)) == s.name
  }

  ghost predicate SourcesOk(m: seq<byte>, sources: seq<Source>, n: nat) {
    forall k :: 0 <= k < |sources| ==> SourceOk(m, sources[k]) || Pending(sources[k], n)
  }

  lemma {:induction false} ComposeJoin(ls: seq<Text>, acc: Text, first: bool)
    requires first ==> acc == [] && ls != [] && |ls[0]| <= 254
    requires !first ==> acc != []
    requires AreLabels(ls) && |Out(acc, ls)| <= 255
    ensures Compose(ls, acc, first) == Out(acc, ls)
    decreases |ls|
  {
    if ls != [] {
      assert IsLabel(ls[0]);
      OutLonger(Append(acc, ls[0]), ls[1..]);
      if first { assert acc + ls[0] == ls[0]; }
      ComposeJoin(ls[1..], Append(acc, ls[0]), false);
    }
  }

  lemma SuffixJoin(ls: seq<Text>)
    requires ls != [] && AreLabels(ls) && |Join(ls)| <= 255
    ensures |ls[0]| <= 254 ==> Suffix(ls) == Join(ls)
    ensures |ls[0]| > 254 ==> Suffix(ls) == []
  {
    OutJoin([], ls);
    if |ls[0]| <= 254 { ComposeJoin(ls, [], true); }
  }

  lemma TailJoin(ls: seq<Text>)
    requires ls != [] && AreLabels(ls)
    ensures |Join(ls[1..])| <= |Join(ls)| && |ls[0]| <= |Join(ls)| && AreLabels(ls[1..])
  {
  }

  lemma TokensNone()
    ensures Tokens([]) == []
  {
  }

  /** A match in the table names the same labels, already in the message. */
  lemma MatchSpells(m: seq<byte>, sources: seq<Source>, ls: seq<Text>)
    requires SourcesOk(m, sources, |ls|) && ls != [] && AreLabels(ls) && |Join(ls)| <= 255
    requires FindSource(sources, Suffix(ls)) < |sources|
    ensures var off := sources[FindSource(sources, Suffix(ls))].off;
            off < MAX_OFFSET && Here(m, off, LowerAll(ls))
  {
    hide Here, Tokens, Join, Suffix, FindSource;
    var s := sources[FindSource(sources, Suffix(ls))];
    TokensNone();
    SuffixJoin(ls);
    TokensLabels(s.name);
    assert s.name != [];
    assert |s.name| == |Lower(s.name)| == |Suffix(ls)|;
    SameName(Tokens(s.name), ls);
  }

  lemma TokensLabels(t: Text)
    ensures AreLabels(Tokens(t)) && |Join(Tokens(t))| <= |t|
  {
    TokensAreLabels(t, 0);
  }

  /** Emitting the pointer. */
  lemma PointerTail(m: seq<byte>, off: nat, ls: seq<Text>)
    requires off < MAX_OFFSET && ls != [] && Here(m, off, ls)
    ensures var n := m + Pointer(off);
            Tail(n, |m|, ls) && TailEnd(n, |m|, ls) == |n|
  {
    var n := m + Pointer(off);
    HereStable(m, n, off, ls);
    hide Here;
    HereParts(m, off, ls);
    assert n[|m|] == 192 + off / 256 && n[|m| + 1] == off % 256;
    assert (n[|m|] - 192) * 256 + n[|m| + 1] as int == off;
  }

  /** Emitting one label before the rest. */
  lemma LabelHere(m: seq<byte>, l: Text, rest: seq<byte>, ls: seq<Text>)
    requires 1 <= |l| <= 63
    requires var n := m + ([|l|] + l + rest); Tail(n, |m| + 1 + |l|, ls)
    ensures var n := m + ([|l|] + l + rest);
            && Here(n, |m|, [Lower(l)] + ls) && Tail(n, |m|, [Lower(l)] + ls)
            && TailEnd(n, |m|, [Lower(l)] + ls) == TailEnd(n, |m| + 1 + |l|, ls)
  {
    hide Tail, TailEnd, Here, Lower;
    var n, low := m + ([|l|] + l + rest), [Lower(l)] + ls;
    AfterPrefix(m, l, rest);
    HereIntro(n, |m|, l, ls);
    assert low[0] == Lower(l) && low[1..] == ls;
    HereIsTail(n, |m|, low);
  }

  lemma HereIntro(m: seq<byte>, p: nat, l: Text, ls: seq<Text>)
    requires 1 <= |l| <= 63 && p + 1 + |l| <= |m| && m[p] == |l| && m[p + 1..p + 1 + |l|] == l
    requires Tail(m, p + 1 + |l|, ls)
    ensures Here(m, p, [Lower(l)] + ls)
  {
    hide Tail;
    var low := [Lower(l)] + ls;
    assert low[0] == Lower(l) && low[1..] == ls;
  }

  lemma AfterPrefix(m: seq<byte>, l: Text, rest: seq<byte>)
    requires |l| <= 63
    ensures var n := m + ([|l|] + l + rest);
            n[|m|] == |l| && n[|m| + 1..|m| + 1 + |l|] == l
  {
    var n := m + ([|l|] + l + rest);
    assert n == (m + [|l|]) + (l + rest);
  }

  lemma HereIsTail(m: seq<byte>, p: nat, ls: seq<Text>)
    requires Here(m, p, ls)
    ensures Tail(m, p, ls) && TailEnd(m, p, ls) == TailEnd(m, p + 1 + |ls[0]|, ls[1..])
  {
  }

  lemma LowerAllFirst(ls: seq<Text>)
    requires ls != []
    ensures LowerAll(ls) == [Lower(ls[0])] + LowerAll(ls[1..])
  {
  }

  /** What emitting `ls` at the end of `m` guarantees. */
  ghost predicate Spelled(m: seq<byte>, sources: seq<Source>, ls: seq<Text>, r: Emitted) {
    var n := m + r.bytes;
    && Tail(n, |m|, LowerAll(ls)) && TailEnd(n, |m|, LowerAll(ls)) == |n|
    && forall k :: 0 <= k < |r.sources| ==> r.sources[k] in sources || SourceOk(n, r.sources[k])
  }

  lemma SourcesShrink(m: seq<byte>, n: seq<byte>, sources: seq<Source>, ls: seq<Text>, pos: nat)
    requires SourcesOk(m, sources, |ls|) && m <= n && ls != [] && AreLabels(ls) && |Join(ls)| <= 255 && |ls[0]| <= 254
    ensures SourcesOk(n, Registered(sources, Suffix(ls), pos), |ls| - 1)
  {
    hide Here, Tokens, Join, Suffix;
    SuffixJoin(ls);
    TokensOfJoin(ls);
    var more := Registered(sources, Suffix(ls), pos);
    forall k | 0 <= k < |more| ensures SourceOk(n, more[k]) || Pending(more[k], |ls| - 1) {
      if k < |sources| {
        assert more[k] == sources[k];
        if SourceOk(m, sources[k]) { HereStable(m, n, sources[k].off, LowerAll(Tokens(sources[k].name))); }
      }
    }
  }

  lemma EmptySpelled(m: seq<byte>, sources: seq<Source>)
    ensures Spelled(m, sources, [], Emitted(true, sources, [0]))
  {
  }

  /** The inductive step: one label, then the rest. */
  lemma LabelSpelled(m: seq<byte>, sources: seq<Source>, ls: seq<Text>, rest: Emitted)
    requires ls != [] && AreLabels(ls) && |ls[0]| <= 63 && |Join(ls)| <= 255
    requires Spelled(m + ([|ls[0]|] + ls[0]), Registered(sources, Suffix(ls), |m|), ls[1..], rest)
    ensures Spelled(m, sources, ls, Emitted(rest.ok, rest.sources, [|ls[0]|] + ls[0] + rest.bytes))
  {
    hide Here, Tail, Tokens, Join, Suffix;
    var l, bytes := ls[0], [|ls[0]|] + ls[0] + rest.bytes;
    var n := m + bytes;
    assert n == m + ([|l|] + l) + rest.bytes;
    assert |m + ([|l|] + l)| == |m| + 1 + |l|;
    assert IsLabel(l);
    LabelHere(m, l, rest.bytes, LowerAll(ls[1..]));
    LowerAllFirst(ls);
    SuffixJoin(ls);
    TokensOfJoin(ls);
    var more := Registered(sources, Suffix(ls), |m|);
    forall k | 0 <= k < |rest.sources| && rest.sources[k] !in sources ensures SourceOk(n, rest.sources[k]) {
      if rest.sources[k] in more {
        assert rest.sources[k] == Source(Suffix(ls), |m|);
      }
    }
  }

  lemma PointerSpelled(m: seq<byte>, sources: seq<Source>, ls: seq<Text>, off: nat)
    requires off < MAX_OFFSET && ls != [] && Here(m, off, LowerAll(ls))
    ensures Spelled(m, sources, ls, Emitted(true, sources, Pointer(off)))
  {
    hide Here, Tail;
    PointerTail(m, off, LowerAll(ls));
  }

  /** A successful emission spells the name, and every source it leaves behind is
      spelled where it points. */
  lemma {:induction false} EmitSpells(m: seq<byte>, sources: seq<Source>, ls: seq<Text>, blen: nat)
    requires OffsetsOk(sources) && SourcesOk(m, sources, |ls|) && AreLabels(ls) && |Join(ls)| <= 255
    requires Emit(sources, ls, |m|, blen).ok
    ensures Spelled(m, sources, ls, Emit(sources, ls, |m|, blen))
    decreases |ls|
  {
    hide Spelled, SourcesOk, Join, Suffix, FindSource, Pointer, Here, Lower, LowerAll;
    if ls == [] {
      EmptySpelled(m, sources);
    } else {
      TailJoin(ls);
      var k := FindSource(sources, Suffix(ls));
      if k < |sources| {
        MatchSpells(m, sources, ls);
        PointerSpelled(m, sources, ls, sources[k].off);
      } else {
        var m' := m + ([|ls[0]|] + ls[0]);
        var more := Registered(sources, Suffix(ls), |m|);
        SourcesShrink(m, m', sources, ls, |m|);
        assert |m'| == |m| + 1 + |ls[0]|;
        EmitSpells(m', more, ls[1..], blen);
        LabelSpelled(m, sources, ls, Emit(more, ls[1..], |m'|, blen));
      }
    }
  }

  /** Compression never makes a name longer. */
  lemma {:induction false} EmitShort(sources: seq<Source>, ls: seq<Text>, pos: nat, blen: nat)
    requires OffsetsOk(sources) && AreLabels(ls) && Emit(sources, ls, pos, blen).ok
    requires forall i :: 0 <= i < |ls| ==> |ls[i]| <= 63
    ensures |Emit(sources, ls, pos, blen).bytes| <= |Plain(ls)|
    decreases |ls|
  {
    hide Suffix, FindSource, Pointer;
    if ls != [] {
      assert IsLabel(ls[0]);
      PlainPos(ls[1..]);
      if FindSource(sources, Suffix(ls)) == |sources| {
        EmitShort(Registered(sources, Suffix(ls), pos), ls[1..], pos + 1 + |ls[0]|, blen);
      }
    }
  }

  lemma PlainPos(ls: seq<Text>)
    requires forall i :: 0 <= i < |ls| ==> |ls[i]| <= 63
    ensures |Plain(ls)| >= 1
  {
  }

  // ---- messages ------------------------------------------------------------

  /** An owner name written at `off` and ending before `end`. */
  datatype Owner = Owner(off: nat, name: Text, end: nat)

  /** The message so far, its sources since the reset, its owner names. */
  datatype Message = Message(bytes: seq<byte>, sources: seq<Source>, owners: seq<Owner>)

  /** A resource record, or bytes that callers write themselves. */
  datatype Event = Record(name: Text, body: seq<byte>) | Raw(bytes: seq<byte>)

  ghost predicate OwnerOk(m: seq<byte>, o: Owner) {
    var low := LowerAll(NameLabels(o.name));
    Tail(m, o.off, low) && TailEnd(m, o.off, low) == o.end
  }

  ghost predicate MessageOk(x: Message) {
    && OffsetsOk(x.sources)
    && (forall k :: 0 <= k < |x.sources| ==> SourceOk(x.bytes, x.sources[k]))
    && (forall i :: 0 <= i < |x.owners| ==> OwnerOk(x.bytes, x.owners[i]))
  }

  /** None when the record does not fit; a failed append is the caller's to undo. */
  function Write(x: Message, e: Event, blen: nat): Option<Message>
    requires OffsetsOk(x.sources)
  {
    match e
    case Raw(bs) => if |x.bytes| + |bs| > blen then None else Some(x.(bytes := x.bytes + bs))
    case Record(name, body) =>
      var r := Emit(x.sources, NameLabels(name), |x.bytes|, blen);
      if !r.ok || |x.bytes| + |r.bytes| + |body| > blen then None
      else Some(Message(x.bytes + r.bytes + body, r.sources,
                        x.owners + [Owner(|x.bytes|, name, |x.bytes| + |r.bytes|)]))
  }

  lemma NameLabelsOk(name: Text)
    ensures AreLabels(NameLabels(name)) && |Join(NameLabels(name))| <= 255
  {
    var ls := Tokens(Cut(name));
    TokensLabels(Cut(name));
    hide Tokens, Join;
    if |ls| > MAX_EMIT { JoinPrefix(ls, MAX_EMIT); }
  }

  lemma SourceStable(m: seq<byte>, n: seq<byte>, s: Source)
    requires m <= n && SourceOk(m, s)
    ensures SourceOk(n, s)
  {
    hide Here;
    HereStable(m, n, s.off, LowerAll(Tokens(s.name)));
  }

  lemma OwnerStable(m: seq<byte>, n: seq<byte>, o: Owner)
    requires m <= n && OwnerOk(m, o)
    ensures OwnerOk(n, o)
  {
    hide Tail, TailEnd;
    TailStable(m, n, o.off, LowerAll(NameLabels(o.name)));
  }

  lemma Longer(x: Message, n: seq<byte>)
    requires MessageOk(x) && x.bytes <= n
    ensures MessageOk(x.(bytes := n))
  {
    hide SourceOk, OwnerOk;
    forall k | 0 <= k < |x.sources| ensures SourceOk(n, x.sources[k]) { SourceStable(x.bytes, n, x.sources[k]); }
    forall i | 0 <= i < |x.owners| ensures OwnerOk(n, x.owners[i]) { OwnerStable(x.bytes, n, x.owners[i]); }
  }

  /** Writing one owner name keeps every earlier name and source. */
  lemma EmitOk(x: Message, name: Text, blen: nat)
    requires MessageOk(x) && Emit(x.sources, NameLabels(name), |x.bytes|, blen).ok
    ensures var r := Emit(x.sources, NameLabels(name), |x.bytes|, blen);
            MessageOk(Message(x.bytes + r.bytes, r.sources, x.owners + [Owner(|x.bytes|, name, |x.bytes| + |r.bytes|)]))
  {
    hide SourceOk, OwnerOk, Emit, NameLabels, Join;
    var ls := NameLabels(name);
    var r := Emit(x.sources, ls, |x.bytes|, blen);
    var n := x.bytes + r.bytes;
    NameLabelsOk(name);
    EmitSpells(x.bytes, x.sources, ls, blen);
    Longer(x, n);
    SpelledOwner(x.bytes, x.sources, name, r);
    forall k | 0 <= k < |r.sources| ensures SourceOk(n, r.sources[k]) {
      if r.sources[k] in x.sources {
        var j :| 0 <= j < |x.sources| && x.sources[j] == r.sources[k];
      }
    }
  }

  lemma SpelledOwner(m: seq<byte>, sources: seq<Source>, name: Text, r: Emitted)
    requires Spelled(m, sources, NameLabels(name), r)
    ensures OwnerOk(m + r.bytes, Owner(|m|, name, |m| + |r.bytes|))
  {
  }

  lemma WriteOk(x: Message, e: Event, blen: nat)
    requires MessageOk(x) && Write(x, e, blen).Some?
    ensures MessageOk(Write(x, e, blen).value)
  {
    hide MessageOk, Emit, NameLabels;
    assert OffsetsOk(x.sources) by { MessageOffsets(x); }
    match e
    case Raw(bs) => Longer(x, x.bytes + bs);
    case Record(name, body) =>
      EmitOk(x, name, blen);
      var r := Emit(x.sources, NameLabels(name), |x.bytes|, blen);
      var y := Message(x.bytes + r.bytes, r.sources, x.owners + [Owner(|x.bytes|, name, |x.bytes| + |r.bytes|)]);
      Longer(y, x.bytes + r.bytes + body);
  }

  lemma MessageOffsets(x: Message)
    requires MessageOk(x)
    ensures OffsetsOk(x.sources)
  {
  }

  /** Every owner name decodes to what it was given, lower-cased, and to the
      offset just past it. */
  lemma OwnerDecodes(x: Message, i: nat, olen: nat)
    requires MessageOk(x) && i < |x.owners| && olen >= 256
    ensures NameFromWire(x.bytes, x.owners[i].off, olen) ==
            Some((Lower(Join(NameLabels(x.owners[i].name))), x.owners[i].end))
  {
    hide Decode, Tail, TailEnd, NameLabels, Join, Lower, Out, SourceOk;
    var o := x.owners[i];
    var ls := NameLabels(o.name);
    var low := LowerAll(ls);
    assert OwnerOk(x.bytes, o);
    NameLabelsOk(o.name);
    LowerLabels(ls);
    LowerJoin(ls);
    OutJoin([], low);
    NameLabelsFew(o.name);
    DecodeTail(x.bytes, o.off, low, MAX_STEPS, [], None, olen, []);
    LowerTwice(Join(ls));
  }

  lemma NameLabelsFew(name: Text)
    ensures |NameLabels(name)| <= MAX_EMIT
  {
  }

  /** A message grown by successful writes after a reset; what was there before
      the reset is never a source. */
  ghost predicate Execution(xs: seq<Message>, es: seq<Event>, blen: nat) {
    && |xs| == |es| + 1 && xs[0].sources == [] && xs[0].owners == []
    && forall i :: 0 <= i < |es| ==> OffsetsOk(xs[i].sources) && Write(xs[i], es[i], blen) == Some(xs[i + 1])
  }

  lemma {:induction false} RunOk(xs: seq<Message>, es: seq<Event>, blen: nat, k: nat)
    requires Execution(xs, es, blen) && k <= |es|
    ensures MessageOk(xs[k])
  {
    if k == 0 {
    } else {
      hide MessageOk, Write;
      RunOk(xs, es, blen, k - 1);
      assert Write(xs[k - 1], es[k - 1], blen) == Some(xs[k]);
      WriteOk(xs[k - 1], es[k - 1], blen);
    }
  }

  /** Compression preserves meaning over every run. */
  lemma RunDecodes(xs: seq<Message>, es: seq<Event>, blen: nat, k: nat, i: nat, olen: nat)
    requires Execution(xs, es, blen) && k <= |es| && i < |xs[k].owners| && olen >= 256
    ensures NameFromWire(xs[k].bytes, xs[k].owners[i].off, olen) ==
            Some((Lower(Join(NameLabels(xs[k].owners[i].name))), xs[k].owners[i].end))
  {
    hide MessageOk, NameFromWire, NameLabels, Join, Write;
    RunOk(xs, es, blen, k);
    OwnerDecodes(xs[k], i, olen);
  }

  /** The decoded name is the whole name exactly when that has at most 64 labels and
      nothing but dots past its first 255 bytes. */
  lemma WholeNameExact(name: Text)
    ensures Lower(Join(NameLabels(name))) == Lower(Join(Tokens(name))) <==> |Tokens(name)| <= MAX_EMIT && Uncut(name)
  {
    hide Tokens, Join, Uncut, BytesOf;
    var ls, all := NameLabels(name), Tokens(name);
    TokensLabels(name);
    NameLabelsOk(name);
    SameName(ls, all);
    CutExact(name);
    CutBytes(name);
    BytesTake(Tokens(Cut(name)), MAX_EMIT);
    BytesLower(ls);
    BytesLower(all);
  }

  lemma {:induction false} EmitFits(sources: seq<Source>, ls: seq<Text>, pos: nat, blen: nat)
    requires OffsetsOk(sources) && ShortLabels(ls) && pos + |Plain(ls)| <= blen
    ensures Emit(sources, ls, pos, blen).ok
    decreases |ls|
  {
    hide Suffix, FindSource, Pointer;
    if ls != [] {
      assert IsLabel(ls[0]);
      PlainPos(ls[1..]);
      if FindSource(sources, Suffix(ls)) == |sources| {
        EmitFits(Registered(sources, Suffix(ls), pos), ls[1..], pos + 1 + |ls[0]|, blen);
      }
    }
  }

  /** Every name outside that condition whose labels can be written is written, and
      decodes to another name. */
  lemma NameLost(m: seq<byte>, name: Text, blen: nat, olen: nat)
    requires ShortLabels(NameLabels(name)) && |m| + |Plain(NameLabels(name))| <= blen && olen >= 256
    requires !(|Tokens(name)| <= MAX_EMIT && Uncut(name))
    ensures var y := Write(Message(m, [], []), Record(name, []), blen);
            && y.Some? && y.value.owners == [Owner(|m|, name, |y.value.bytes|)]
            && var r := NameFromWire(y.value.bytes, |m|, olen);
            r.Some? && r.value.0 != Lower(Join(Tokens(name)))
  {
    hide Emit, NameLabels, Plain, Join, Tokens, Uncut, NameFromWire;
    var x := Message(m, [], []);
    var r := Emit([], NameLabels(name), |m|, blen);
    EmitFits([], NameLabels(name), |m|, blen);
    assert AreLabels(NameLabels(name)) by { NameLabelsOk(name); }
    EmitShort([], NameLabels(name), |m|, blen);
    var y := Write(x, Record(name, []), blen);
    assert m + r.bytes + [] == m + r.bytes;
    assert MessageOk(x);
    WriteOk(x, Record(name, []), blen);
    OwnerDecodes(y.value, 0, olen);
    WholeNameExact(name);
  }

  // ---- plain names ---------------------------------------------------------

  predicate ShortLabels(ls: seq<Text>) {
    AreLabels(ls) && forall i :: 0 <= i < |ls| ==> |ls[i]| <= 63
  }

  /** Reading an uncompressed name: one step a label and one for the root. */
  lemma {:induction false} DecodePlain(m: seq<byte>, p: nat, ls: seq<Text>, steps: nat, out: Text, olen: nat)
    requires ShortLabels(ls) && At(m, p, Plain(ls)) && steps >= |ls| && |Out(out, ls)| < olen && olen >= 256
    ensures Decode(m, p, steps, out, None, olen) ==
            Some((Out(out, ls), p + |Plain(ls)| - if steps > |ls| then 0 else 1))
    decreases |ls|
  {
    hide Append, Join, Decode, Out;
    OutStep(out, ls);
    if ls == [] {
      assert m[p] == m[p..p + 1][0] == 0;
      if steps > 0 { RootStep(m, p, steps, out, None, olen); } else { NoSteps(m, p, out, olen); }
    } else {
      var l := ls[0];
      PlainFirst(m, p, ls);
      StepBound(out, out, ls, olen);
      hide Plain, At;
      LabelStep(m, p, |l|, steps, out, None, olen);
      DecodePlain(m, p + 1 + |l|, ls[1..], steps - 1, Append(out, l), olen);
    }
  }

  lemma NoSteps(m: seq<byte>, p: nat, out: Text, olen: nat)
    ensures Decode(m, p, 0, out, None, olen) == Some((out, p))
  {
  }

  lemma PlainFirst(m: seq<byte>, p: nat, ls: seq<Text>)
    requires ls != [] && ShortLabels(ls) && At(m, p, Plain(ls))
    ensures var l := ls[0];
            && 1 <= |l| <= 63 && p + 1 + |l| <= |m| && m[p] == |l| && m[p + 1..p + 1 + |l|] == l
            && ShortLabels(ls[1..]) && At(m, p + 1 + |l|, Plain(ls[1..])) && |Plain(ls)| == 1 + |l| + |Plain(ls[1..])|
  {
    var l := ls[0];
    assert IsLabel(l);
    AtConcat(m, p, [|l|] + l, Plain(ls[1..]));
    AtConcat(m, p, [|l|], l);
    assert m[p] == m[p..p + 1][0] == |l|;
  }

  /** A plain name reads back whole at its exact end if and only if it has fewer
      than 128 labels and fits the buffer but for trailing dots: of one with 128
      labels the root is not read any more. */
  lemma PlainExact(m: seq<byte>, name: Text, olen: nat)
    requires ShortLabels(Tokens(Cut(name))) && olen >= 256
    ensures var ls := Tokens(Cut(name));
            NameFromWire(m + Plain(ls), |m|, olen) == Some((Lower(Join(Tokens(name))), |m| + |Plain(ls)|))
            <==> |ls| < MAX_STEPS && Uncut(name)
  {
    hide Decode, Plain, Join, Out, TokensFrom, Uncut, BytesOf;
    var ls := Tokens(Cut(name));
    TokensLabels(Cut(name));
    TokensLabels(name);
    TokenCount(Cut(name), 0);
    OutJoin([], ls);
    var n := m + Plain(ls);
    assert At(n, |m|, Plain(ls));
    DecodePlain(n, |m|, ls, MAX_STEPS, [], olen);
    SameName(ls, Tokens(name));
    CutExact(name);
    CutBytes(name);
    BytesLower(ls);
    BytesLower(Tokens(name));
  }

  // ---- names that do not come back -----------------------------------------

  lemma {:induction false} JoinEach(ls: seq<Text>, k: nat)
    requires ls != [] && forall i :: 0 <= i < |ls| ==> |ls[i]| == k
    ensures |Join(ls)| + 1 == |ls| * (k + 1)
  {
    if |ls| > 1 { JoinEach(ls[1..], k); }
  }

  lemma {:induction false} PlainLength(ls: seq<Text>)
    requires forall i :: 0 <= i < |ls| ==> |ls[i]| <= 63
    ensures |Plain(ls)| == 1 + |ls| + BytesOf(ls)
  {
    if ls != [] { PlainLength(ls[1..]); }
  }

  /** Sixty-five labels of one byte: written, and read back as sixty-four. */
  lemma SixtyFiveLabels(ls: seq<Text>, olen: nat)
    requires |ls| == 65 && AreLabels(ls) && (forall i :: 0 <= i < |ls| ==> |ls[i]| == 1) && olen >= 256
    ensures var y := Write(Message([], [], []), Record(Join(ls), []), 512);
            && y.Some? && var r := NameFromWire(y.value.bytes, 0, olen);
            r.Some? && r.value.0 != Lower(Join(ls))
  {
    hide Join, Tokens, Plain, Write, NameFromWire;
    var name := Join(ls);
    TokensOfJoin(ls);
    JoinEach(ls, 1);
    var few := NameLabels(name);
    assert few == ls[..64];
    PlainLength(few);
    BytesEach(few, 1);
    NameLost([], name, 512, olen);
  }

  lemma {:induction false} BytesEach(ls: seq<Text>, k: nat)
    requires forall i :: 0 <= i < |ls| ==> |ls[i]| == k
    ensures BytesOf(ls) == |ls| * k
  {
    if ls != [] { BytesEach(ls[1..], k); }
  }

  lemma JoinFive(ls: seq<Text>, l: Text)
    requires |ls| == 5 && |ls[4]| >= 15 && l == ls[4][..15] && forall i :: 0 <= i < 4 ==> |ls[i]| == 59
    ensures |Join(ls)| == 240 + |ls[4]| && Join(ls)[..255] == Join(ls[..4] + [l])
  {
    var a, d := ls[0], [DOT];
    var ms := ls[..4] + [l];
    assert Join(ls) == ls[0] + (d + (ls[1] + (d + (ls[2] + (d + (ls[3] + (d + ls[4]))))))) by { JoinOpen(ls); }
    assert Join(ms) == ls[0] + (d + (ls[1] + (d + (ls[2] + (d + (ls[3] + (d + l))))))) by { JoinOpen(ms); }
  }

  lemma JoinOpen(ls: seq<Text>)
    requires |ls| == 5
    ensures var d := [DOT]; Join(ls) == ls[0] + (d + (ls[1] + (d + (ls[2] + (d + (ls[3] + (d + ls[4])))))))
  {
    var a, b, c := ls[1..], ls[2..], ls[3..];
    assert a[1..] == b && b[1..] == c && c[1..] == [ls[4]];
    assert Join(c) == ls[3] + ([DOT] + ls[4]);
    assert Join(b) == ls[2] + ([DOT] + Join(c));
    assert Join(a) == ls[1] + ([DOT] + Join(b));
  }

  /** Five labels of 59 bytes: written, and the last read back as 15 bytes. */
  lemma LongNameLost(ls: seq<Text>, olen: nat)
    requires |ls| == 5 && AreLabels(ls) && (forall i :: 0 <= i < |ls| ==> |ls[i]| == 59) && olen >= 256
    ensures var y := Write(Message([], [], []), Record(Join(ls), []), 512);
            && y.Some? && var r := NameFromWire(y.value.bytes, 0, olen);
            r.Some? && r.value.0 != Lower(Join(ls))
  {
    hide Join, Tokens, Plain, Write, NameFromWire, BytesOf;
    var name, l := Join(ls), ls[4][..15];
    var few := ls[..4] + [l];
    JoinFive(ls, l);
    assert AreLabels(few);
    TokensOfJoin(ls);
    TokensOfJoin(few);
    assert NameLabels(name) == few;
    PlainLength(few);
    FewBytes(few);
    CutExact(name);
    assert Tokens(Cut(name)) != Tokens(name) by { assert few[4] != ls[4]; }
    NameLost([], name, 512, olen);
  }

  lemma FewBytes(ls: seq<Text>)
    requires |ls| == 5 && forall i :: 0 <= i < 5 ==> |ls[i]| <= 59
    ensures BytesOf(ls) <= 295
  {
    assert ls[1..][1..] == ls[2..] && ls[2..][1..] == ls[3..] && ls[3..][1..] == ls[4..] && ls[4..][1..] == [];
    assert BytesOf(ls[4..]) == |ls[4]|;
    assert BytesOf(ls[3..]) == |ls[3]| + BytesOf(ls[4..]);
    assert BytesOf(ls[2..]) == |ls[2]| + BytesOf(ls[3..]);
    assert BytesOf(ls[1..]) == |ls[1]| + BytesOf(ls[2..]);
  }

  /** A hundred and twenty-eight labels fill the buffer exactly; written plainly they
      are read with their end one byte short. */
  lemma FullNameShort(ls: seq<Text>, m: seq<byte>, olen: nat)
    requires |ls| == 128 && AreLabels(ls) && (forall i :: 0 <= i < |ls| ==> |ls[i]| == 1) && olen >= 256
    ensures Uncut(Join(ls)) && Tokens(Cut(Join(ls))) == ls && ShortLabels(ls)
    ensures NameFromWire(m + Plain(ls), |m|, olen) != Some((Lower(Join(ls)), |m| + |Plain(ls)|))
  {
    hide Join, Tokens, Plain, NameFromWire;
    TokensOfJoin(ls);
    JoinEach(ls, 1);
    PlainExact(m, Join(ls), olen);
  }
}
