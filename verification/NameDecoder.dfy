/** Which messages the name decoder accepts, and as what: a name is a trail of labels
    and backward pointers through the message. */
module NameDecoder {
  import opened Bytes
  import opened Dns = DnsOrder
  import opened DnsNames
  import opened Compression

  datatype Hop = Word(text: Text) | Jump(to: nat)

  /** The hops stand in the message from `p` on; a pointer leads strictly backward. */
  predicate Leads(m: seq<byte>, p: nat, hops: seq<Hop>)
    decreases |hops|
  {
    if hops == [] then true
    else
      match hops[0]
      case Word(t) =>
        && 0 < |t| < 192 && p + 1 + |t| <= |m| && m[p] == |t| && m[p + 1..p + 1 + |t|] == t
        && Leads(m, p + 1 + |t|, hops[1..])
      case Jump(to) =>
        && p + 1 < |m| && 192 <= m[p] && 0x100 * m[p] as int + m[p + 1] == 0xC000 + to && to < p
        && Leads(m, to, hops[1..])
  }

  /** Where the trail stands after its hops. */
  function End(p: nat, hops: seq<Hop>): nat
    decreases |hops|
  {
    if hops == [] then p
    else End(match hops[0] case Word(t) => p + 1 + |t| case Jump(to) => to, hops[1..])
  }

  /** Just past the first pointer, if there is one. */
  function Resume(p: nat, hops: seq<Hop>): Option<nat>
    decreases |hops|
  {
    if hops == [] then None
    else match hops[0] case Word(t) => Resume(p + 1 + |t|, hops[1..]) case Jump(_) => Some(p + 2)
  }

  function Words(hops: seq<Hop>): seq<Text> {
    if hops == [] then []
    else match hops[0] case Word(t) => [t] + Words(hops[1..]) case Jump(_) => Words(hops[1..])
  }

  /** The trail ends at a root, or is cut because it used up the steps allowed. */
  predicate Stops(m: seq<byte>, p: nat, hops: seq<Hop>, steps: nat) {
    || |hops| == steps
    || (|hops| < steps && End(p, hops) < |m| && m[End(p, hops)] == 0)
  }

  /** The offset that the decoder returns. */
  function Past(p: nat, hops: seq<Hop>, steps: nat): nat {
    if Resume(p, hops).Some? then Resume(p, hops).value
    else if |hops| == steps then End(p, hops) else End(p, hops) + 1
  }

  /** The text fits the caller's buffer; a single label needs one byte more. */
  predicate Roomy(out: Text, ws: seq<Text>, olen: nat) {
    ws == [] || |Out(out, ws)| + (if out == [] && |ws| == 1 then 1 else 0) < olen
  }

  lemma {:induction false} OutGrows(out: Text, ws: seq<Text>)
    requires ws != [] && ws[0] != [] && out != []
    ensures |Out(out, ws)| >= |out| + 1 + |ws[0]|
  {
    OutLonger(Append(out, ws[0]), ws[1..]);
  }

  lemma RoomyStep(out: Text, w: Text, ws: seq<Text>, olen: nat)
    requires w != [] && (ws != [] ==> ws[0] != [])
    ensures Roomy(out, [w] + ws, olen) <==> |out| + |w| + 1 < olen && Roomy(Append(out, w), ws, olen)
  {
    assert ([w] + ws)[0] == w && ([w] + ws)[1..] == ws;
    OutStep(out, [w] + ws);
    if ws == [] {
      assert Out(Append(out, w), ws) == Append(out, w);
    } else {
      OutGrows(Append(out, w), ws);
    }
  }

  lemma {:induction false} WordsFull(m: seq<byte>, p: nat, hops: seq<Hop>)
    requires Leads(m, p, hops)
    ensures forall i :: 0 <= i < |Words(hops)| ==> Words(hops)[i] != []
    decreases |hops|
  {
    if hops != [] {
      match hops[0]
      case Word(t) => WordsFull(m, p + 1 + |t|, hops[1..]);
      case Jump(to) => WordsFull(m, to, hops[1..]);
    }
  }

  function Result(p: nat, hops: seq<Hop>, steps: nat, out: Text, ret: Option<nat>): (Text, nat) {
    (Out(out, Words(hops)), if ret.Some? then ret.value else Past(p, hops, steps))
  }

  lemma WordHop(m: seq<byte>, p: nat, t: Text, more: seq<Hop>, steps: nat, out: Text, ret: Option<nat>)
    requires 0 < |t| && steps > 0
    ensures var hops := [Word(t)] + more;
            && (Stops(m, p, hops, steps) <==> Stops(m, p + 1 + |t|, more, steps - 1))
            && Words(hops) == [t] + Words(more)
            && Result(p, hops, steps, out, ret) == Result(p + 1 + |t|, more, steps - 1, Append(out, t), ret)
  {
    hide Append;
    var hops := [Word(t)] + more;
    assert hops[0] == Word(t) && hops[1..] == more;
    assert ([t] + Words(more))[0] == t && ([t] + Words(more))[1..] == Words(more);
    OutStep(out, [t] + Words(more));
  }

  lemma JumpHop(m: seq<byte>, p: nat, to: nat, more: seq<Hop>, steps: nat, out: Text, ret: Option<nat>)
    requires steps > 0
    ensures var hops := [Jump(to)] + more;
            && (Stops(m, p, hops, steps) <==> Stops(m, to, more, steps - 1))
            && Words(hops) == Words(more)
            && Result(p, hops, steps, out, ret) ==
               Result(to, more, steps - 1, out, if ret.None? then Some(p + 2) else ret)
  {
    hide Out;
    var hops := [Jump(to)] + more;
    assert hops[0] == Jump(to) && hops[1..] == more;
  }

  /** Every trail that stops and fits is decoded. */
  lemma {:induction false} Decodes(m: seq<byte>, p: nat, hops: seq<Hop>, steps: nat, out: Text, ret: Option<nat>, olen: nat)
    requires Leads(m, p, hops) && Stops(m, p, hops, steps) && Roomy(out, Words(hops), olen)
    ensures Decode(m, p, steps, out, ret, olen) == Some(Result(p, hops, steps, out, ret))
    decreases |hops|
  {
    hide Roomy, Stops, Result, Append, Decode, Leads, Words, Out;
    if hops == [] {
      NoHops(m, p, steps, out, ret, olen);
    } else {
      var more := hops[1..];
      assert hops == [hops[0]] + more;
      assert steps > 0 by { StopsSteps(m, p, hops, steps); }
      LeadsStep(m, p, hops);
      match hops[0]
      case Word(t) =>
        WordHop(m, p, t, more, steps, out, ret);
        WordsFull(m, p + 1 + |t|, more);
        RoomyStep(out, t, Words(more), olen);
        LabelStep(m, p, |t|, steps, out, ret, olen);
        Decodes(m, p + 1 + |t|, more, steps - 1, Append(out, t), ret, olen);
      case Jump(to) =>
        JumpHop(m, p, to, more, steps, out, ret);
        JumpStep(m, p, steps, out, ret, olen);
        Decodes(m, to, more, steps - 1, out, if ret.None? then Some(p + 2) else ret, olen);
    }
  }

  lemma LeadsStep(m: seq<byte>, p: nat, hops: seq<Hop>)
    requires Leads(m, p, hops) && hops != []
    ensures match hops[0]
            case Word(t) =>
              && 0 < |t| < 192 && p + 1 + |t| <= |m| && m[p] == |t| && m[p + 1..p + 1 + |t|] == t
              && Leads(m, p + 1 + |t|, hops[1..])
            case Jump(to) =>
              && p + 1 < |m| && 192 <= m[p] && (m[p] - 192) * 256 + m[p + 1] as int == to < p
              && Leads(m, to, hops[1..])
  {
  }

  lemma StopsSteps(m: seq<byte>, p: nat, hops: seq<Hop>, steps: nat)
    requires Stops(m, p, hops, steps)
    ensures |hops| <= steps
  {
  }

  lemma NoHops(m: seq<byte>, p: nat, steps: nat, out: Text, ret: Option<nat>, olen: nat)
    requires Stops(m, p, [], steps)
    ensures Decode(m, p, steps, out, ret, olen) == Some(Result(p, [], steps, out, ret))
  {
  }

  /** Whatever is decoded is such a trail. */
  lemma {:induction false} OnlyDecodes(m: seq<byte>, p: nat, steps: nat, out: Text, ret: Option<nat>, olen: nat)
    returns (hops: seq<Hop>)
    requires Decode(m, p, steps, out, ret, olen).Some?
    ensures Leads(m, p, hops) && Stops(m, p, hops, steps) && Roomy(out, Words(hops), olen)
    ensures Decode(m, p, steps, out, ret, olen) == Some(Result(p, hops, steps, out, ret))
    decreases steps
  {
    hide Roomy, Stops, Result, Append;
    if steps == 0 || (p < |m| && m[p] == 0) {
      hops := [];
      NoHopsStop(m, p, steps, out, olen);
      NoHops(m, p, steps, out, ret, olen);
    } else if m[p] >= 192 {
      var to := (m[p] - 192) * 256 + m[p + 1] as int;
      var more := OnlyDecodes(m, to, steps - 1, out, if ret.None? then Some(p + 2) else ret, olen);
      hops := [Jump(to)] + more;
      assert hops[0] == Jump(to) && hops[1..] == more;
      JumpHop(m, p, to, more, steps, out, ret);
    } else {
      var t := m[p + 1..p + 1 + m[p]];
      var more := OnlyDecodes(m, p + 1 + m[p], steps - 1, Append(out, t), ret, olen);
      hops := [Word(t)] + more;
      assert hops[0] == Word(t) && hops[1..] == more;
      WordHop(m, p, t, more, steps, out, ret);
      WordsFull(m, p + 1 + |t|, more);
      RoomyStep(out, t, Words(more), olen);
    }
  }

  lemma NoHopsStop(m: seq<byte>, p: nat, steps: nat, out: Text, olen: nat)
    requires steps == 0 || (p < |m| && m[p] == 0)
    ensures Stops(m, p, [], steps) && Roomy(out, Words([]), olen)
  {
  }

  /** A name decodes to a text and an offset exactly when a trail of at most 128 hops
      from there spells that text in lower case, with dots between its labels, and
      leaves off there. */
  lemma DecoderExact(m: seq<byte>, off: nat, olen: nat, t: Text, q: nat)
    ensures NameFromWire(m, off, olen) == Some((t, q)) <==>
            exists hops :: && Leads(m, off, hops) && Stops(m, off, hops, MAX_STEPS)
                           && Roomy([], Words(hops), olen)
                           && t == Lower(Out([], Words(hops))) && q == Past(off, hops, MAX_STEPS)
  {
    hide Leads, Stops, Roomy, Decode, Out, Lower, Past;
    if NameFromWire(m, off, olen) == Some((t, q)) {
      var hops := OnlyDecodes(m, off, MAX_STEPS, [], None, olen);
    }
    forall hops | Leads(m, off, hops) && Stops(m, off, hops, MAX_STEPS) && Roomy([], Words(hops), olen)
      ensures NameFromWire(m, off, olen) == Some((Lower(Out([], Words(hops))), Past(off, hops, MAX_STEPS)))
    {
      Decodes(m, off, hops, MAX_STEPS, [], None, olen);
    }
  }
}
