/** Transport framing (section 4 of RFC 5734): a four-byte total length, then the
    payload, reassembled from reads of any size. */
module Framing {
  import opened Bytes

  const MAX_FRAME := 65535
  const ACC_CAP := 4 + MAX_FRAME

  type Payload = seq<byte>

  function Big(b0: int, b1: int, b2: int, b3: int): int { Word(b3, b2, b1, b0) }

  function Total(s: seq<byte>): nat
    requires |s| >= 4
  {
    Big(s[0], s[1], s[2], s[3])
  }

  // ---- frames --------------------------------------------------------------

  function Frame(p: Payload): (r: seq<byte>)
    requires |p| <= MAX_FRAME
    ensures |r| == 4 + |p|
  {
    Put32(|p| + 4) + p
  }

  predicate Sendable(ps: seq<Payload>) {
    forall i :: 0 <= i < |ps| ==> 0 < |ps[i]| <= MAX_FRAME
  }

  function Stream(ps: seq<Payload>): seq<byte>
    requires Sendable(ps)
  {
    if ps == [] then [] else Frame(ps[0]) + Stream(ps[1..])
  }

  // ---- what the bytes of a connection mean ---------------------------------

  /** What one read of a frame yields, given everything the peer will ever send:
      the length reported and the bytes left; a negative length is fatal. */
  datatype Outcome = Outcome(len: int, payload: Payload, left: seq<byte>)

  predicate Malformed(s: seq<byte>) { |s| >= 4 && (Total(s) < 4 || Total(s) > MAX_FRAME + 4) }

  predicate Complete(s: seq<byte>) { |s| >= 4 && !Malformed(s) && |s| >= Total(s) }

  function NextFrame(s: seq<byte>): (r: Outcome)
    ensures r.len > 0 ==> |r.left| < |s|
  {
    if Complete(s) then Outcome(Total(s) - 4, s[4..Total(s)], s[Total(s)..])
    else if s == [] then Outcome(0, [], [])
    else Outcome(-1, [], s)
  }

  /** The payloads before the first empty frame, error or close, and how it ends. */
  function Received(s: seq<byte>): (r: (seq<Payload>, int))
    ensures r.1 <= 0
    decreases |s|
  {
    var o := NextFrame(s);
    if o.len <= 0 then ([], o.len)
    else
      var r := Received(o.left);
      ([o.payload] + r.0, r.1)
  }

  lemma TotalOf(p: Payload, rest: seq<byte>)
    requires |p| <= MAX_FRAME
    ensures Total(Frame(p) + rest) == |p| + 4
  {
    var v: u32 := |p| + 4;
    var s := Frame(p) + rest;
    assert s[0] == Put32(v)[0] && s[1] == Put32(v)[1] && s[2] == Put32(v)[2] && s[3] == Put32(v)[3];
    var hi, lo := v / 0x1_0000, v % 0x1_0000;
    assert v == hi * 0x1_0000 + lo && hi == hi / 256 * 256 + hi % 256 && lo == lo / 256 * 256 + lo % 256;
  }

  /** A framed payload is the next frame, whatever follows. */
  lemma FrameNext(p: Payload, rest: seq<byte>)
    requires |p| <= MAX_FRAME
    ensures NextFrame(Frame(p) + rest) == Outcome(|p|, p, rest)
  {
    hide Total, Put32;
    TotalOf(p, rest);
    var s := Frame(p) + rest;
    assert s[4..4 + |p|] == p && s[4 + |p|..] == rest;
  }

  /** Every sequence of non-empty payloads is received in order, and the
      connection ends cleanly. */
  lemma {:induction false} StreamReceived(ps: seq<Payload>)
    requires Sendable(ps)
    ensures Received(Stream(ps)) == (ps, 0)
    decreases |ps|
  {
    hide Frame, NextFrame, Received;
    ReceivedStep(Stream(ps));
    if ps == [] {
      Closed([]);
    } else {
      FrameNext(ps[0], Stream(ps[1..]));
      StreamReceived(ps[1..]);
      assert ps == [ps[0]] + ps[1..];
    }
  }

  lemma ReceivedStep(s: seq<byte>)
    ensures var o := NextFrame(s);
            Received(s) == if o.len <= 0 then ([], o.len) else ([o.payload] + Received(o.left).0, Received(o.left).1)
  {
    hide NextFrame;
  }

  // ---- the decision on a buffer --------------------------------------------

  lemma Decided(acc: seq<byte>, rest: seq<byte>)
    ensures Malformed(acc) ==> NextFrame(acc + rest).len == -1
    ensures Complete(acc) ==> NextFrame(acc + rest).len == Total(acc) - 4
                              && NextFrame(acc + rest).payload == acc[4..Total(acc)]
                              && NextFrame(acc + rest).left == acc[Total(acc)..] + rest
    ensures !Malformed(acc) && !Complete(acc) ==> |acc| < ACC_CAP
  {
    hide Big;
    if |acc| >= 4 { assert Total(acc + rest) == Total(acc); }
    if Complete(acc) {
      var n := Total(acc);
      assert (acc + rest)[4..n] == acc[4..n] && (acc + rest)[n..] == acc[n..] + rest;
    }
  }

  /** The bytes still to come from a peer; how many each read delivers is not
      under our control. */
  class Peer {
    var rest: seq<byte>
    var sent: seq<byte>

    constructor (input: seq<byte>)
      ensures rest == input && sent == []
    {
      rest, sent := input, [];
    }

    method Receive(room: nat) returns (bs: seq<byte>)
      requires room > 0
      modifies this`rest
      ensures bs + rest == old(rest) && |bs| <= room && (bs == [] <==> old(rest) == [])
    {
      if rest == [] { return []; }
      var n: nat :| 1 <= n <= |rest| && n <= room;
      bs := rest[..n];
      rest := rest[n..];
    }

    method Send(bs: seq<byte>) returns (n: nat)
      requires bs != []
      modifies this`sent
      ensures 1 <= n <= |bs| && sent == old(sent) + bs[..n]
    {
      n :| 1 <= n <= |bs|;
      sent := sent + bs[..n];
    }
  }

  class Reader {
    const acc: array<byte>
    var acclen: nat
    const peer: Peer

    constructor (p: Peer)
      ensures peer == p && fresh(acc) && Valid() && acclen == 0 && Pending() == p.rest
    {
      acc := new byte[ACC_CAP];
      acclen, peer := 0, p;
    }

    predicate Valid()
      reads this
    {
      acc.Length == ACC_CAP && acclen <= ACC_CAP
    }

    /** Everything not yet handed out: buffered, then still on the way. */
    function Pending(): seq<byte>
      reads this, acc, peer
      requires Valid()
    {
      acc[..acclen] + peer.rest
    }

    /** One frame: what is returned depends only on the bytes the peer sends, not
        on how reads split them, and the buffer is never full without a complete
        or malformed frame in it. */
    method ReadFrame() returns (len: int, out: Payload)
      requires Valid()
      modifies this, acc, peer`rest
      ensures Valid() && len == NextFrame(old(Pending())).len
      ensures len >= 0 ==> out == NextFrame(old(Pending())).payload && Pending() == NextFrame(old(Pending())).left
      ensures len < 0 ==> Pending() == old(Pending())
    {
      hide Total, NextFrame;
      out := [];
      while true
        invariant Valid() && Pending() == old(Pending())
        decreases |peer.rest|
      {
        Decided(acc[..acclen], peer.rest);
        if Malformed(acc[..acclen]) { return -1, []; }
        if Complete(acc[..acclen]) {
          var n := Total(acc[..acclen]);
          out := acc[4..n];
          assert out == acc[..acclen][4..n];
          ghost var left := acc[..acclen][n..];
          Shift(n);
          assert acc[..acclen] == left;
          return n - 4, out;
        }
        assert acclen < ACC_CAP;
        ghost var was := acc[..acclen];
        ghost var coming := peer.rest;
        var bs := peer.Receive(ACC_CAP - acclen);
        if |bs| == 0 {
          Closed(acc[..acclen]);
          assert acc[..acclen] + [] == acc[..acclen];
          return if acclen == 0 then 0 else -1, [];
        }
        Store(bs);
        assert was + (bs + peer.rest) == (was + bs) + peer.rest;
      }
    }

    /** Move what follows the first `n` bytes to the front. */
    method Shift(n: nat)
      requires Valid() && n <= acclen
      modifies this`acclen, acc
      ensures Valid() && acclen == old(acclen) - n && acc[..acclen] == old(acc[n..acclen])
    {
      var m := acclen - n;
      for i := 0 to m
        invariant acc[..i] == old(acc[n..n + i])
        invariant acc[i + n..] == old(acc[i + n..])
      {
        assert acc[i + n] == acc[i + n..][0] == old(acc[i + n]);
        ghost var tail := acc[i + n..];
        acc[i] := acc[i + n];
        assert acc[..i + 1] == acc[..i] + [acc[i]];
        assert n > 0 ==> acc[i + 1 + n..] == tail[1..];
      }
      acclen := m;
    }

    method Store(bs: seq<byte>)
      requires Valid() && acclen + |bs| <= ACC_CAP
      modifies this`acclen, acc
      ensures Valid() && acclen == old(acclen) + |bs| && acc[..acclen] == old(acc[..acclen]) + bs
    {
      for i := 0 to |bs|
        invariant acclen == old(acclen) && acc[..acclen + i] == old(acc[..acclen]) + bs[..i]
      {
        acc[acclen + i] := bs[i];
        assert acc[..acclen + i + 1] == acc[..acclen + i] + [bs[i]];
        assert bs[..i + 1] == bs[..i] + [bs[i]];
      }
      assert bs[..|bs|] == bs;
      acclen := acclen + |bs|;
    }

    /** Frame after frame until the connection ends: the payloads received are
        those of the byte stream, however it was split. */
    method ReadAll() returns (ps: seq<Payload>, end: int)
      requires Valid()
      modifies this, acc, peer`rest
      ensures (ps, end) == Received(old(Pending()))
    {
      hide NextFrame;
      ps := [];
      ghost var all := Pending();
      assert [] + Received(all).0 == Received(all).0;
      while true
        invariant Valid() && (ps + Received(Pending()).0, Received(Pending()).1) == Received(all)
        decreases |Pending()|
      {
        ghost var s := Pending();
        var len, out := ReadFrame();
        if len <= 0 {
          assert ps + [] == ps;
          return ps, len;
        }
        ghost var r := Received(Pending());
        assert ps + ([out] + r.0) == (ps + [out]) + r.0;
        ps := ps + [out];
      }
    }
  }

  lemma Closed(s: seq<byte>)
    requires !Malformed(s) && !Complete(s)
    ensures NextFrame(s) == if s == [] then Outcome(0, [], []) else Outcome(-1, [], s)
  {
  }

  /** The header in one write, then the payload in as many as it takes. */
  method WriteFrame(peer: Peer, xml: Payload) returns (ok: bool)
    modifies peer`sent
    ensures ok ==> |xml| <= MAX_FRAME && peer.sent == old(peer.sent) + Frame(xml)
    ensures !ok && |xml| > MAX_FRAME ==> peer.sent == old(peer.sent)
    ensures !ok && |xml| <= MAX_FRAME ==> exists k :: 0 < k < 4 && peer.sent == old(peer.sent) + Frame(xml)[..k]
  {
    if |xml| > MAX_FRAME { return false; }
    hide Put32;
    var f, hdr := Frame(xml), Put32(|xml| + 4);
    assert f[..4] == hdr;
    var k := peer.Send(hdr);
    assert hdr[..k] == f[..k];
    if k != 4 { return false; }
    var n := 0;
    while n < |xml|
      invariant 0 <= n <= |xml| && peer.sent == old(peer.sent) + f[..4 + n]
      decreases |xml| - n
    {
      var m := peer.Send(xml[n..]);
      assert f[..4 + n] + xml[n..][..m] == f[..4 + n + m];
      n := n + m;
    }
    assert f[..4 + |xml|] == f;
    return true;
  }
}
