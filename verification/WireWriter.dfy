/** The compressing writer and the decoder as they work on buffers. */
module WireWriter {
  import opened Bytes
  import opened Dns = DnsOrder
  import opened DnsNames
  import opened Compression

  // ---- pieces of the encoder -----------------------------------------------

  /** The inner loop that composes a suffix. */
  method ComposeSuffix(ls: seq<Text>, i: nat) returns (t: Text)
    requires i < |ls|
    ensures t == Suffix(ls[i..])
  {
    t := [];
    var j := i;
    while j < |ls|
      invariant i <= j <= |ls| && Compose(ls[j..], t, j == i) == Suffix(ls[i..])
      decreases |ls| - j
    {
      if |t| + |ls[j]| + 1 >= 256 { return; }
      if j > i { t := t + [DOT]; }
      t := t + ls[j];
      assert ls[j..][1..] == ls[j + 1..];
      j := j + 1;
    }
  }

  method Lookup(sources: seq<Source>, name: Text) returns (k: nat)
    ensures k == FindSource(sources, name)
  {
    hide FindSource, Lower;
    k := 0;
    while k < |sources|
      invariant k <= |sources| && forall j :: 0 <= j < k ==> Lower(sources[j].name) != Lower(name)
    {
      if Lower(sources[k].name) == Lower(name) { break; }
      k := k + 1;
    }
    FindSourceIs(sources, name, k);
  }

  lemma FindSourceIs(sources: seq<Source>, name: Text, k: nat)
    requires k <= |sources| && (k < |sources| ==> Lower(sources[k].name) == Lower(name))
    requires forall j :: 0 <= j < k ==> Lower(sources[j].name) != Lower(name)
    ensures FindSource(sources, name) == k
  {
    hide Lower;
  }

  /** The buffer with `bs` written at `at`. */
  function Patched(b: seq<byte>, at: nat, bs: seq<byte>): (r: seq<byte>)
    requires at + |bs| <= |b|
    ensures |r| == |b|
  {
    b[..at] + bs + b[at + |bs|..]
  }

  lemma PatchNone(b: seq<byte>, at: nat)
    requires at <= |b|
    ensures Patched(b, at, []) == b
  {
  }

  lemma PatchMore(b: seq<byte>, at: nat, a: seq<byte>, c: seq<byte>)
    requires at + |a| + |c| <= |b|
    ensures Patched(Patched(b, at, a), at + |a|, c) == Patched(b, at, a + c)
  {
  }

  lemma PatchPrefix(b: seq<byte>, at: nat, bs: seq<byte>)
    requires at + |bs| <= |b|
    ensures Patched(b, at, bs)[..at + |bs|] == b[..at] + bs && Patched(b, at, bs)[..at] == b[..at]
  {
  }

  lemma PatchTwice(b: seq<byte>, at: nat, a: seq<byte>, c: seq<byte>)
    requires at + |a| + |c| <= |b|
    ensures Patched(Patched(b, at, a), at + |a|, c)[..at + |a| + |c|] == b[..at] + a + c
  {
    PatchMore(b, at, a, c);
    PatchPrefix(b, at, a + c);
    hide Patched;
    assert b[..at] + (a + c) == b[..at] + a + c;
  }

  /** Copy bytes into a buffer. */
  method Copy(buf: array<byte>, at: nat, bs: seq<byte>)
    requires at + |bs| <= buf.Length
    modifies buf
    ensures buf[..] == Patched(old(buf[..]), at, bs)
  {
    for i := 0 to |bs|
      invariant buf[..] == old(buf[..at]) + bs[..i] + old(buf[at + i..])
    {
      ghost var was := buf[..];
      buf[at + i] := bs[i];
      assert buf[..] == was[at + i := bs[i]];
      CopyStep(old(buf[..]), at, bs, i);
    }
    assert bs[..|bs|] == bs;
  }

  lemma CopyStep(b: seq<byte>, at: nat, bs: seq<byte>, i: nat)
    requires at + |bs| <= |b| && i < |bs|
    ensures (b[..at] + bs[..i] + b[at + i..])[at + i := bs[i]] == b[..at] + bs[..i + 1] + b[at + i + 1..]
  {
  }

  datatype Stage = Going | Ended | Failed

  /** What one round of the label loop does. */
  datatype Round = Round(stage: Stage, sources: seq<Source>, bytes: seq<byte>)

  function OneLabel(sources: seq<Source>, ls: seq<Text>, pos: nat, blen: nat): (r: Round)
    requires OffsetsOk(sources) && ls != []
    ensures OffsetsOk(r.sources) && (pos <= blen ==> pos + |r.bytes| <= blen)
  {
    var k := FindSource(sources, Suffix(ls));
    if k < |sources| then
      if pos + 2 > blen then Round(Failed, sources, []) else Round(Ended, sources, Pointer(sources[k].off))
    else
      var more := Registered(sources, Suffix(ls), pos);
      if |ls[0]| > 63 || pos + |ls[0]| + 1 >= blen then Round(Failed, more, [])
      else Round(Going, more, [|ls[0]|] + ls[0])
  }

  lemma EmitRound(sources: seq<Source>, ls: seq<Text>, pos: nat, blen: nat)
    requires OffsetsOk(sources) && ls != []
    ensures var o := OneLabel(sources, ls, pos, blen);
            Emit(sources, ls, pos, blen) ==
            if o.stage.Going? then
              var r := Emit(o.sources, ls[1..], pos + |o.bytes|, blen);
              Emitted(r.ok, r.sources, o.bytes + r.bytes)
            else Emitted(o.stage.Ended?, o.sources, o.bytes)
  {
    hide Suffix, FindSource, Pointer;
  }

  /** The rest of an emission after `done` bytes. */
  ghost predicate Continues(whole: Emitted, done: seq<byte>, rest: Emitted) {
    whole == Emitted(rest.ok, rest.sources, done + rest.bytes)
  }

  lemma ContinuesRound(whole: Emitted, done: seq<byte>, sources: seq<Source>, ls: seq<Text>, pos: nat, blen: nat)
    requires OffsetsOk(sources) && ls != [] && Continues(whole, done, Emit(sources, ls, pos, blen))
    ensures var o := OneLabel(sources, ls, pos, blen);
            if o.stage.Going? then Continues(whole, done + o.bytes, Emit(o.sources, ls[1..], pos + |o.bytes|, blen))
            else whole == Emitted(o.stage.Ended?, o.sources, done + o.bytes)
  {
    hide OneLabel, Emit;
    EmitRound(sources, ls, pos, blen);
    var o := OneLabel(sources, ls, pos, blen);
    if o.stage.Going? {
      Assoc(done, o.bytes, Emit(o.sources, ls[1..], pos + |o.bytes|, blen).bytes);
    }
  }

  lemma ContinuesStart(whole: Emitted)
    ensures Continues(whole, [], whole)
  {
    assert [] + whole.bytes == whole.bytes;
  }

  lemma ContinuesEnd(whole: Emitted, done: seq<byte>, sources: seq<Source>, pos: nat, blen: nat)
    requires OffsetsOk(sources) && Continues(whole, done, Emit(sources, [], pos, blen))
    ensures whole == if pos >= blen then Emitted(false, sources, done) else Emitted(true, sources, done + [0])
  {
    assert done + [] == done;
  }

  // ---- the writer ----------------------------------------------------------

  function Body(kind: u16, cls: u16, ttl: u32, rdata: seq<byte>): (r: seq<byte>)
    requires |rdata| < 0x1_0000
    ensures |r| == 10 + |rdata|
  {
    Put16(kind) + Put16(cls) + Put32(ttl) + Put16(|rdata|) + rdata
  }

  class Writer {
    const buf: array<byte>
    var off: nat
    var sources: seq<Source>
    ghost var owners: seq<Owner>

    ghost predicate Ok()
      reads this, buf
    {
      off <= buf.Length && MessageOk(Contents())
    }

    ghost function Contents(): Message
      reads this, buf
      requires off <= buf.Length
    {
      Message(buf[..off], sources, owners)
    }

    constructor (size: nat)
      ensures Ok() && fresh(buf) && buf.Length == size && off == 0 && sources == []
    {
      buf := new byte[size];
      off, sources, owners := 0, [], [];
    }

    /** A new message: `at` bytes of it are the caller's. */
    method Reset(at: nat)
      requires at <= buf.Length
      modifies this
      ensures Ok() && off == at && sources == [] && owners == []
    {
      off, sources, owners := at, [], [];
    }

    /** One round: look the suffix up, or register it and write its label. */
    method RoundAt(ls: seq<Text>, i: nat, p: nat) returns (stage: Stage, n: nat)
      requires OffsetsOk(sources) && i < |ls| && p <= buf.Length
      modifies this`sources, buf
      ensures var o := OneLabel(old(sources), ls[i..], p, buf.Length);
              && stage == o.stage && sources == o.sources && n == |o.bytes| && p + n <= buf.Length
              && buf[..] == Patched(old(buf[..]), p, o.bytes)
    {
      hide Suffix, FindSource, Pointer, Patched;
      assert ls[i..][0] == ls[i];
      var suffix := ComposeSuffix(ls, i);
      var k := Lookup(sources, suffix);
      if k < |sources| {
        if p + 2 > buf.Length {
          PatchNone(buf[..], p);
          return Failed, 0;
        }
        PointerBytes(sources[k].off);
        Copy(buf, p, [192 + sources[k].off / 256, sources[k].off % 256]);
        return Ended, 2;
      }
      if |sources| < MAX_SOURCES && p < MAX_OFFSET { sources := sources + [Source(suffix, p)]; }
      var l := ls[i];
      if |l| > 63 || p + |l| + 1 >= buf.Length {
        PatchNone(buf[..], p);
        return Failed, 0;
      }
      Copy(buf, p, [|l|] + l);
      return Going, 1 + |l|;
    }

    /** Emits a name at `pos`: the bytes, table and result are exactly those of
        the specification, also when it runs out of room. */
    method NameToWire(name: Text, pos: nat) returns (n: int)
      requires OffsetsOk(sources) && pos <= buf.Length
      modifies this`sources, buf
      ensures var r := Emit(old(sources), NameLabels(name), pos, buf.Length);
              && n == (if r.ok then |r.bytes| else -1) && sources == r.sources && pos + |r.bytes| <= buf.Length
              && buf[..] == Patched(old(buf[..]), pos, r.bytes)
    {
      hide Tokens, OneLabel, Emit, Continues, Patched;
      var ls := Tokenize(Cut(name), MAX_EMIT);
      assert ls == NameLabels(name);
      hide NameLabels;
      ghost var whole := Emit(sources, ls, pos, buf.Length);
      ghost var b0 := buf[..];
      var p, i := pos, 0;
      ghost var done: seq<byte> := [];
      PatchNone(b0, pos);
      assert ls[0..] == ls;
      ContinuesStart(whole);
      while i < |ls|
        invariant 0 <= i <= |ls| && p == pos + |done| && p <= buf.Length && OffsetsOk(sources)
        invariant buf[..] == Patched(b0, pos, done)
        invariant Continues(whole, done, Emit(sources, ls[i..], p, buf.Length))
        decreases |ls| - i
      {
        ghost var o := OneLabel(sources, ls[i..], p, buf.Length);
        ContinuesRound(whole, done, sources, ls[i..], p, buf.Length);
        var stage, k := RoundAt(ls, i, p);
        PatchMore(b0, pos, done, o.bytes);
        done := done + o.bytes;
        if stage.Failed? { return -1; }
        p := p + k;
        if stage.Ended? { return p - pos; }
        assert ls[i..][1..] == ls[i + 1..];
        i := i + 1;
      }
      assert ls[i..] == [];
      ContinuesEnd(whole, done, sources, p, buf.Length);
      if p >= buf.Length { return -1; }
      Copy(buf, p, [0]);
      PatchMore(b0, pos, done, [0]);
      return p + 1 - pos;
    }

    /** One resource record at the end of the message, or no claim on failure. */
    method AppendRr(name: Text, kind: u16, cls: u16, ttl: u32, rdata: seq<byte>) returns (ok: bool)
      requires Ok() && |rdata| < 0x1_0000
      modifies this, buf
      ensures ok == Write(old(Contents()), Record(name, Body(kind, cls, ttl, rdata)), buf.Length).Some?
      ensures ok ==> Ok() && Contents() == Write(old(Contents()), Record(name, Body(kind, cls, ttl, rdata)), buf.Length).value
      ensures !ok ==> off == old(off) && buf[..off] == old(buf[..off]) && owners == old(owners)
    {
      hide Emit, NameLabels, MessageOk, Body, Patched;
      ghost var x := Contents();
      MessageOffsets(x);
      ghost var e := Record(name, Body(kind, cls, ttl, rdata));
      ghost var r := Emit(sources, NameLabels(name), off, buf.Length);
      var n := NameToWire(name, off);
      PatchPrefix(old(buf[..]), off, r.bytes);
      if n < 0 || off + n + 10 + |rdata| > buf.Length {
        assert buf[..off] == buf[..][..off];
        return false;
      }
      WriteOk(x, e, buf.Length);
      var body := Body(kind, cls, ttl, rdata);
      Copy(buf, off + n, body);
      PatchTwice(old(buf[..]), off, r.bytes, body);
      owners := owners + [Owner(off, name, off + n)];
      off := off + n + |body|;
      assert buf[..off] == buf[..][..off];
      return true;
    }

    /** Bytes the caller writes itself, such as a record with a plain owner. */
    method AppendRaw(bs: seq<byte>) returns (ok: bool)
      requires Ok()
      modifies this, buf
      ensures ok == Write(old(Contents()), Raw(bs), buf.Length).Some?
      ensures Ok() && Contents() == if ok then Write(old(Contents()), Raw(bs), buf.Length).value else old(Contents())
    {
      hide SourceOk, OwnerOk;
      ghost var x := Contents();
      if off + |bs| > buf.Length { return false; }
      WriteOk(x, Raw(bs), buf.Length);
      Copy(buf, off, bs);
      assert buf[..off + |bs|] == x.bytes + bs;
      off := off + |bs|;
      return true;
    }
  }

  lemma PointerBytes(off: nat)
    requires off < MAX_OFFSET
    ensures 192 + off / 256 < 256 && Pointer(off) == [192 + off / 256, off % 256]
  {
  }

  // ---- the decoder loop ----------------------------------------------------

  lemma Slice(b: seq<byte>, n: nat, i: nat, j: nat)
    requires i <= j <= n <= |b|
    ensures b[..n][i..j] == b[i..j]
  {
  }

  method ReadName(pkt: array<byte>, plen: nat, off: nat, olen: nat) returns (r: Option<(Text, nat)>)
    requires plen <= pkt.Length
    ensures r == NameFromWire(pkt[..plen], off, olen)
  {
    hide Lower, Append;
    ghost var m := pkt[..plen];
    var p: nat, out: Text, ret: Option<nat>, steps: nat := off, [], None, 0;
    while steps < MAX_STEPS
      invariant 0 <= steps <= MAX_STEPS
      invariant Decode(m, p, MAX_STEPS - steps, out, ret, olen) == Decode(m, off, MAX_STEPS, [], None, olen)
      decreases MAX_STEPS - steps
    {
      steps := steps + 1;
      if p >= plen { return None; }
      var c := pkt[p];
      assert c == m[p];
      if c >= 192 {
        if p + 1 >= plen { return None; }
        assert pkt[p + 1] == m[p + 1];
        var ptr := (c - 192) * 256 + pkt[p + 1] as int;
        if ptr >= p { return None; }
        if ret.None? { ret := Some(p + 2); }
        p := ptr;
      } else if c == 0 {
        return Some((Lower(out), if ret.Some? then ret.value else p + 1));
      } else {
        if p + 1 + c > plen || |out| + c + 1 >= olen { return None; }
        Slice(pkt[..], plen, p + 1, p + 1 + c);
        out := Append(out, pkt[p + 1..p + 1 + c]);
        p := p + 1 + c;
      }
    }
    return Some((Lower(out), if ret.Some? then ret.value else p));
  }
}
