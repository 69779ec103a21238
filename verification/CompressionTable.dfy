/** What compression saves: the bytes of an emitted name and the suffixes it leaves in
    the table, and that a name written before is written again in two bytes. */
module CompressionTable {
  import opened Bytes
  import opened Dns = DnsOrder
  import opened DnsNames
  import opened Compression

  /** The labels stand in the table, up to case. */
  predicate Known(sources: seq<Source>, ls: seq<Text>) {
    exists k :: 0 <= k < |sources| && Lower(sources[k].name) == Lower(Join(ls))
  }

  /** The first source that holds them. */
  predicate FirstHit(sources: seq<Source>, ls: seq<Text>, k: nat) {
    && k < |sources| && Lower(sources[k].name) == Lower(Join(ls))
    && forall j :: 0 <= j < k ==> Lower(sources[j].name) != Lower(Join(ls))
  }

  /** The number of labels before the longest suffix that is known. */
  function Before(sources: seq<Source>, ls: seq<Text>): (i: nat)
    ensures i <= |ls|
    ensures i < |ls| ==> Known(sources, ls[i..])
    ensures forall j :: 0 <= j < i ==> !Known(sources, ls[j..])
  {
    if ls == [] then 0
    else if Known(sources, ls) then assert ls[0..] == ls; 0
    else
      var i := Before(sources, ls[1..]);
      BeforeShift(sources, ls, i);
      1 + i
  }

  lemma BeforeShift(sources: seq<Source>, ls: seq<Text>, i: nat)
    requires ls != [] && !Known(sources, ls) && i < |ls|
    requires i < |ls[1..]| ==> Known(sources, ls[1..][i..])
    requires forall j :: 0 <= j < i ==> !Known(sources, ls[1..][j..])
    ensures 1 + i < |ls| ==> Known(sources, ls[1 + i..])
    ensures forall j :: 0 <= j < 1 + i ==> !Known(sources, ls[j..])
  {
    hide Known;
    assert ls[1..][i..] == ls[1 + i..];
    forall j | 0 <= j < 1 + i ensures !Known(sources, ls[j..]) {
      if j == 0 { assert ls[0..] == ls; } else { assert ls[1..][j - 1..] == ls[j..]; }
    }
  }

  /** Labels as they stand on the wire, each behind its length. */
  function Wire(ls: seq<Text>): seq<byte>
    requires forall i :: 0 <= i < |ls| ==> |ls[i]| <= 63
  {
    if ls == [] then [] else [|ls[0]|] + ls[0] + Wire(ls[1..])
  }

  /** Where label `j` of a name at `pos` starts. */
  function Start(ls: seq<Text>, pos: nat, j: nat): nat
    requires j <= |ls|
  {
    if j == 0 then pos else Start(ls[1..], pos + 1 + |ls[0]|, j - 1)
  }

  // ---- registered suffixes do not match shorter ones ------------------------

  lemma KnownMore(sources: seq<Source>, ls: seq<Text>, pos: nat, ms: seq<Text>)
    requires |Join(ms)| < |Join(ls)| && |Suffix(ls)| == |Join(ls)|
    ensures var more := Registered(sources, Suffix(ls), pos);
            && (Known(more, ms) <==> Known(sources, ms))
            && forall k :: FirstHit(sources, ms, k) <==> FirstHit(more, ms, k)
  {
    hide Suffix, Join;
    var more := Registered(sources, Suffix(ls), pos);
    assert forall k :: 0 <= k < |sources| ==> more[k] == sources[k];
    if |more| > |sources| { assert |Lower(more[|sources|].name)| != |Lower(Join(ms))|; }
    if k :| 0 <= k < |sources| && Lower(sources[k].name) == Lower(Join(ms)) { assert more[k] == sources[k]; }
  }

  lemma {:induction false} ShorterSuffix(ls: seq<Text>, j: nat)
    requires AreLabels(ls) && 0 < j <= |ls|
    ensures |Join(ls[j..])| < |Join(ls)|
    decreases j
  {
    assert IsLabel(ls[0]);
    if j > 1 {
      assert ls[1..][j - 1..] == ls[j..];
      ShorterSuffix(ls[1..], j - 1);
    } else if |ls| == 1 {
      assert ls[1..] == [];
    }
  }

  lemma {:induction false} BeforeMore(sources: seq<Source>, ls: seq<Text>, pos: nat, j: nat)
    requires AreLabels(ls) && ls != [] && |Suffix(ls)| == |Join(ls)| && 0 < j <= |ls|
    ensures Before(Registered(sources, Suffix(ls), pos), ls[j..]) == Before(sources, ls[j..])
    decreases |ls| - j
  {
    hide Suffix, Join, Registered, Known;
    if j < |ls| {
      ShorterSuffix(ls, j);
      KnownMore(sources, ls, pos, ls[j..]);
      assert ls[j..][1..] == ls[j + 1..];
      BeforeMore(sources, ls, pos, j + 1);
    }
  }

  // ---- what an emission writes ---------------------------------------------

  lemma SuffixWhole(ls: seq<Text>)
    requires ls != [] && AreLabels(ls) && |Join(ls)| <= 255 && |ls[0]| <= 63
    ensures Suffix(ls) == Join(ls)
  {
    SuffixJoin(ls);
  }

  lemma HitOf(sources: seq<Source>, ls: seq<Text>)
    requires ls != [] && Suffix(ls) == Join(ls)
    ensures FindSource(sources, Suffix(ls)) < |sources| <==> Known(sources, ls)
    ensures Known(sources, ls) ==> FirstHit(sources, ls, FindSource(sources, Suffix(ls)))
  {
    hide FindSource, Suffix, Join, Lower;
  }

  lemma OneHit(sources: seq<Source>, ls: seq<Text>, a: nat, b: nat)
    requires FirstHit(sources, ls, a) && FirstHit(sources, ls, b)
    ensures a == b
  {
  }

  /** How a name ends of which `ls` is left: with the root, or with a pointer. */
  ghost predicate Ends(sources: seq<Source>, ls: seq<Text>, tail: seq<byte>) {
    if ls == [] then tail == [0]
    else exists k: nat :: FirstHit(sources, ls, k) && sources[k].off < 0x4000
                          && tail == [192 + sources[k].off / 256, sources[k].off % 256]
  }

  /** The bytes of a name are its labels before the longest known suffix, and then
      either a pointer to that suffix or the root. */
  ghost predicate Written(sources: seq<Source>, ls: seq<Text>, bytes: seq<byte>)
    requires forall i :: 0 <= i < |ls| ==> |ls[i]| <= 63
  {
    var i := Before(sources, ls);
    exists tail :: Ends(sources, ls[i..], tail) && bytes == Wire(ls[..i]) + tail
  }

  lemma WireCons(ls: seq<Text>, i: nat, tail: seq<byte>)
    requires i < |ls| && forall i :: 0 <= i < |ls| ==> |ls[i]| <= 63
    ensures Wire(ls[..i + 1]) + tail == [|ls[0]|] + ls[0] + (Wire(ls[1..][..i]) + tail)
  {
    assert ls[..i + 1][0] == ls[0] && ls[..i + 1][1..] == ls[1..][..i];
    assert Wire(ls[..i + 1]) == [|ls[0]|] + ls[0] + Wire(ls[1..][..i]);
  }

  lemma WrittenPointer(sources: seq<Source>, ls: seq<Text>, k: nat)
    requires ls != [] && (forall i :: 0 <= i < |ls| ==> |ls[i]| <= 63) && Known(sources, ls) && FirstHit(sources, ls, k)
    requires sources[k].off < MAX_OFFSET
    ensures Written(sources, ls, Pointer(sources[k].off))
  {
    hide Known, Join, Lower;
    var i, tail := Before(sources, ls), Pointer(sources[k].off);
    assert i == 0 && ls[i..] == ls && ls[..i] == [];
    assert Ends(sources, ls[i..], tail);
    assert Wire(ls[..i]) + tail == tail;
  }

  lemma EndsMore(sources: seq<Source>, ls: seq<Text>, pos: nat, i: nat, tail: seq<byte>)
    requires ls != [] && AreLabels(ls) && |Suffix(ls)| == |Join(ls)| && 0 < i <= |ls|
    requires Ends(Registered(sources, Suffix(ls), pos), ls[i..], tail)
    ensures Ends(sources, ls[i..], tail)
  {
    hide Suffix, Join, Registered, Known, Lower;
    if i < |ls| {
      ShorterSuffix(ls, i);
      KnownMore(sources, ls, pos, ls[i..]);
      var more := Registered(sources, Suffix(ls), pos);
      var k: nat :| FirstHit(more, ls[i..], k) && more[k].off < 0x4000
                    && tail == [192 + more[k].off / 256, more[k].off % 256];
      SameSource(sources, Suffix(ls), pos, ls[i..], k);
    }
  }

  lemma WrittenLabel(sources: seq<Source>, ls: seq<Text>, pos: nat, rest: seq<byte>)
    requires ls != [] && AreLabels(ls) && (forall i :: 0 <= i < |ls| ==> |ls[i]| <= 63) && |Join(ls)| <= 255
    requires !Known(sources, ls) && Written(Registered(sources, Suffix(ls), pos), ls[1..], rest)
    ensures Written(sources, ls, [|ls[0]|] + ls[0] + rest)
  {
    SuffixWhole(ls);
    hide Suffix, Join, Registered, Known, FirstHit, Wire, Ends;
    var more, i := Registered(sources, Suffix(ls), pos), Before(sources, ls[1..]);
    BeforeMore(sources, ls, pos, 1);
    var tail :| Ends(more, ls[1..][i..], tail) && rest == Wire(ls[1..][..i]) + tail;
    assert ls[1..][i..] == ls[1 + i..];
    EndsMore(sources, ls, pos, 1 + i, tail);
    WireCons(ls, i, tail);
    assert Before(sources, ls) == 1 + i;
  }

  lemma SameSource(sources: seq<Source>, name: Text, pos: nat, ms: seq<Text>, k: nat)
    requires FirstHit(sources, ms, k)
    ensures k < |sources| && k < |Registered(sources, name, pos)| && Registered(sources, name, pos)[k] == sources[k]
  {
  }

  /** A successful emission writes its first labels plainly and the longest suffix that
      the table knows as two bytes. */
  lemma {:induction false} EmitWrites(sources: seq<Source>, ls: seq<Text>, pos: nat, blen: nat)
    requires OffsetsOk(sources) && AreLabels(ls) && |Join(ls)| <= 255 && (forall i :: 0 <= i < |ls| ==> |ls[i]| <= 63)
    requires Emit(sources, ls, pos, blen).ok
    ensures Written(sources, ls, Emit(sources, ls, pos, blen).bytes)
    decreases |ls|
  {
    hide Suffix, Join, FindSource, Pointer, Known, Written, Lower;
    if ls == [] {
      WrittenRoot(sources);
    } else {
      assert IsLabel(ls[0]);
      SuffixWhole(ls);
      HitOf(sources, ls);
      var k := FindSource(sources, Suffix(ls));
      if k < |sources| {
        WrittenPointer(sources, ls, k);
      } else {
        TailJoin(ls);
        EmitWrites(Registered(sources, Suffix(ls), pos), ls[1..], pos + 1 + |ls[0]|, blen);
        WrittenLabel(sources, ls, pos, Emit(Registered(sources, Suffix(ls), pos), ls[1..], pos + 1 + |ls[0]|, blen).bytes);
      }
    }
  }

  /** The bytes a name takes: its labels before the longest known suffix, then two for
      a pointer or one for the root. */
  ghost function Room(sources: seq<Source>, ls: seq<Text>): nat
    requires forall i :: 0 <= i < |ls| ==> |ls[i]| <= 63
  {
    var i := Before(sources, ls);
    |Wire(ls[..i])| + if i < |ls| then 2 else 1
  }

  lemma RoomCons(sources: seq<Source>, ls: seq<Text>)
    requires ls != [] && !Known(sources, ls) && forall i :: 0 <= i < |ls| ==> |ls[i]| <= 63
    ensures Room(sources, ls) == 1 + |ls[0]| + Room(sources, ls[1..])
  {
    hide Known, Wire;
    WireCons(ls, Before(sources, ls[1..]), []);
  }

  lemma RoomKnown(sources: seq<Source>, ls: seq<Text>)
    requires ls != [] && Known(sources, ls) && forall i :: 0 <= i < |ls| ==> |ls[i]| <= 63
    ensures Room(sources, ls) == 2
  {
    hide Known;
    assert ls[..0] == [];
  }

  /** Emission succeeds exactly when those bytes fit. */
  lemma {:induction false} EmitRoom(sources: seq<Source>, ls: seq<Text>, pos: nat, blen: nat)
    requires OffsetsOk(sources) && AreLabels(ls) && |Join(ls)| <= 255 && (forall i :: 0 <= i < |ls| ==> |ls[i]| <= 63)
    ensures Emit(sources, ls, pos, blen).ok <==> pos + Room(sources, ls) <= blen
    decreases |ls|
  {
    hide Suffix, Join, FindSource, Pointer, Known, Lower, Registered;
    if ls == [] {
      assert ls[..Before(sources, ls)] == [];
    } else {
      assert IsLabel(ls[0]);
      SuffixWhole(ls);
      HitOf(sources, ls);
      if Known(sources, ls) {
        RoomKnown(sources, ls);
      } else {
        TailJoin(ls);
        RoomCons(sources, ls);
        var more := Registered(sources, Suffix(ls), pos);
        assert OffsetsOk(more) by { RegisteredOk(sources, Suffix(ls), pos); }
        EmitRoom(more, ls[1..], pos + 1 + |ls[0]|, blen);
        BeforeMore(sources, ls, pos, 1);
      }
    }
  }

  lemma RegisteredOk(sources: seq<Source>, name: Text, pos: nat)
    requires OffsetsOk(sources)
    ensures OffsetsOk(Registered(sources, name, pos))
  {
  }

  lemma WrittenRoot(sources: seq<Source>)
    ensures Written(sources, [], [0])
  {
    var ls: seq<Text> := [];
    var i := Before(sources, ls);
    assert ls[i..] == [] && ls[..i] == [];
    assert Ends(sources, ls[i..], [0]) && [0] == Wire(ls[..i]) + [0];
  }

  // ---- what an emission registers ------------------------------------------

  /** Suffix `j` of a name at `pos` goes into the table of `n` sources. */
  predicate Taken(ls: seq<Text>, pos: nat, n: nat, j: nat)
    requires j <= |ls|
  {
    n + j < 128 && Start(ls, pos, j) < 0x4000
  }

  /** The table after a name whose first `i` labels were written. */
  ghost predicate Tabled(was: seq<Source>, now: seq<Source>, ls: seq<Text>, pos: nat, i: nat)
    requires i <= |ls|
  {
    && was <= now && |now| <= |was| + i
    && forall j :: 0 <= j < i ==>
         && (|was| + j < |now| <==> Taken(ls, pos, |was|, j))
         && (|was| + j < |now| ==> now[|was| + j] == Source(Join(ls[j..]), Start(ls, pos, j)))
  }

  lemma {:induction false} StartGrows(ls: seq<Text>, pos: nat, j: nat)
    requires j <= |ls|
    ensures Start(ls, pos, j) >= pos
    decreases j
  {
    if j > 0 { StartGrows(ls[1..], pos + 1 + |ls[0]|, j - 1); }
  }

  lemma {:induction false} TakenNone(was: seq<Source>, ls: seq<Text>, pos: nat, i: nat)
    requires i <= |ls| && (|was| >= 128 || pos >= 0x4000)
    ensures Tabled(was, was, ls, pos, i)
  {
    forall j | 0 <= j < i ensures !Taken(ls, pos, |was|, j) { StartGrows(ls, pos, j); }
  }

  lemma TabledLabel(was: seq<Source>, now: seq<Source>, ls: seq<Text>, pos: nat, i: nat)
    requires ls != [] && i < |ls| && Suffix(ls) == Join(ls)
    requires Tabled(Registered(was, Suffix(ls), pos), now, ls[1..], pos + 1 + |ls[0]|, i)
    ensures Tabled(was, now, ls, pos, 1 + i)
  {
    hide Suffix, Join;
    var more := Registered(was, Suffix(ls), pos);
    if |more| == |was| {
      StillNone(more, now, ls, pos, i);
      TakenNone(was, ls, pos, 1 + i);
    } else {
      assert more == was + [Source(Join(ls), pos)];
      forall j | 0 <= j < 1 + i
        ensures |was| + j < |now| <==> Taken(ls, pos, |was|, j)
        ensures |was| + j < |now| ==> now[|was| + j] == Source(Join(ls[j..]), Start(ls, pos, j))
      {
        if j == 0 {
          assert ls[0..] == ls && now[|was|] == more[|was|];
        } else {
          assert ls[1..][j - 1..] == ls[j..];
          assert Taken(ls, pos, |was|, j) <==> Taken(ls[1..], pos + 1 + |ls[0]|, |more|, j - 1);
        }
      }
    }
  }

  lemma StillNone(was: seq<Source>, now: seq<Source>, ls: seq<Text>, pos: nat, i: nat)
    requires ls != [] && i < |ls| && Tabled(was, now, ls[1..], pos + 1 + |ls[0]|, i) && (|was| >= 128 || pos >= 0x4000)
    ensures now == was
  {
    if i > 0 { assert !Taken(ls[1..], pos + 1 + |ls[0]|, |was|, 0); }
    assert |now| == |was|;
  }

  /** It registers exactly the suffixes it starts with a label, while the table has room
      and they start below offset 0x4000. */
  lemma {:induction false} EmitRegisters(sources: seq<Source>, ls: seq<Text>, pos: nat, blen: nat)
    requires OffsetsOk(sources) && AreLabels(ls) && |Join(ls)| <= 255 && (forall i :: 0 <= i < |ls| ==> |ls[i]| <= 63)
    requires Emit(sources, ls, pos, blen).ok
    ensures Tabled(sources, Emit(sources, ls, pos, blen).sources, ls, pos, Before(sources, ls))
    decreases |ls|
  {
    hide Suffix, Join, FindSource, Pointer, Known, FirstHit, Tabled;
    if ls == [] {
      NothingTabled(sources, ls, pos);
    } else {
      assert IsLabel(ls[0]);
      SuffixWhole(ls);
      HitOf(sources, ls);
      if FindSource(sources, Suffix(ls)) < |sources| {
        NothingTabled(sources, ls, pos);
      } else {
        TailJoin(ls);
        var more := Registered(sources, Suffix(ls), pos);
        EmitRegisters(more, ls[1..], pos + 1 + |ls[0]|, blen);
        BeforeMore(sources, ls, pos, 1);
        TabledLabel(sources, Emit(more, ls[1..], pos + 1 + |ls[0]|, blen).sources, ls, pos, Before(sources, ls[1..]));
      }
    }
  }

  lemma NothingTabled(sources: seq<Source>, ls: seq<Text>, pos: nat)
    ensures Tabled(sources, sources, ls, pos, 0)
  {
  }

  // ---- a name written before -----------------------------------------------

  /** A name whose labels the table knows, up to case, takes exactly two bytes. */
  lemma KnownTwoBytes(sources: seq<Source>, ls: seq<Text>, pos: nat, blen: nat)
    requires OffsetsOk(sources) && AreLabels(ls) && |Join(ls)| <= 255 && (forall i :: 0 <= i < |ls| ==> |ls[i]| <= 63)
    requires ls != [] && Known(sources, ls) && Emit(sources, ls, pos, blen).ok
    ensures |Emit(sources, ls, pos, blen).bytes| == 2
  {
    hide Emit, Join, Known, FirstHit;
    EmitWrites(sources, ls, pos, blen);
    assert ls[..0] == [] && ls[0..] == ls;
  }

  lemma KnownPrefix(was: seq<Source>, now: seq<Source>, ls: seq<Text>)
    requires was <= now && Known(was, ls)
    ensures Known(now, ls)
  {
    var k :| 0 <= k < |was| && Lower(was[k].name) == Lower(Join(ls));
    assert now[k] == was[k];
  }

  lemma KnownFold(sources: seq<Source>, ls: seq<Text>, ms: seq<Text>)
    requires Known(sources, ls) && AreLabels(ls) && AreLabels(ms) && LowerAll(ls) == LowerAll(ms)
    ensures Known(sources, ms)
  {
    hide Join, Lower;
    SameName(ls, ms);
  }

  /** Once a name has been emitted, the table knows it, unless it was full or the name
      lay too far out. */
  lemma EmittedKnown(sources: seq<Source>, ls: seq<Text>, pos: nat, blen: nat)
    requires OffsetsOk(sources) && AreLabels(ls) && |Join(ls)| <= 255 && (forall i :: 0 <= i < |ls| ==> |ls[i]| <= 63)
    requires ls != [] && Emit(sources, ls, pos, blen).ok && |sources| < 128 && pos < 0x4000
    ensures Known(Emit(sources, ls, pos, blen).sources, ls)
  {
    hide Emit, Join;
    EmitRegisters(sources, ls, pos, blen);
    var now := Emit(sources, ls, pos, blen).sources;
    if Known(sources, ls) {
      KnownPrefix(sources, now, ls);
    } else {
      assert Taken(ls, pos, |sources|, 0) && ls[0..] == ls;
      assert now[|sources|] == Source(Join(ls), pos);
    }
  }

  lemma TableGrows(sources: seq<Source>, ls: seq<Text>, pos: nat, blen: nat)
    requires OffsetsOk(sources) && AreLabels(ls) && |Join(ls)| <= 255 && (forall i :: 0 <= i < |ls| ==> |ls[i]| <= 63)
    requires Emit(sources, ls, pos, blen).ok
    ensures sources <= Emit(sources, ls, pos, blen).sources
  {
    hide Emit, Join;
    EmitRegisters(sources, ls, pos, blen);
  }

  lemma {:induction false} TailShort(m: seq<byte>, p: nat, ls: seq<Text>, i: nat)
    requires Tail(m, p, ls) && i < |ls|
    ensures |ls[i]| <= 63
    decreases |ls|
  {
    var q := if Here(m, p, ls) then p else (m[p] - 192) * 256 + m[p + 1] as int;
    assert Here(m, q, ls);
    if i > 0 {
      assert ls[1..][i - 1] == ls[i];
      TailShort(m, q + 1 + |ls[0]|, ls[1..], i - 1);
    }
  }

  /** What a record that is written tells of its owner name. */
  lemma RecordFacts(x: Message, e: Event, blen: nat)
    requires MessageOk(x) && e.Record? && Write(x, e, blen).Some?
    ensures var ls := NameLabels(e.name);
            && OffsetsOk(x.sources) && AreLabels(ls) && |Join(ls)| <= 255 && (forall i :: 0 <= i < |ls| ==> |ls[i]| <= 63)
            && Emit(x.sources, ls, |x.bytes|, blen).ok
            && var y := Write(x, e, blen).value;
            && y.sources == Emit(x.sources, ls, |x.bytes|, blen).sources
            && y.owners == x.owners + [Owner(|x.bytes|, e.name, |x.bytes| + |Emit(x.sources, ls, |x.bytes|, blen).bytes|)]
  {
    hide Emit, NameLabels, Join, Tail, TailEnd, SourceOk;
    var ls, y := NameLabels(e.name), Write(x, e, blen).value;
    NameLabelsOk(e.name);
    WriteOk(x, e, blen);
    var o := y.owners[|x.owners|];
    assert OwnerOk(y.bytes, o);
    forall i | 0 <= i < |ls| ensures |ls[i]| <= 63 {
      TailShort(y.bytes, o.off, LowerAll(ls), i);
    }
  }

  lemma StepGrows(x: Message, e: Event, blen: nat)
    requires MessageOk(x) && OffsetsOk(x.sources) && Write(x, e, blen).Some?
    ensures x.sources <= Write(x, e, blen).value.sources
  {
    hide Emit, NameLabels, MessageOk, Join;
    if e.Record? {
      RecordFacts(x, e, blen);
      TableGrows(x.sources, NameLabels(e.name), |x.bytes|, blen);
    }
  }

  lemma {:induction false} RunGrows(xs: seq<Message>, es: seq<Event>, blen: nat, i: nat, j: nat)
    requires Execution(xs, es, blen) && i <= j <= |es|
    ensures xs[i].sources <= xs[j].sources
    decreases j
  {
    hide Write, MessageOk;
    if i < j {
      RunGrows(xs, es, blen, i, j - 1);
      RunOk(xs, es, blen, j - 1);
      assert Write(xs[j - 1], es[j - 1], blen) == Some(xs[j]);
      StepGrows(xs[j - 1], es[j - 1], blen);
    }
  }

  /** In any run of appends, a name that was appended while the table had room, below
      offset 0x4000, takes two bytes whenever it is appended again, in any case. */
  lemma RunCompresses(xs: seq<Message>, es: seq<Event>, blen: nat, i: nat, j: nat)
    requires Execution(xs, es, blen) && i < j < |es| && es[i].Record? && es[j].Record?
    requires NameLabels(es[i].name) != [] && LowerAll(NameLabels(es[i].name)) == LowerAll(NameLabels(es[j].name))
    requires |xs[i].sources| < 128 && |xs[i].bytes| < 0x4000
    ensures |xs[j + 1].owners| == |xs[j].owners| + 1
    ensures xs[j + 1].owners[|xs[j].owners|] == Owner(|xs[j].bytes|, es[j].name, |xs[j].bytes| + 2)
  {
    assert Write(xs[i], es[i], blen) == Some(xs[i + 1]) && Write(xs[j], es[j], blen) == Some(xs[j + 1]);
    RunOk(xs, es, blen, i);
    RunOk(xs, es, blen, j);
    RunGrows(xs, es, blen, i + 1, j);
    hide Emit, NameLabels, MessageOk, Join, Known, Write, Execution;
    var a, b := NameLabels(es[i].name), NameLabels(es[j].name);
    RecordFacts(xs[i], es[i], blen);
    RecordFacts(xs[j], es[j], blen);
    EmittedKnown(xs[i].sources, a, |xs[i].bytes|, blen);
    KnownPrefix(xs[i + 1].sources, xs[j].sources, a);
    KnownFold(xs[j].sources, a, b);
    KnownTwoBytes(xs[j].sources, b, |xs[j].bytes|, blen);
  }
}
