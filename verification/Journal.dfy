/** The files of a store, written and read record by record: the write-ahead log,
    the snapshot, opening and checkpointing. */
module Journal {
  import opened Bytes
  import opened Graph
  import opened Replay
  import opened Wal
  import opened Snapshot
  import opened Recovery

  // ---- write-ahead log -----------------------------------------------------

  lemma {:induction false} EncodeRedosSnoc(ws: seq<Redo>, w: Redo)
    requires AllFit(ws) && Fits(w)
    ensures AllFit(ws + [w]) && EncodeRedos(ws + [w]) == EncodeRedos(ws) + Encode(w)
    decreases |ws|
  {
    hide Encode, Fits;
    if ws == [] {
      assert ws + [w] == [w] && [w][1..] == [];
      assert Encode(w) + [] == Encode(w);
    } else {
      assert (ws + [w])[0] == ws[0] && (ws + [w])[1..] == ws[1..] + [w];
      EncodeRedosSnoc(ws[1..], w);
      assert Encode(ws[0]) + (EncodeRedos(ws[1..]) + Encode(w)) == (Encode(ws[0]) + EncodeRedos(ws[1..])) + Encode(w);
    }
  }

  /** Begin mark, records, commit mark, appended to the log. */
  method WriteTxn(f: seq<byte>, t: Txn) returns (g: seq<byte>)
    requires AllFit(t.redos)
    ensures g == f + EncodeTxn(t)
  {
    hide Encode, Fits, EncodeRedos, U32;
    var begin: seq<byte> := [1] + U32(t.id);
    g := f + begin;
    ghost var body: seq<byte> := [];
    assert body == EncodeRedos(t.redos[..0]) by { NoRedos(); assert t.redos[..0] == []; }
    for i := 0 to |t.redos|
      invariant AllFit(t.redos[..i]) && body == EncodeRedos(t.redos[..i]) && g == f + begin + body
    {
      EncodeRedosSnoc(t.redos[..i], t.redos[i]);
      assert t.redos[..i + 1] == t.redos[..i] + [t.redos[i]];
      assert f + begin + body + Encode(t.redos[i]) == f + begin + (body + Encode(t.redos[i]));
      g := g + Encode(t.redos[i]);
      body := body + Encode(t.redos[i]);
    }
    assert t.redos[..|t.redos|] == t.redos;
    var commit: seq<byte> := [2] + U32(t.id);
    assert f + begin + body + commit == f + (begin + (body + commit));
    g := g + commit;
  }

  lemma NoRedos()
    ensures EncodeRedos([]) == []
  {
  }

  /** Apply buffered records in order; None when one cannot be applied. */
  method RedoRecords(s: State, ws: seq<Redo>) returns (r: Option<State>)
    ensures r == RedoAll(s, ws)
  {
    hide RedoOne;
    var t := s;
    assert ws[0..] == ws;
    for i := 0 to |ws|
      invariant RedoAll(t, ws[i..]) == RedoAll(s, ws)
    {
      assert ws[i..][1..] == ws[i + 1..];
      var u := RedoOne(t, ws[i]);
      if u.None? { return None; }
      t := u.value;
    }
    return Some(t);
  }

  /** The replay loop: buffer the records between begin and commit, apply them at
      the matching commit, stop at the first thing that is not whole. */
  method ReplayLog(f: seq<byte>, s: State, gen: u32, nextTxn: nat) returns (r: Option<Out>)
    ensures r == ReplayWal(f, s, gen, nextTxn)
  {
    hide RU32, ReadEntry, RedoAll, ReplayFrom;
    var m := RU32(f, 0);
    if m.Fail? || m.value != MAGIC { return None; }
    var v := RU32(f, 4);
    if v.Fail? || v.value != VERSION { return None; }
    var b := RU32(f, 8);
    if b.Fail? { return None; }
    var o := Out(s, HEADER_LEN, nextTxn);
    if b.value != gen { return Some(o); }
    var p, pend := HEADER_LEN, Idle;
    while true
      invariant ReplayFrom(f, p, o, pend) == ReplayWal(f, s, gen, nextTxn)
      decreases |f| - p
    {
      ReplayStep(f, p, o, pend);
      var e := ReadEntry(f, p);
      if e.Fail? { return Some(o); }
      match e.value {
        case EBegin(t) => pend := Begun(t, []);
        case ERec(w) =>
          if pend.Idle? || |pend.redos| >= MAX_RECS { return Some(o); }
          pend := Begun(pend.txn, pend.redos + [w]);
        case ECommit(t) =>
          if pend.Idle? || pend.txn != t { return Some(o); }
          var u := RedoRecords(o.state, pend.redos);
          if u.None? { return None; }
          o := Out(u.value, e.pos, if t >= o.nextTxn then (t + 1) % 0x1_0000_0000 else o.nextTxn);
          pend := Idle;
      }
      p := e.pos;
    }
  }

  lemma ReplayStep(f: seq<byte>, p: nat, o: Out, pend: Pending)
    ensures var e := ReadEntry(f, p);
            ReplayFrom(f, p, o, pend) ==
            if e.Fail? then Some(o)
            else if e.value.EBegin? then ReplayFrom(f, e.pos, o, Begun(e.value.txn, []))
            else if e.value.ERec? then
              if pend.Idle? || |pend.redos| >= MAX_RECS then Some(o)
              else ReplayFrom(f, e.pos, o, Begun(pend.txn, pend.redos + [e.value.redo]))
            else if pend.Idle? || pend.txn != e.value.txn then Some(o)
            else
              var r := RedoAll(o.state, pend.redos);
              if r.None? then None
              else ReplayFrom(f, e.pos, Out(r.value, e.pos,
                                            if e.value.txn >= o.nextTxn then (e.value.txn + 1) % 0x1_0000_0000
                                            else o.nextTxn), Idle)
  {
    hide ReadEntry, RedoAll;
  }

  // ---- snapshot ------------------------------------------------------------

  method UsedOnly(rs: seq<Root>) returns (us: seq<Root>)
    ensures us == UsedRoots(rs)
  {
    us := [];
    assert rs[0..] == rs;
    for i := 0 to |rs|
      invariant us + UsedRoots(rs[i..]) == UsedRoots(rs)
    {
      assert rs[i..][1..] == rs[i + 1..];
      if rs[i].used {
        assert us + ([rs[i]] + UsedRoots(rs[i + 1..])) == (us + [rs[i]]) + UsedRoots(rs[i + 1..]);
        us := us + [rs[i]];
      }
    }
    assert rs[|rs|..] == [] && us + [] == us;
  }

  method WriteRoots(rs: seq<Root>) returns (f: seq<byte>)
    requires RootsFit(rs)
    ensures f == SaveRoots(rs)
  {
    hide Str, U32;
    f := [];
    assert rs[0..] == rs;
    for i := 0 to |rs|
      invariant RootsFit(rs[i..]) && f + SaveRoots(rs[i..]) == SaveRoots(rs)
    {
      assert rs[i..][1..] == rs[i + 1..] && rs[i..][0] == rs[i];
      RootBytes(f, Str(rs[i].name), U32(rs[i].obj), SaveRoots(rs[i + 1..]));
      f := f + (Str(rs[i].name) + U32(rs[i].obj));
    }
    assert rs[|rs|..] == [] && f + [] == f;
  }

  lemma RootBytes(f: seq<byte>, a: seq<byte>, b: seq<byte>, rest: seq<byte>)
    ensures f + (a + (b + rest)) == (f + (a + b)) + rest
  {
  }

  lemma UsedFit(rs: seq<Root>)
    requires RootsFit(rs)
    ensures RootsFit(UsedRoots(rs))
  {
  }

  lemma TableFits(s: State)
    requires SnapFits(s)
    ensures forall i :: 0 <= i < |s.order| ==> s.order[i] in s.heap && s.order[i] < 0x1_0000_0000 && ObjFits(s.heap[s.order[i]])
  {
    hide ObjFits;
  }

  method WriteObjects(s: State) returns (f: seq<byte>)
    requires SnapFits(s)
    ensures f == SaveObjs(s.order, s.heap)
  {
    hide ObjFits, SaveBody, U32, KindCode, SaveObjs;
    TableFits(s);
    f := [];
    var ids := s.order;
    assert ids[0..] == ids;
    for i := 0 to |ids|
      invariant f + SaveObjs(ids[i..], s.heap) == SaveObjs(ids, s.heap)
    {
      var b := s.heap[ids[i]];
      ghost var rest := SaveObjs(ids[i + 1..], s.heap);
      SaveStep(ids, s.heap, i);
      ObjStep(f, U32(ids[i]), [KindCode(b)], SaveBody(b), rest);
      f := f + (U32(ids[i]) + ([KindCode(b)] + SaveBody(b)));
    }
    SaveNone(s.heap);
    assert ids[|ids|..] == [] && f + [] == f;
  }

  lemma SaveNone(heap: map<Id, Body>)
    ensures SaveObjs([], heap) == []
  {
  }

  lemma SaveStep(ids: seq<Id>, heap: map<Id, Body>, i: nat)
    requires forall j :: 0 <= j < |ids| ==> ids[j] in heap && ids[j] < 0x1_0000_0000 && ObjFits(heap[ids[j]])
    requires i < |ids|
    ensures SaveObjs(ids[i..], heap) ==
            U32(ids[i]) + ([KindCode(heap[ids[i]])] + (SaveBody(heap[ids[i]]) + SaveObjs(ids[i + 1..], heap)))
  {
    hide ObjFits, SaveBody, U32, KindCode;
    assert ids[i..][1..] == ids[i + 1..] && ids[i..][0] == ids[i];
  }

  lemma ObjStep(f: seq<byte>, a: seq<byte>, b: seq<byte>, c: seq<byte>, rest: seq<byte>)
    ensures f + (a + (b + (c + rest))) == (f + (a + (b + c))) + rest
  {
  }

  method SaveStore(s: State, gen: u32) returns (f: seq<byte>)
    requires SnapFits(s)
    ensures f == Save(s, gen)
  {
    hide U32, SaveObjs, SaveRoots, UsedRoots, ObjFits;
    var objs := WriteObjects(s);
    UsedFit(s.roots);
    var us := UsedOnly(s.roots);
    var roots := WriteRoots(us);
    f := U32(SNAP_MAGIC) + (U32(SNAP_VERSION) + (U32(gen) + (U32(s.nextId) + (U32(|s.order|) + (objs + (U32(|us|) + roots))))));
  }

  method ReadTable(f: seq<byte>, p: nat, n: nat, nextId: Id, gens: set<Text>) returns (r: Read<(seq<Id>, map<Id, Body>)>)
    ensures r == ReadObjs(f, p, n, nextId, [], map[], gens)
  {
    hide RU32, RU8, ReadBody;
    var q: nat, order: seq<Id>, heap: map<Id, Body> := p, [], map[];
    for i := 0 to n
      invariant ReadObjs(f, q, n - i, nextId, order, heap, gens) == ReadObjs(f, p, n, nextId, [], map[], gens)
    {
      var id := RU32(f, q);
      if id.Fail? { return Fail; }
      var kind := RU8(f, id.pos);
      if kind.Fail? { return Fail; }
      if id.value == 0 || id.value >= nextId { return Fail; }
      var b := ReadBody(f, kind.pos, kind.value, gens);
      if b.Fail? { return Fail; }
      order, heap, q := order + [id.value], heap[id.value := b.value], b.pos;
    }
    return Got((order, heap), q);
  }

  method ReadRootTable(f: seq<byte>, p: nat, n: nat, keys: set<Id>) returns (r: Read<seq<Root>>)
    ensures r == ReadRoots(f, p, n, keys)
  {
    hide RU32, RStr;
    var q: nat, rs: seq<Root> := p, [];
    ghost var all := ReadRoots(f, p, n, keys);
    assert all.Got? ==> [] + all.value == all.value;
    for i := 0 to n
      invariant var rest := ReadRoots(f, q, n - i, keys);
                (rest.Fail? <==> all.Fail?) && (rest.Got? ==> all == Got(rs + rest.value, rest.pos))
    {
      var k := RStr(f, q);
      if k.Fail? { return Fail; }
      var v := RU32(f, k.pos);
      if v.Fail? { return Fail; }
      var root := Root(Trunc(k.value), if v.value in keys then v.value else 0, true);
      ghost var rest := ReadRoots(f, v.pos, n - i - 1, keys);
      assert rest.Got? ==> rs + ([root] + rest.value) == (rs + [root]) + rest.value;
      rs, q := rs + [root], v.pos;
    }
    assert rs + [] == rs;
    return Got(rs, q);
  }

  method LoadStore(f: seq<byte>, gens: set<Text>) returns (r: Option<Snap>)
    ensures r == Load(f, gens)
  {
    hide RU32, ReadObjs, ReadRoots, LinkAll;
    var m := RU32(f, 0);
    if m.Fail? || m.value != SNAP_MAGIC { return None; }
    var v := RU32(f, 4);
    if v.Fail? || v.value != SNAP_VERSION { return None; }
    var g := RU32(f, 8);
    if g.Fail? { return None; }
    var nx := RU32(f, 12);
    if nx.Fail? { return None; }
    var n := RU32(f, 16);
    if n.Fail? || !CountFits(f, 20, n.value, 5) { return None; }
    var o := ReadTable(f, 20, n.value, nx.value, gens);
    if o.Fail? { return None; }
    var heap := LinkAll(o.value.1);
    var nr := RU32(f, o.pos);
    if nr.Fail? || !CountFits(f, nr.pos, nr.value, 8) { return None; }
    var rs := ReadRootTable(f, nr.pos, nr.value, heap.Keys);
    if rs.Fail? { return None; }
    return Some(Snap(State(o.value.0, heap, nx.value, rs.value, gens), g.value));
  }

  // ---- the directory of a store --------------------------------------------

  class Disk {
    var snap: Option<seq<byte>>
    var wal: Option<seq<byte>>

    constructor ()
      ensures snap == None && wal == None
    {
      snap, wal := None, None;
    }

    /** Load the snapshot, replay the log, cut its torn tail or start a new one. */
    method OpenStore(gens: set<Text>) returns (x: Option<Session>)
      modifies this`wal
      ensures x == Open(snap, old(wal), gens)
      ensures wal == if x.Some? then Some(x.value.wal) else old(wal)
    {
      hide Load, ReplayWal;
      var base := Some(Snap(Fresh(gens), 1));
      if snap.Some? { base := LoadStore(snap.value, gens); }
      if base.None? { return None; }
      var s, gen := base.value.state, base.value.gen;
      if wal.None? {
        wal := Some(Header(gen));
        return Some(Session(s, gen, 1, snap, Header(gen)));
      }
      var o := ReplayLog(wal.value, s, gen, 1);
      if o.None? { return None; }
      if o.value.goodEnd < |wal.value| { wal := Some(wal.value[..o.value.goodEnd]); }
      return Some(Session(o.value.state, gen, if o.value.nextTxn == 0 then 1 else o.value.nextTxn % 0x1_0000_0000,
                          snap, wal.value));
    }

    /** Append one committed transaction. */
    method Commit(t: Txn)
      requires wal.Some? && AllFit(t.redos)
      modifies this`wal
      ensures wal == Some(old(wal).value + EncodeTxn(t))
    {
      var f := WriteTxn(wal.value, t);
      wal := Some(f);
    }

    /** A new snapshot of the next generation replaces the old one, then the log
        starts over. */
    method Checkpoint(x: Session) returns (y: Session)
      requires SnapFits(x.state)
      modifies this
      ensures y == TakeCheckpoint(x) && snap == y.snap && wal == Some(y.wal)
    {
      hide Save, SnapFits;
      var gen: u32 := (x.gen + 1) % 0x1_0000_0000;
      var f := SaveStore(x.state, gen);
      snap := Some(f);
      wal := Some(Header(gen));
      y := x.(gen := gen, snap := snap, wal := Header(gen));
    }
  }
}
