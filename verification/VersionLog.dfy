/** The durable version log: one record per committed transaction that touched
    an object, never truncated by a checkpoint. */
module VersionLog {
  import opened Bytes
  import opened Graph

  const MAGIC: u32 := 0x56474F50
  const VERSION: u32 := 1
  const HEADER_LEN := 8

  /** Most entries that a scan buffers for one record. */
  const MAX_ENTRIES := 0x100_0000

  datatype Change = Change(id: u32, isCreate: bool, cls: Text)

  datatype Record = Record(version: u32, changes: seq<Change>)

  /** What the callback of a query is given. */
  datatype Seen = Seen(version: u32, change: Change)

  // ---- the entries of a transaction ----------------------------------------

  /** The object a log record is about; binding a root is about none. */
  function Target(w: Redo): Option<Id> {
    if w.WBind? || w.WUnbind? then None else Some(w.id)
  }

  function ClassAt(s: State, id: Id): Text {
    if id in s.heap && s.heap[id].Composite? then s.heap[id].cls else []
  }

  function FindChange(es: seq<Change>, id: Id): (i: nat)
    ensures i <= |es|
    ensures i < |es| ==> es[i].id == id
    ensures forall j :: 0 <= j < i ==> es[j].id != id
  {
    if es == [] || es[0].id == id then 0 else 1 + FindChange(es[1..], id)
  }

  predicate IdsFit(log: seq<Rec>) {
    forall i :: 0 <= i < |log| ==> (Target(log[i].redo).Some? ==> Target(log[i].redo).value < 0x1_0000_0000)
  }

  /** One entry per touched object, in order of first touch. */
  function Entries(log: seq<Rec>, s: State): seq<Change>
    requires IdsFit(log)
  {
    if log == [] then []
    else
      var es, w := Entries(log[..|log| - 1], s), log[|log| - 1].redo;
      if Target(w).None? then es
      else
        var i := FindChange(es, w.id);
        if i < |es| then es[i := es[i].(isCreate := es[i].isCreate || w.WCreate?)]
        else es + [Change(w.id, w.WCreate?, ClassAt(s, w.id))]
  }

  /** A record creates the object or changes its value, fields, items or class. */
  predicate About(w: Redo, id: Id) {
    match w
    case WCreate(o, _) => o == id
    case WSetValue(o, _) => o == id
    case WSetField(o, _, _) => o == id
    case WListAppend(o, _) => o == id
    case WListSet(o, _, _) => o == id
    case WListInsert(o, _, _) => o == id
    case WListRemove(o, _) => o == id
    case WSetClass(o, _) => o == id
    case WBind(_, _) => false
    case WUnbind(_) => false
  }

  lemma TargetAbout(w: Redo, id: Id)
    ensures Target(w) == Some(id) <==> About(w, id)
  {
  }

  predicate Touches(log: seq<Rec>, id: Id) {
    exists i :: 0 <= i < |log| && About(log[i].redo, id)
  }

  predicate Creates(log: seq<Rec>, id: Id) {
    exists i :: 0 <= i < |log| && log[i].redo.WCreate? && log[i].redo.id == id
  }

  lemma SnocTouches(log: seq<Rec>, id: Id)
    requires log != []
    ensures Touches(log, id) <==> Touches(log[..|log| - 1], id) || About(log[|log| - 1].redo, id)
    ensures Creates(log, id) <==>
            Creates(log[..|log| - 1], id) || (log[|log| - 1].redo.WCreate? && log[|log| - 1].redo.id == id)
  {
    hide About;
    var front, n := log[..|log| - 1], |log| - 1;
    if i :| 0 <= i < |log| && About(log[i].redo, id) { if i < n { assert front[i] == log[i]; } }
    if i :| 0 <= i < |front| && About(front[i].redo, id) { assert front[i] == log[i]; }
    if i :| 0 <= i < |log| && log[i].redo.WCreate? && log[i].redo.id == id { if i < n { assert front[i] == log[i]; } }
    if i :| 0 <= i < |front| && front[i].redo.WCreate? && front[i].redo.id == id { assert front[i] == log[i]; }
  }

  /** Each object the transaction touched has exactly one entry, marked as a
      creation exactly when the transaction created it, with its final class. */
  lemma {:induction false} EntriesExact(log: seq<Rec>, s: State, id: Id)
    requires IdsFit(log)
    ensures var es := Entries(log, s);
            && (forall i, j :: 0 <= i < j < |es| ==> es[i].id != es[j].id)
            && (FindChange(es, id) < |es| <==> Touches(log, id))
            && (FindChange(es, id) < |es| ==>
                  (es[FindChange(es, id)]
                   == Change(id, Creates(log, id), if id in s.heap && s.heap[id].Composite? then s.heap[id].cls else [])))
    decreases |log|
  {
    hide FindChange, Touches, Creates, About, Target;
    if log == [] {
      NothingTouched(id);
      assert Entries(log, s) == [];
    } else {
      var front, w := log[..|log| - 1], log[|log| - 1].redo;
      EntriesExact(front, s, id);
      SnocTouches(log, id);
      CreateTouches(front, id);
      TargetAbout(w, id);
      TargetOf(w);
      if Target(w).Some? {
        EntriesExact(front, s, w.id);
        var es, es' := Entries(front, s), Entries(log, s);
        var k, i := FindChange(es, id), FindChange(es, w.id);
        FindChangeIs(es', id, if k < |es| || w.id == id then k else |es'|);
      }
    }
  }

  /** Entries stand in the order in which the objects were first touched. */
  lemma {:induction false} EntriesOrder(log: seq<Rec>, s: State, i: nat, j: nat) returns (a: nat)
    requires IdsFit(log) && i < j < |Entries(log, s)|
    ensures a < |log| && About(log[a].redo, Entries(log, s)[i].id)
    ensures forall b :: 0 <= b <= a ==> !About(log[b].redo, Entries(log, s)[j].id)
    decreases |log|
  {
    hide About, FindChange;
    var front, w := log[..|log| - 1], log[|log| - 1].redo;
    var es := Entries(front, s);
    if j < |es| {
      a := EntriesOrder(front, s, i, j);
      assert forall b :: 0 <= b <= a ==> front[b] == log[b];
    } else {
      hide Entries, Creates;
      EntriesExact(front, s, es[i].id);
      EntriesExact(front, s, w.id);
      FindChangeIs(es, es[i].id, FindChange(es, es[i].id));
      assert Touches(front, es[i].id);
      a :| 0 <= a < |front| && About(front[a].redo, es[i].id);
      forall b | 0 <= b <= a ensures !About(log[b].redo, w.id) { assert front[b] == log[b]; }
    }
  }

  lemma TargetOf(w: Redo)
    ensures Target(w).Some? ==> !w.WBind? && !w.WUnbind? && Target(w) == Some(w.id)
    ensures w.WCreate? ==> Target(w).Some?
  {
  }

  lemma CreateTouches(log: seq<Rec>, id: Id)
    ensures Creates(log, id) ==> Touches(log, id)
  {
  }

  lemma NothingTouched(id: Id)
    ensures !Touches([], id) && !Creates([], id) && FindChange([], id) == 0
  {
  }

  lemma FindChangeIs(es: seq<Change>, id: Id, i: nat)
    requires i <= |es| && (i < |es| ==> es[i].id == id)
    requires forall j :: 0 <= j < i ==> es[j].id != id
    ensures FindChange(es, id) == i
  {
  }

  /** The two nested loops that collect and deduplicate the entries. */
  method BuildEntries(log: seq<Rec>, s: State) returns (es: seq<Change>)
    requires IdsFit(log)
    ensures es == Entries(log, s)
    ensures forall i, j :: 0 <= i < j < |es| ==> es[i].id != es[j].id
    ensures forall id: Id :: (exists i :: 0 <= i < |es| && es[i].id == id) <==> Touches(log, id)
    ensures forall i :: 0 <= i < |es| ==> es[i].isCreate == Creates(log, es[i].id)
    ensures forall i :: 0 <= i < |es| ==>
              es[i].cls == if es[i].id in s.heap && s.heap[es[i].id].Composite? then s.heap[es[i].id].cls else []
  {
    hide FindChange, Touches, Creates;
    es := [];
    for n := 0 to |log|
      invariant es == Entries(log[..n], s)
    {
      assert log[..n + 1][..n] == log[..n];
      var w := log[n].redo;
      if !(w.WBind? || w.WUnbind?) {
        var j := 0;
        while j < |es| && es[j].id != w.id
          invariant j <= |es| && forall i :: 0 <= i < j ==> es[i].id != w.id
        {
          j := j + 1;
        }
        FindChangeIs(es, w.id, j);
        if j < |es| {
          es := es[j := es[j].(isCreate := es[j].isCreate || w.WCreate?)];
        } else {
          es := es + [Change(w.id, w.WCreate?, ClassAt(s, w.id))];
        }
      }
    }
    assert log[..|log|] == log;
    EntriesExact(log, s, 0);
    forall i | 0 <= i < |es|
      ensures es[i] == Change(es[i].id, Creates(log, es[i].id), ClassAt(s, es[i].id))
    {
      EntriesExact(log, s, es[i].id);
      FindChangeIs(es, es[i].id, i);
    }
    forall id: Id ensures (exists i :: 0 <= i < |es| && es[i].id == id) <==> Touches(log, id) {
      EntriesExact(log, s, id);
    }
  }

  // ---- file format ---------------------------------------------------------

  predicate Fits(r: Record) {
    |r.changes| < 0x1_0000_0000 && forall i :: 0 <= i < |r.changes| ==> |r.changes[i].cls| < 0x1_0000_0000
  }

  predicate ClassesReadable(cs: seq<Change>) {
    forall i :: 0 <= i < |cs| ==> |cs[i].cls| <= MAX_LEN
  }

  lemma AllReadable()
    ensures ClassesReadable([])
  {
  }

  predicate Readable(r: Record) {
    |r.changes| <= MAX_ENTRIES && ClassesReadable(r.changes)
  }

  predicate AllFit(rs: seq<Record>) {
    forall i :: 0 <= i < |rs| ==> Fits(rs[i])
  }

  function Header(): (r: seq<byte>)
    ensures |r| == HEADER_LEN
  {
    U32(MAGIC) + U32(VERSION)
  }

  function EncodeChange(c: Change): (r: seq<byte>)
    requires |c.cls| < 0x1_0000_0000
    ensures |r| == 9 + |c.cls|
  {
    U32(c.id) + ([if c.isCreate then 1 else 0] + Str(c.cls))
  }

  function EncodeChanges(cs: seq<Change>): seq<byte>
    requires forall i :: 0 <= i < |cs| ==> |cs[i].cls| < 0x1_0000_0000
  {
    if cs == [] then [] else EncodeChange(cs[0]) + EncodeChanges(cs[1..])
  }

  function EncodeRecord(r: Record): (bs: seq<byte>)
    requires Fits(r)
    ensures |bs| >= 8
  {
    U32(r.version) + (U32(|r.changes|) + EncodeChanges(r.changes))
  }

  function EncodeAll(rs: seq<Record>): seq<byte>
    requires AllFit(rs)
  {
    if rs == [] then [] else EncodeRecord(rs[0]) + EncodeAll(rs[1..])
  }

  function ReadChange(f: seq<byte>, p: nat): (r: Read<Change>)
    ensures r.Got? ==> p < r.pos <= |f|
  {
    var (id, p) :- RU32(f, p);
    var (c, p) :- RU8(f, p);
    var (cls, p) :- RStr(f, p);
    Got(Change(id, c != 0, cls), p)
  }

  function ReadChanges(f: seq<byte>, p: nat, n: nat): (r: Read<seq<Change>>)
    ensures r.Got? && p <= |f| ==> p <= r.pos <= |f|
    decreases n
  {
    if n == 0 then Got([], p)
    else
      var (c, q) :- ReadChange(f, p);
      var (cs, z) :- ReadChanges(f, q, n - 1);
      Got([c] + cs, z)
  }

  function ReadRecord(f: seq<byte>, p: nat): (r: Read<Record>)
    ensures r.Got? ==> p < r.pos <= |f|
  {
    var (v, p) :- RU32(f, p);
    var (n, p) :- RU32(f, p);
    if n > MAX_ENTRIES then Fail
    else
      var (cs, p) :- ReadChanges(f, p, n);
      Got(Record(v, cs), p)
  }

  lemma {:induction false} ChangesStable(f: seq<byte>, g: seq<byte>, p: nat, n: nat)
    requires f <= g && ReadChanges(f, p, n).Got?
    ensures ReadChanges(g, p, n) == ReadChanges(f, p, n)
    decreases n
  {
    hide RU8, RU32, RStr;
    if n > 0 {
      ReadersStable(f, g);
      ChangesStable(f, g, ReadChange(f, p).pos, n - 1);
    }
  }

  lemma RecordStable(f: seq<byte>, g: seq<byte>, p: nat)
    requires f <= g && ReadRecord(f, p).Got?
    ensures ReadRecord(g, p) == ReadRecord(f, p)
  {
    hide RU32, ReadChanges;
    ReadersStable(f, g);
    var n := RU32(f, p + 4);
    RU32Pos(f, p);
    ChangesStable(f, g, n.pos, n.value);
  }

  lemma RU32Pos(f: seq<byte>, p: nat)
    ensures RU32(f, p).Got? ==> RU32(f, p).pos == p + 4
  {
  }

  lemma ChangeRead(f: seq<byte>, p: nat, c: Change)
    requires |c.cls| < 0x1_0000_0000 && At(f, p, EncodeChange(c))
    ensures ReadChange(f, p) == if |c.cls| <= MAX_LEN then Got(c, p + |EncodeChange(c)|) else Fail
  {
    hide U32, RU32, RStr, Str;
    var flag: seq<byte> := [if c.isCreate then 1 else 0];
    AtConcat(f, p, U32(c.id), flag + Str(c.cls));
    AtConcat(f, p + 4, flag, Str(c.cls));
    assert f[p + 4] == f[p + 4..p + 5][0] == flag[0];
    U32Read(f, p, c.id);
    StrRead(f, p + 5, c.cls);
  }

  lemma {:induction false} ChangesRead(f: seq<byte>, p: nat, cs: seq<Change>)
    requires forall i :: 0 <= i < |cs| ==> |cs[i].cls| < 0x1_0000_0000
    requires At(f, p, EncodeChanges(cs))
    ensures ReadChanges(f, p, |cs|) ==
            if ClassesReadable(cs) then Got(cs, p + |EncodeChanges(cs)|) else Fail
    decreases |cs|
  {
    hide ReadChange, EncodeChange, ClassesReadable;
    if cs == [] {
      AllReadable();
    } else {
      AtConcat(f, p, EncodeChange(cs[0]), EncodeChanges(cs[1..]));
      ChangeRead(f, p, cs[0]);
      ReadableTail(cs);
      if |cs[0].cls| <= MAX_LEN {
        ChangesRead(f, p + |EncodeChange(cs[0])|, cs[1..]);
        assert [cs[0]] + cs[1..] == cs;
      }
    }
  }

  lemma ReadableTail(cs: seq<Change>)
    requires cs != []
    ensures ClassesReadable(cs) <==> |cs[0].cls| <= MAX_LEN && ClassesReadable(cs[1..])
  {
    if ClassesReadable(cs[1..]) && |cs[0].cls| <= MAX_LEN {
      forall i | 0 <= i < |cs| ensures |cs[i].cls| <= MAX_LEN {
        if i > 0 { assert cs[1..][i - 1] == cs[i]; }
      }
    }
  }

  lemma RecordRead(f: seq<byte>, p: nat, r: Record)
    requires Fits(r) && At(f, p, EncodeRecord(r))
    ensures ReadRecord(f, p) == if Readable(r) then Got(r, p + |EncodeRecord(r)|) else Fail
  {
    hide U32, RU32, ReadChanges, EncodeChanges;
    AtConcat(f, p, U32(r.version), U32(|r.changes|) + EncodeChanges(r.changes));
    AtConcat(f, p + 4, U32(|r.changes|), EncodeChanges(r.changes));
    U32Read(f, p, r.version);
    U32Read(f, p + 4, |r.changes|);
    ChangesRead(f, p + 8, r.changes);
  }

  // ---- scanning ------------------------------------------------------------

  /** Highest version, end of the last whole record, what was handed out. */
  datatype Out = Out(maxVersion: nat, goodEnd: nat, seen: seq<Seen>)

  function Tagged(r: Record): (t: seq<Seen>)
    ensures |t| == |r.changes|
  {
    seq(|r.changes|, i requires 0 <= i < |r.changes| => Seen(r.version, r.changes[i]))
  }

  function Take(o: Out, r: Record, q: nat, since: u32): Out {
    Out(if r.version > o.maxVersion then r.version else o.maxVersion, q,
        o.seen + if r.version > since then Tagged(r) else [])
  }

  function ScanFrom(f: seq<byte>, p: nat, since: u32, stop: u32, o: Out): Out
    decreases |f| - p
  {
    match ReadRecord(f, p)
    case Fail => o
    case Got(r, q) =>
      var o' := Take(o, r, q, since);
      if stop != 0 && r.version >= stop then o' else ScanFrom(f, q, since, stop, o')
  }

  /** None when the header is unreadable. */
  function Scan(f: seq<byte>, since: u32, stop: u32): Option<Out> {
    var m := RU32(f, 0);
    var v := RU32(f, 4);
    if m.Fail? || m.value != MAGIC || v.Fail? || v.value != VERSION then None
    else Some(ScanFrom(f, HEADER_LEN, since, stop, Out(0, HEADER_LEN, [])))
  }

  /** How many leading records are readable and whole in `n` bytes. */
  function Whole(rs: seq<Record>, n: nat): (k: nat)
    requires AllFit(rs)
    ensures k <= |rs|
  {
    if rs == [] || !Readable(rs[0]) || |EncodeRecord(rs[0])| > n then 0
    else 1 + Whole(rs[1..], n - |EncodeRecord(rs[0])|)
  }

  /** Every change with a version above `since`, oldest first. */
  function Newer(rs: seq<Record>, since: u32): seq<Seen> {
    if rs == [] then [] else (if rs[0].version > since then Tagged(rs[0]) else []) + Newer(rs[1..], since)
  }

  /** The versions run `base + 1`, `base + 2`, … without a gap. */
  predicate Consecutive(rs: seq<Record>, base: nat) {
    forall i :: 0 <= i < |rs| ==> rs[i].version == base + 1 + i
  }

  lemma TornRecord(f: seq<byte>, k: nat, p: nat)
    requires k <= |f| && (ReadRecord(f, p).Got? ==> ReadRecord(f, p).pos > k)
    ensures ReadRecord(f[..k], p).Fail?
  {
    if ReadRecord(f[..k], p).Got? { RecordStable(f[..k], f, p); }
  }

  /** Reading at the start of a record of a file cut at `k`. */
  lemma CutRecord(f: seq<byte>, k: nat, p: nat, r: Record)
    requires Fits(r) && At(f, p, EncodeRecord(r)) && p <= k <= |f|
    ensures ReadRecord(f[..k], p) ==
            if Readable(r) && p + |EncodeRecord(r)| <= k then Got(r, p + |EncodeRecord(r)|) else Fail
  {
    hide EncodeRecord, ReadRecord, Readable, Fits;
    var q := p + |EncodeRecord(r)|;
    RecordRead(f, p, r);
    if q > k || !Readable(r) {
      TornRecord(f, k, p);
    } else {
      assert f[..k][p..q] == f[p..q];
      RecordRead(f[..k], p, r);
    }
  }

  /** What a scan has after the leading records `rs`. */
  function Fed(o: Out, p: nat, rs: seq<Record>, since: u32): Out
    requires AllFit(rs)
  {
    Out(o.maxVersion + |rs|, p + |EncodeAll(rs)|, o.seen + Newer(rs, since))
  }

  lemma FedNone(o: Out, p: nat, since: u32)
    requires o.goodEnd == p
    ensures Fed(o, p, [], since) == o
  {
    assert o.seen + [] == o.seen;
  }

  lemma FedStep(o: Out, p: nat, rs: seq<Record>, m: nat, since: u32)
    requires AllFit(rs) && 0 < m <= |rs| && rs[0].version == o.maxVersion + 1
    ensures AllFit(rs[1..]) && AllFit(rs[..m])
    ensures var q := p + |EncodeRecord(rs[0])|;
            Fed(o, p, rs[..m], since) == Fed(Take(o, rs[0], q, since), q, rs[1..][..m - 1], since)
  {
    hide EncodeRecord, Tagged, Fits;
    assert rs[..m][0] == rs[0] && rs[..m][1..] == rs[1..][..m - 1];
  }

  /** A scan of a file cut at any byte sees exactly the whole leading records. */
  lemma {:induction false} ScanRecords(f: seq<byte>, k: nat, p: nat, rs: seq<Record>, since: u32, stop: u32, o: Out)
    requires AllFit(rs) && At(f, p, EncodeAll(rs)) && p + |EncodeAll(rs)| == |f| && p <= k <= |f|
    requires Consecutive(rs, o.maxVersion) && o.goodEnd == p && (stop == 0 || o.maxVersion + |rs| <= stop)
    ensures ScanFrom(f[..k], p, since, stop, o) == Fed(o, p, rs[..Whole(rs, k - p)], since)
    decreases |rs|
  {
    hide EncodeRecord, ReadRecord, Readable, Fed, Newer, Fits, At;
    var m := Whole(rs, k - p);
    if m == 0 { FedNone(o, p, since); assert rs[..m] == []; } else { FedStep(o, p, rs, m, since); }
    if rs == [] {
      NoRecords(f, k, p);
    } else {
      var r := rs[0];
      var q := p + |EncodeRecord(r)|;
      AtConcat(f, p, EncodeRecord(r), EncodeAll(rs[1..]));
      CutRecord(f, k, p, r);
      if m > 0 {
        var o' := Take(o, r, q, since);
        if stop != 0 && r.version >= stop {
          FedNone(o', q, since);
          assert rs[1..][..m - 1] == [];
        } else {
          ScanRecords(f, k, q, rs[1..], since, stop, o');
        }
      }
    }
  }

  lemma NoRecords(f: seq<byte>, k: nat, p: nat)
    requires p == k == |f|
    ensures ReadRecord(f[..k], p).Fail?
  {
  }

  lemma HeaderRead(f: seq<byte>)
    requires At(f, 0, Header())
    ensures RU32(f, 0) == Got(MAGIC, 4) && RU32(f, 4) == Got(VERSION, 8)
  {
    AtConcat(f, 0, U32(MAGIC), U32(VERSION));
    U32Read(f, 0, MAGIC);
    U32Read(f, 4, VERSION);
  }

  lemma ScanFile(rs: seq<Record>, k: nat, since: u32, stop: u32)
    requires AllFit(rs) && Consecutive(rs, 0) && HEADER_LEN <= k <= HEADER_LEN + |EncodeAll(rs)|
    requires stop == 0 || |rs| <= stop
    ensures var f := Header() + EncodeAll(rs);
            var m := Whole(rs, k - HEADER_LEN);
            Scan(f[..k], since, stop) == Some(Out(m, HEADER_LEN + |EncodeAll(rs[..m])|, Newer(rs[..m], since)))
  {
    hide ScanFrom, EncodeAll, Newer, Whole, U32, Fits, RU32;
    var f := Header() + EncodeAll(rs);
    assert At(f, 0, Header()) && At(f, HEADER_LEN, EncodeAll(rs));
    assert f[..k][0..HEADER_LEN] == Header();
    HeaderRead(f[..k]);
    var o := Out(0, HEADER_LEN, []);
    ScanRecords(f, k, HEADER_LEN, rs, since, stop, o);
    assert o.seen + Newer(rs[..Whole(rs, k - HEADER_LEN)], since) == Newer(rs[..Whole(rs, k - HEADER_LEN)], since);
  }

  /** The scan loop. */
  method ScanLoop(f: seq<byte>, since: u32, stop: u32) returns (r: Option<Out>)
    ensures r == Scan(f, since, stop)
  {
    hide ReadRecord, RU32, Take;
    var m := RU32(f, 0);
    if m.Fail? || m.value != MAGIC { return None; }
    var v := RU32(f, 4);
    if v.Fail? || v.value != VERSION { return None; }
    var p, o, more := HEADER_LEN, Out(0, HEADER_LEN, []), true;
    while more
      invariant more ==> ScanFrom(f, p, since, stop, o) == Scan(f, since, stop).value
      invariant !more ==> o == Scan(f, since, stop).value
      decreases more, |f| - p
    {
      var e := ReadRecord(f, p);
      if e.Fail? {
        more := false;
      } else {
        o := Take(o, e.value, e.pos, since);
        p := e.pos;
        if stop != 0 && e.value.version >= stop { more := false; }
      }
    }
    return Some(o);
  }

  // ---- the log over whole runs ---------------------------------------------

  /** Where a record starts does not depend on what follows. */
  lemma {:induction false} EncodeSnoc(rs: seq<Record>, r: Record)
    requires AllFit(rs) && Fits(r)
    ensures AllFit(rs + [r]) && EncodeAll(rs + [r]) == EncodeAll(rs) + EncodeRecord(r)
    decreases |rs|
  {
    hide EncodeRecord, Fits;
    if rs == [] {
      assert rs + [r] == [r] && [r][1..] == [];
      assert EncodeRecord(r) + [] == EncodeRecord(r);
    } else {
      assert (rs + [r])[0] == rs[0] && (rs + [r])[1..] == rs[1..] + [r];
      EncodeSnoc(rs[1..], r);
      assert EncodeRecord(rs[0]) + (EncodeAll(rs[1..]) + EncodeRecord(r))
             == (EncodeRecord(rs[0]) + EncodeAll(rs[1..])) + EncodeRecord(r);
    }
  }

  lemma {:induction false} EncodePrefix(rs: seq<Record>, m: nat)
    requires AllFit(rs) && m <= |rs|
    ensures EncodeAll(rs[..m]) <= EncodeAll(rs)
    decreases m
  {
    hide EncodeRecord, Fits;
    if m > 0 {
      assert rs[..m][0] == rs[0] && rs[..m][1..] == rs[1..][..m - 1];
      EncodePrefix(rs[1..], m - 1);
    }
  }

  lemma {:induction false} WholeFits(rs: seq<Record>, n: nat)
    requires AllFit(rs)
    ensures |EncodeAll(rs[..Whole(rs, n)])| <= n
    decreases |rs|
  {
    hide EncodeRecord, Fits, Readable;
    var m := Whole(rs, n);
    if m > 0 {
      assert rs[..m][0] == rs[0] && rs[..m][1..] == rs[1..][..m - 1];
      WholeFits(rs[1..], n - |EncodeRecord(rs[0])|);
    }
  }

  /** Of records numbered from one, those newer than `since` are a suffix. */
  lemma {:induction false} NewerSuffix(rs: seq<Record>, base: nat, since: u32)
    requires Consecutive(rs, base)
    ensures since <= base ==> Newer(rs, since) == Newer(rs, 0)
    ensures base <= since <= base + |rs| ==> Newer(rs, since) == Newer(rs[since - base..], 0)
    ensures since >= base + |rs| ==> Newer(rs, since) == []
    decreases |rs|
  {
    hide Tagged;
    if rs == [] {
    } else {
      NewerSuffix(rs[1..], base + 1, since);
      if base < since <= base + |rs| { assert rs[1..][since - base - 1..] == rs[since - base..]; }
      if since == base { assert rs[0..] == rs; }
      assert [] + Newer(rs[1..], since) == Newer(rs[1..], since);
    }
  }

  class Log {
    var file: seq<byte>
    var version: u32
    ghost var records: seq<Record>

    /** The file is the header and the records, numbered from one. */
    ghost predicate Ok()
      reads this
    {
      && AllFit(records) && Consecutive(records, 0) && version == |records|
      && file == Header() + EncodeAll(records)
    }

    constructor ()
      ensures Ok() && records == []
    {
      file, version, records := Header(), 0, [];
    }

    /** A commit adds one record with the next version if it touched an object,
        and nothing otherwise. */
    method Commit(log: seq<Rec>, s: State)
      requires Ok() && IdsFit(log) && Fits(Record(0, Entries(log, s))) && version + 1 < 0x1_0000_0000
      modifies this
      ensures Ok()
      ensures records == if Entries(log, s) == [] then old(records)
                         else old(records) + [Record(old(version) + 1, Entries(log, s))]
    {
      hide EncodeAll, EncodeRecord, Entries;
      var es := BuildEntries(log, s);
      if |es| > 0 {
        var r := Record(version + 1, es);
        EncodeSnoc(records, r);
        assert Header() + (EncodeAll(records) + EncodeRecord(r)) == (Header() + EncodeAll(records)) + EncodeRecord(r);
        file := file + EncodeRecord(r);
        version := version + 1;
        records := records + [r];
      }
    }

    /** Crash with the file cut at byte `cut`, then open: an empty file starts
        over, a torn header is refused, any later cut leaves exactly the whole
        leading records. */
    method Reopen(cut: nat) returns (ok: bool)
      requires Ok() && cut <= |file|
      modifies this
      ensures ok == (cut == 0 || cut >= HEADER_LEN)
      ensures ok ==> Ok()
      ensures cut == 0 ==> records == []
      ensures cut >= HEADER_LEN ==> records == old(records)[..Whole(old(records), cut - HEADER_LEN)]
    {
      hide EncodeAll, Scan, Whole;
      ghost var rs := records;
      var f := file[..cut];
      if |f| == 0 {
        file, version, records := Header(), 0, [];
        NoEncode();
        assert Header() + [] == Header();
        return true;
      }
      var o := ScanLoop(f, 0, 0);
      if cut < HEADER_LEN {
        ShortHeader(f);
        return false;
      }
      ScanFile(rs, cut, 0, 0);
      ghost var m := Whole(rs, cut - HEADER_LEN);
      EncodePrefix(rs, m);
      WholeFits(rs, cut - HEADER_LEN);
      assert file[..HEADER_LEN + |EncodeAll(rs[..m])|] == Header() + EncodeAll(rs[..m]);
      assert f[..o.value.goodEnd] == file[..o.value.goodEnd];
      version := o.value.maxVersion;
      file := f[..o.value.goodEnd];
      records := rs[..m];
      return true;
    }

    /** A query visits exactly the entries of the records after `since`, oldest
        first, up to the first record that no scan can read. */
    method ChangesSince(since: u32) returns (seen: seq<Seen>)
      requires Ok()
      ensures var rs := records[..Whole(records, |EncodeAll(records)|)];
              seen == if since <= |rs| then Newer(rs[since..], 0) else []
    {
      hide EncodeAll, Scan, Whole, Newer;
      ghost var m := Whole(records, |EncodeAll(records)|);
      ghost var rs := records[..m];
      assert Consecutive(rs, 0);
      NewerSuffix(rs, 0, since);
      if since >= version { return []; }
      var o := ScanLoop(file, since, version);
      ScanFile(records, |file|, since, version);
      assert file[..|file|] == file;
      return o.value.seen;
    }
  }

  lemma NoEncode()
    ensures EncodeAll([]) == []
  {
  }

  lemma ShortHeader(f: seq<byte>)
    requires |f| < HEADER_LEN
    ensures Scan(f, 0, 0) == None
  {
  }
}
