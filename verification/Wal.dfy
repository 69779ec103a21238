/** The write-ahead log: record format, transaction framing, replay with torn
    tails, and recovery from a crash at any byte. */
module Wal {
  import opened Bytes
  import opened Graph
  import opened Replay

  const MAGIC: u32 := 0x57474F50
  const VERSION: u32 := 1
  const HEADER_LEN := 12

  /** Most records that replay buffers for one transaction. */
  const MAX_RECS := 0x100_0000

  datatype Entry = EBegin(txn: u32) | ECommit(txn: u32) | ERec(redo: Redo)

  datatype Txn = Txn(id: u32, redos: seq<Redo>)

  // ---- record format -------------------------------------------------------

  predicate Small(n: nat) { n < 0x1_0000_0000 }

  predicate BodyFits(b: Body) {
    && (b.StrVal? ==> Small(|b.s|))
    && (b.BlobVal? ==> Small(|b.b|))
    && (b.VListVal? ==> Small(|b.gen|) && Small(b.params))
  }

  /** Ids, indexes and lengths fit their 32-bit fields and names their buffers. */
  predicate Fits(w: Redo) {
    match w
    case WCreate(id, init) => Small(id) && IsInit(init) && BodyFits(init)
    case WSetValue(id, v) => Small(id) && IsPrim(v) && BodyFits(v)
    case WSetField(id, key, ref) => Small(id) && |key| < MAX_KEY && Small(ref)
    case WListAppend(id, ref) => Small(id) && Small(ref)
    case WListSet(id, i, ref) => Small(id) && Small(i) && Small(ref)
    case WListInsert(id, i, ref) => Small(id) && Small(i) && Small(ref)
    case WListRemove(id, i) => Small(id) && Small(i)
    case WBind(name, ref) => |name| < MAX_KEY && Small(ref)
    case WUnbind(name) => |name| < MAX_KEY
    case WSetClass(id, cls) => Small(id) && Small(|cls|)
  }

  /** No string or blob longer than the readers accept. */
  predicate Readable(w: Redo) {
    match w
    case WCreate(_, init) => BodyReadable(init)
    case WSetValue(_, v) => BodyReadable(v)
    case WSetClass(_, cls) => |cls| <= MAX_LEN
    case _ => true
  }

  predicate BodyReadable(b: Body) {
    && (b.StrVal? ==> |b.s| <= MAX_LEN)
    && (b.BlobVal? ==> |b.b| <= MAX_LEN)
    && (b.VListVal? ==> |b.gen| <= MAX_LEN)
  }

  function CreateCode(b: Body): byte {
    match b
    case Composite(_, _) => 10
    case IntVal(_) => 11
    case StrVal(_) => 12
    case ListVal(_) => 13
    case VListVal(_, _) => 14
    case BlobVal(_) => 15
  }

  function SetCode(b: Body): byte {
    if b.IntVal? then 20 else if b.StrVal? then 21 else 23
  }

  function Payload(b: Body): seq<byte>
    requires BodyFits(b)
  {
    match b
    case IntVal(i) => I64(i)
    case StrVal(s) => Str(s)
    case BlobVal(s) => Str(s)
    case VListVal(gen, params) => Str(gen) + U32(params)
    case _ => []
  }

  function Encode(w: Redo): (r: seq<byte>)
    requires Fits(w)
  {
    match w
    case WCreate(id, init) => [CreateCode(init)] + (U32(id) + Payload(init))
    case WSetValue(id, v) => [SetCode(v)] + (U32(id) + Payload(v))
    case WSetField(id, key, ref) => [22] + (U32(id) + (Str(key) + U32(ref)))
    case WListAppend(id, ref) => [30] + (U32(id) + U32(ref))
    case WListSet(id, i, ref) => [31] + (U32(id) + (U32(i) + U32(ref)))
    case WListInsert(id, i, ref) => [32] + (U32(id) + (U32(i) + U32(ref)))
    case WListRemove(id, i) => [33] + (U32(id) + U32(i))
    case WBind(name, ref) => [40] + (Str(name) + U32(ref))
    case WUnbind(name) => [41] + Str(name)
    case WSetClass(id, cls) => [50] + (U32(id) + Str(cls))
  }

  function ReadCreate(f: seq<byte>, p: nat, op: byte): (r: Read<Redo>)
    ensures r.Got? ==> p < r.pos <= |f|
  {
    var (id, p) :- RU32(f, p);
    if op == 10 then Got(WCreate(id, Composite([], [])), p)
    else if op == 11 then var (i, p) :- RI64(f, p); Got(WCreate(id, IntVal(i)), p)
    else if op == 12 then var (s, p) :- RStr(f, p); Got(WCreate(id, StrVal(s)), p)
    else if op == 13 then Got(WCreate(id, ListVal([])), p)
    else if op == 14 then
      var (g, p) :- RStr(f, p);
      var (v, p) :- RU32(f, p);
      Got(WCreate(id, VListVal(g, v)), p)
    else var (s, p) :- RStr(f, p); Got(WCreate(id, BlobVal(s)), p)
  }

  function ReadSet(f: seq<byte>, p: nat, op: byte): (r: Read<Redo>)
    ensures r.Got? ==> p < r.pos <= |f|
  {
    var (id, p) :- RU32(f, p);
    if op == 20 then var (i, p) :- RI64(f, p); Got(WSetValue(id, IntVal(i)), p)
    else if op == 21 then var (s, p) :- RStr(f, p); Got(WSetValue(id, StrVal(s)), p)
    else if op == 22 then
      var (k, p) :- RStr(f, p);
      var (v, p) :- RU32(f, p);
      Got(WSetField(id, Trunc(k), v), p)
    else var (s, p) :- RStr(f, p); Got(WSetValue(id, BlobVal(s)), p)
  }

  function ReadList(f: seq<byte>, p: nat, op: byte): (r: Read<Redo>)
    ensures r.Got? ==> p < r.pos <= |f|
  {
    var (id, p) :- RU32(f, p);
    var (x, p) :- RU32(f, p);
    if op == 30 then Got(WListAppend(id, x), p)
    else if op == 31 then var (v, p) :- RU32(f, p); Got(WListSet(id, x, v), p)
    else if op == 32 then var (v, p) :- RU32(f, p); Got(WListInsert(id, x, v), p)
    else Got(WListRemove(id, x), p)
  }

  function ReadRest(f: seq<byte>, p: nat, op: byte): (r: Read<Redo>)
    ensures r.Got? ==> p < r.pos <= |f|
  {
    if op == 40 then
      var (k, p) :- RStr(f, p);
      var (v, p) :- RU32(f, p);
      Got(WBind(Trunc(k), v), p)
    else if op == 41 then var (k, p) :- RStr(f, p); Got(WUnbind(Trunc(k)), p)
    else if op == 50 then
      var (id, p) :- RU32(f, p);
      var (c, p) :- RStr(f, p);
      Got(WSetClass(id, c), p)
    else Fail
  }

  function ReadRedo(f: seq<byte>, p: nat, op: byte): (r: Read<Redo>)
    ensures r.Got? ==> p < r.pos <= |f|
  {
    if 10 <= op <= 15 then ReadCreate(f, p, op)
    else if 20 <= op <= 23 then ReadSet(f, p, op)
    else if 30 <= op <= 33 then ReadList(f, p, op)
    else ReadRest(f, p, op)
  }

  function ReadEntry(f: seq<byte>, p: nat): (r: Read<Entry>)
    ensures r.Got? ==> p < r.pos <= |f|
  {
    var (op, p) :- RU8(f, p);
    if op == 1 then var (t, p) :- RU32(f, p); Got(EBegin(t), p)
    else if op == 2 then var (t, p) :- RU32(f, p); Got(ECommit(t), p)
    else var (w, p) :- ReadRedo(f, p, op); Got(ERec(w), p)
  }

  /** What is accepted from a file is accepted identically from a longer one. */
  lemma EntryStable(f: seq<byte>, g: seq<byte>, p: nat)
    requires f <= g && ReadEntry(f, p).Got?
    ensures ReadEntry(g, p) == ReadEntry(f, p)
  {
    hide RU8, RU32, RI64, RStr, ReadRedo;
    ReadersStable(f, g);
    var op := RU8(f, p);
    if op.value != 1 && op.value != 2 { RedoStable(f, g, op.pos, op.value); }
  }

  lemma RedoStable(f: seq<byte>, g: seq<byte>, p: nat, op: byte)
    requires f <= g && ReadRedo(f, p, op).Got?
    ensures ReadRedo(g, p, op) == ReadRedo(f, p, op)
  {
    hide RU8, RU32, RI64, RStr;
    ReadersStable(f, g);
  }

  // ---- what is written is read back ---------------------------------------

  lemma ReadCreateAt(f: seq<byte>, p: nat, id: Id, b: Body)
    requires Fits(WCreate(id, b)) && At(f, p, U32(id) + Payload(b))
    ensures ReadCreate(f, p, CreateCode(b)) ==
            if BodyReadable(b) then Got(WCreate(id, b), p + 4 + |Payload(b)|) else Fail
  {
    hide U32, RU32, I64, RI64, RStr;
    AtConcat(f, p, U32(id), Payload(b));
    U32Read(f, p, id);
    match b
    case IntVal(i) => I64Read(f, p + 4, i);
    case StrVal(s) => StrRead(f, p + 4, s);
    case BlobVal(s) => StrRead(f, p + 4, s);
    case VListVal(g, v) =>
      AtConcat(f, p + 4, Str(g), U32(v));
      StrRead(f, p + 4, g);
      U32Read(f, p + 8 + |g|, v);
    case _ =>
  }

  lemma ReadSetAt(f: seq<byte>, p: nat, id: Id, b: Body)
    requires Fits(WSetValue(id, b)) && At(f, p, U32(id) + Payload(b))
    ensures ReadSet(f, p, SetCode(b)) ==
            if BodyReadable(b) then Got(WSetValue(id, b), p + 4 + |Payload(b)|) else Fail
  {
    hide U32, RU32, I64, RI64, RStr;
    AtConcat(f, p, U32(id), Payload(b));
    U32Read(f, p, id);
    match b
    case IntVal(i) => I64Read(f, p + 4, i);
    case StrVal(s) => StrRead(f, p + 4, s);
    case BlobVal(s) => StrRead(f, p + 4, s);
  }

  lemma ReadFieldAt(f: seq<byte>, p: nat, id: Id, key: Text, ref: Id)
    requires Fits(WSetField(id, key, ref)) && At(f, p, U32(id) + (Str(key) + U32(ref)))
    ensures ReadSet(f, p, 22) == Got(WSetField(id, key, ref), p + 12 + |key|)
  {
    hide U32, RU32, RStr;
    AtConcat(f, p, U32(id), Str(key) + U32(ref));
    AtConcat(f, p + 4, Str(key), U32(ref));
    U32Read(f, p, id);
    StrRead(f, p + 4, key);
    U32Read(f, p + 8 + |key|, ref);
  }

  lemma ReadListAt(f: seq<byte>, p: nat, w: Redo)
    requires Fits(w) && (w.WListAppend? || w.WListSet? || w.WListInsert? || w.WListRemove?)
    requires At(f, p, Encode(w)[1..])
    ensures ReadList(f, p, Encode(w)[0]) == Got(w, p + |Encode(w)| - 1)
  {
    hide U32, RU32;
    match w
    case WListAppend(id, ref) => TwoWords(f, p, id, ref);
    case WListRemove(id, i) => TwoWords(f, p, id, i);
    case WListSet(id, i, ref) => ThreeWords(f, p, id, i, ref);
    case WListInsert(id, i, ref) => ThreeWords(f, p, id, i, ref);
  }

  lemma TwoWords(f: seq<byte>, p: nat, a: u32, b: u32)
    requires At(f, p, U32(a) + U32(b))
    ensures RU32(f, p) == Got(a, p + 4) && RU32(f, p + 4) == Got(b, p + 8)
  {
    AtConcat(f, p, U32(a), U32(b));
    U32Read(f, p, a);
    U32Read(f, p + 4, b);
  }

  lemma ThreeWords(f: seq<byte>, p: nat, a: u32, b: u32, c: u32)
    requires At(f, p, U32(a) + (U32(b) + U32(c)))
    ensures RU32(f, p) == Got(a, p + 4) && RU32(f, p + 4) == Got(b, p + 8) && RU32(f, p + 8) == Got(c, p + 12)
  {
    AtConcat(f, p, U32(a), U32(b) + U32(c));
    U32Read(f, p, a);
    TwoWords(f, p + 4, b, c);
  }

  lemma ReadBindAt(f: seq<byte>, p: nat, name: Text, ref: Id)
    requires Fits(WBind(name, ref)) && At(f, p, Str(name) + U32(ref))
    ensures ReadRest(f, p, Encode(WBind(name, ref))[0]) ==
            if Readable(WBind(name, ref)) then Got(WBind(name, ref), p + 8 + |name|) else Fail
  {
    hide U32, RU32, RStr, Str, At;
    AtConcat(f, p, Str(name), U32(ref));
    StrRead(f, p, name);
    U32Read(f, p + 4 + |name|, ref);
  }

  lemma ReadClassAt(f: seq<byte>, p: nat, id: Id, cls: Text)
    requires Fits(WSetClass(id, cls)) && At(f, p, U32(id) + Str(cls))
    ensures ReadRest(f, p, Encode(WSetClass(id, cls))[0]) ==
            if Readable(WSetClass(id, cls)) then Got(WSetClass(id, cls), p + 8 + |cls|) else Fail
  {
    hide U32, RU32, RStr, Str, At;
    AtConcat(f, p, U32(id), Str(cls));
    U32Read(f, p, id);
    StrRead(f, p + 4, cls);
  }

  lemma ReadRestAt(f: seq<byte>, p: nat, w: Redo)
    requires Fits(w) && (w.WBind? || w.WUnbind? || w.WSetClass?)
    requires At(f, p, Encode(w)[1..])
    ensures ReadRest(f, p, Encode(w)[0]) == if Readable(w) then Got(w, p + |Encode(w)| - 1) else Fail
  {
    hide U32, RU32, RStr, Str, At;
    match w
    case WBind(name, ref) =>
      assert Encode(w)[1..] == Str(name) + U32(ref);
      ReadBindAt(f, p, name, ref);
    case WUnbind(name) =>
      assert Encode(w)[1..] == Str(name);
      StrRead(f, p, name);
    case WSetClass(id, cls) =>
      assert Encode(w)[1..] == U32(id) + Str(cls);
      ReadClassAt(f, p, id, cls);
  }

  /** A logged record is read back, unless it holds an oversized string: then
      reading stops there. */
  lemma RecordRead(f: seq<byte>, p: nat, w: Redo)
    requires Fits(w) && At(f, p, Encode(w))
    ensures ReadEntry(f, p) == if Readable(w) then Got(ERec(w), p + |Encode(w)|) else Fail
  {
    hide RU32, RI64, RStr, ReadCreate, ReadSet, ReadList, ReadRest, U32, I64, Str, Payload;
    var e := Encode(w);
    assert e == [e[0]] + e[1..];
    AtConcat(f, p, [e[0]], e[1..]);
    assert f[p] == f[p..p + 1][0] == e[0];
    match w
    case WCreate(id, b) => ReadCreateAt(f, p + 1, id, b);
    case WSetValue(id, b) => ReadSetAt(f, p + 1, id, b);
    case WSetField(id, key, ref) => ReadFieldAt(f, p + 1, id, key, ref);
    case WBind(_, _) => ReadRestAt(f, p + 1, w);
    case WUnbind(_) => ReadRestAt(f, p + 1, w);
    case WSetClass(_, _) => ReadRestAt(f, p + 1, w);
    case _ => ReadListAt(f, p + 1, w);
  }

  lemma MarkRead(f: seq<byte>, p: nat, op: byte, t: u32)
    requires op == 1 || op == 2
    requires At(f, p, [op] + U32(t))
    ensures ReadEntry(f, p) == Got(if op == 1 then EBegin(t) else ECommit(t), p + 5)
  {
    AtConcat(f, p, [op], U32(t));
    assert f[p] == f[p..p + 1][0] == op;
    U32Read(f, p + 1, t);
  }

  // ---- the log file --------------------------------------------------------

  function Header(baseline: u32): (r: seq<byte>)
    ensures |r| == HEADER_LEN
  {
    U32(MAGIC) + (U32(VERSION) + U32(baseline))
  }

  predicate AllFit(ws: seq<Redo>) {
    forall i :: 0 <= i < |ws| ==> Fits(ws[i])
  }

  predicate TxnsFit(ts: seq<Txn>) {
    forall i :: 0 <= i < |ts| ==> AllFit(ts[i].redos)
  }

  function EncodeRedos(ws: seq<Redo>): seq<byte>
    requires AllFit(ws)
  {
    if ws == [] then [] else Encode(ws[0]) + EncodeRedos(ws[1..])
  }

  function EncodeTxn(t: Txn): seq<byte>
    requires AllFit(t.redos)
  {
    [1] + U32(t.id) + (EncodeRedos(t.redos) + ([2] + U32(t.id)))
  }

  function EncodeTxns(ts: seq<Txn>): seq<byte>
    requires TxnsFit(ts)
  {
    if ts == [] then [] else EncodeTxn(ts[0]) + EncodeTxns(ts[1..])
  }

  // ---- replay --------------------------------------------------------------

  /** Store being rebuilt, end of the last complete commit, next transaction id. */
  datatype Out = Out(state: State, goodEnd: nat, nextTxn: nat)

  /** Records of a transaction that has begun but not committed. */
  datatype Pending = Idle | Begun(txn: u32, redos: seq<Redo>)

  /** None when a committed record cannot be applied and the open fails. */
  function ReplayFrom(f: seq<byte>, p: nat, o: Out, pend: Pending): Option<Out>
    decreases |f| - p
  {
    match ReadEntry(f, p)
    case Fail => Some(o)
    case Got(EBegin(t), q) => ReplayFrom(f, q, o, Begun(t, []))
    case Got(ECommit(t), q) =>
      if pend.Begun? && pend.txn == t then
        var r := RedoAll(o.state, pend.redos);
        if r.None? then None
        else ReplayFrom(f, q, Out(r.value, q, if t >= o.nextTxn then (t + 1) % 0x1_0000_0000 else o.nextTxn), Idle)
      else Some(o)
    case Got(ERec(w), q) =>
      if pend.Idle? || |pend.redos| >= MAX_RECS then Some(o)
      else ReplayFrom(f, q, o, Begun(pend.txn, pend.redos + [w]))
  }

  /** Open a log over the snapshot `s` of generation `gen`. Failure: the header
      is unreadable or a committed record cannot be applied. A log of another
      generation is stale and contributes nothing. */
  function ReplayWal(f: seq<byte>, s: State, gen: u32, nextTxn: nat): Option<Out> {
    var m := RU32(f, 0);
    var v := RU32(f, 4);
    var b := RU32(f, 8);
    if m.Fail? || m.value != MAGIC || v.Fail? || v.value != VERSION || b.Fail? then None
    else if b.value != gen then Some(Out(s, HEADER_LEN, nextTxn))
    else ReplayFrom(f, HEADER_LEN, Out(s, HEADER_LEN, nextTxn), Idle)
  }

  // ---- recovery theorems ---------------------------------------------------

  predicate Recoverable(t: Txn) {
    |t.redos| <= MAX_RECS && forall i :: 0 <= i < |t.redos| ==> Readable(t.redos[i])
  }

  /** How many leading transactions are recoverable and whole in `n` bytes. */
  function Survivors(ts: seq<Txn>, n: nat): (k: nat)
    requires TxnsFit(ts)
    ensures k <= |ts|
  {
    if ts == [] || !Recoverable(ts[0]) || |EncodeTxn(ts[0])| > n then 0
    else 1 + Survivors(ts[1..], n - |EncodeTxn(ts[0])|)
  }

  /** Effect of committed transactions on a rebuilt store that ends at `p`. */
  function RedoTxns(o: Out, p: nat, ts: seq<Txn>): Option<Out>
    requires TxnsFit(ts)
    decreases |ts|
  {
    if ts == [] then Some(o)
    else
      var q := p + |EncodeTxn(ts[0])|;
      var r := RedoAll(o.state, ts[0].redos);
      if r.None? then None
      else RedoTxns(Out(r.value, q, if ts[0].id >= o.nextTxn then (ts[0].id + 1) % 0x1_0000_0000 else o.nextTxn), q, ts[1..])
  }

  /** Reading an entry that the cut file does not wholly contain fails. */
  lemma TornEntry(f: seq<byte>, k: nat, p: nat)
    requires k <= |f| && (ReadEntry(f, p).Got? ==> ReadEntry(f, p).pos > k)
    ensures ReadEntry(f[..k], p).Fail?
  {
    if ReadEntry(f[..k], p).Got? { EntryStable(f[..k], f, p); }
  }

  lemma AtCut(f: seq<byte>, k: nat, p: nat, bs: seq<byte>)
    requires At(f, p, bs) && p + |bs| <= k <= |f|
    ensures At(f[..k], p, bs)
  {
    assert f[..k][p..p + |bs|] == f[p..p + |bs|];
  }

  predicate WholeRedos(ws: seq<Redo>, room: nat)
    requires AllFit(ws)
  {
    |EncodeRedos(ws)| <= room && forall i :: 0 <= i < |ws| ==> Readable(ws[i])
  }

  /** The records of one transaction are buffered if they are whole, readable
      and not too many; otherwise replay ends without having changed anything. */
  lemma {:induction false} ReplayRedos(f: seq<byte>, k: nat, p: nat, ws: seq<Redo>, o: Out, t: u32, sofar: seq<Redo>)
    requires AllFit(ws) && At(f, p, EncodeRedos(ws)) && p <= k <= |f| && |sofar| <= MAX_RECS
    ensures ReplayFrom(f[..k], p, o, Begun(t, sofar)) ==
            if WholeRedos(ws, k - p) && |sofar| + |ws| <= MAX_RECS
            then ReplayFrom(f[..k], p + |EncodeRedos(ws)|, o, Begun(t, sofar + ws))
            else Some(o)
    decreases |ws|
  {
    hide ReadEntry, Encode, RedoAll;
    if ws == [] {
      assert sofar + ws == sofar;
    } else {
      var c, w := f[..k], ws[0];
      AtConcat(f, p, Encode(w), EncodeRedos(ws[1..]));
      RecordRead(f, p, w);
      var q := p + |Encode(w)|;
      assert |EncodeRedos(ws)| == |Encode(w)| + |EncodeRedos(ws[1..])|;
      if q > k {
        TornEntry(f, k, p);
      } else {
        AtCut(f, k, p, Encode(w));
        RecordRead(c, p, w);
        if Readable(w) && |sofar| < MAX_RECS {
          ReplayRedos(f, k, q, ws[1..], o, t, sofar + [w]);
          assert sofar + [w] + ws[1..] == sofar + ws;
          assert WholeRedos(ws, k - p) <==> WholeRedos(ws[1..], k - q);
        }
      }
    }
  }

  lemma ReplayTxn(f: seq<byte>, k: nat, p: nat, t: Txn, o: Out)
    requires AllFit(t.redos) && At(f, p, EncodeTxn(t)) && p <= k <= |f|
    ensures ReplayFrom(f[..k], p, o, Idle) ==
            if !Recoverable(t) || p + |EncodeTxn(t)| > k then Some(o)
            else
              var r := RedoAll(o.state, t.redos);
              if r.None? then None
              else ReplayFrom(f[..k], p + |EncodeTxn(t)|,
                              Out(r.value, p + |EncodeTxn(t)|,
                                  if t.id >= o.nextTxn then (t.id + 1) % 0x1_0000_0000 else o.nextTxn), Idle)
  {
    hide ReadEntry, Encode, RedoAll, EncodeRedos;
    var c, begin, body, commit := f[..k], [1] + U32(t.id), EncodeRedos(t.redos), [2] + U32(t.id);
    AtConcat(f, p, begin, body + commit);
    AtConcat(f, p + 5, body, commit);
    MarkRead(f, p, 1, t.id);
    var q := p + 5 + |body|;
    MarkRead(f, q, 2, t.id);
    if p + 5 > k {
      TornEntry(f, k, p);
    } else {
      AtCut(f, k, p, begin);
      MarkRead(c, p, 1, t.id);
      ReplayRedos(f, k, p + 5, t.redos, o, t.id, []);
      assert [] + t.redos == t.redos;
      if WholeRedos(t.redos, k - p - 5) && |t.redos| <= MAX_RECS {
        if q + 5 > k {
          TornEntry(f, k, q);
        } else {
          AtCut(f, k, q, commit);
          MarkRead(c, q, 2, t.id);
        }
      }
    }
  }

  lemma {:induction false} ReplayTxns(f: seq<byte>, k: nat, p: nat, ts: seq<Txn>, o: Out)
    requires TxnsFit(ts) && At(f, p, EncodeTxns(ts)) && p + |EncodeTxns(ts)| == |f| && p <= k <= |f|
    ensures ReplayFrom(f[..k], p, o, Idle) == RedoTxns(o, p, ts[..Survivors(ts, k - p)])
    decreases |ts|
  {
    hide EncodeTxn, RedoAll, ReadEntry;
    if ts == [] {
      assert |f[..k]| == k == p;
    } else {
      var n := Survivors(ts, k - p);
      AtConcat(f, p, EncodeTxn(ts[0]), EncodeTxns(ts[1..]));
      ReplayTxn(f, k, p, ts[0], o);
      var q := p + |EncodeTxn(ts[0])|;
      if n > 0 {
        var r := RedoAll(o.state, ts[0].redos);
        assert ts[..n][0] == ts[0] && ts[..n][1..] == ts[1..][..n - 1];
        if r.Some? {
          ReplayTxns(f, k, q, ts[1..],
                     Out(r.value, q, if ts[0].id >= o.nextTxn then (ts[0].id + 1) % 0x1_0000_0000 else o.nextTxn));
        }
      }
    }
  }

  lemma HeaderRead(f: seq<byte>, baseline: u32)
    requires At(f, 0, Header(baseline))
    ensures RU32(f, 0) == Got(MAGIC, 4) && RU32(f, 4) == Got(VERSION, 8) && RU32(f, 8) == Got(baseline, 12)
  {
    ThreeWords(f, 0, MAGIC, VERSION, baseline);
  }

  /** Crash at any byte: cut anywhere after the header, the log replays exactly
      the longest run of whole recoverable transactions. */
  lemma CrashAtAnyByte(s: State, gen: u32, nextTxn: nat, ts: seq<Txn>, k: nat)
    requires TxnsFit(ts) && HEADER_LEN <= k <= HEADER_LEN + |EncodeTxns(ts)|
    ensures var f := Header(gen) + EncodeTxns(ts);
            ReplayWal(f[..k], s, gen, nextTxn) ==
            RedoTxns(Out(s, HEADER_LEN, nextTxn), HEADER_LEN, ts[..Survivors(ts, k - HEADER_LEN)])
  {
    var f := Header(gen) + EncodeTxns(ts);
    assert At(f, 0, Header(gen)) && At(f, HEADER_LEN, EncodeTxns(ts));
    AtCut(f, k, 0, Header(gen));
    HeaderRead(f[..k], gen);
    ReplayTxns(f, k, HEADER_LEN, ts, Out(s, HEADER_LEN, nextTxn));
  }

  /** Whole recoverable transactions are replayed whatever follows them. */
  lemma {:induction false} ReplayThrough(f: seq<byte>, p: nat, ts: seq<Txn>, o: Out)
    requires TxnsFit(ts) && (forall i :: 0 <= i < |ts| ==> Recoverable(ts[i])) && At(f, p, EncodeTxns(ts))
    ensures var r := RedoTxns(o, p, ts);
            ReplayFrom(f, p, o, Idle) ==
            if r.None? then None else ReplayFrom(f, p + |EncodeTxns(ts)|, r.value, Idle)
    decreases |ts|
  {
    hide EncodeTxn, RedoAll, ReadEntry, Recoverable;
    if ts != [] {
      assert f[..|f|] == f;
      AtConcat(f, p, EncodeTxn(ts[0]), EncodeTxns(ts[1..]));
      ReplayTxn(f, |f|, p, ts[0], o);
      var q := p + |EncodeTxn(ts[0])|;
      var r := RedoAll(o.state, ts[0].redos);
      if r.Some? {
        ReplayThrough(f, q, ts[1..],
                      Out(r.value, q, if ts[0].id >= o.nextTxn then (ts[0].id + 1) % 0x1_0000_0000 else o.nextTxn));
      }
    }
  }

  /** Entries out of place: a commit or a record outside a transaction, or the commit of
      another transaction than the one begun. */
  datatype Stray = LoneCommit(t: u32) | LoneRecord(w: Redo) | OtherCommit(t: u32, redos: seq<Redo>, u: u32)

  predicate StrayOk(x: Stray) {
    match x
    case LoneCommit(_) => true
    case LoneRecord(w) => Fits(w)
    case OtherCommit(t, ws, u) => AllFit(ws) && t != u
  }

  function EncodeStray(x: Stray): seq<byte>
    requires StrayOk(x)
  {
    match x
    case LoneCommit(t) => [2] + U32(t)
    case LoneRecord(w) => Encode(w)
    case OtherCommit(t, ws, u) => [1] + U32(t) + (EncodeRedos(ws) + ([2] + U32(u)))
  }

  lemma StrayStops(f: seq<byte>, p: nat, x: Stray, o: Out)
    requires StrayOk(x) && At(f, p, EncodeStray(x))
    ensures ReplayFrom(f, p, o, Idle) == Some(o)
  {
    hide ReadEntry, Encode, EncodeRedos, RedoAll, Fits, U32, Readable;
    match x
    case LoneCommit(t) => MarkRead(f, p, 2, t);
    case LoneRecord(w) => RecordRead(f, p, w);
    case OtherCommit(t, ws, u) =>
      assert f[..|f|] == f;
      AtConcat(f, p, [1] + U32(t), EncodeRedos(ws) + ([2] + U32(u)));
      AtConcat(f, p + 5, EncodeRedos(ws), [2] + U32(u));
      MarkRead(f, p, 1, t);
      ReplayRedos(f, |f|, p + 5, ws, o, t, []);
      MarkRead(f, p + 5 + |EncodeRedos(ws)|, 2, u);
  }

  /** An entry out of place ends the log: what stands before it is replayed, and
      nothing from there on, whatever follows. */
  lemma StrayEnds(s: State, gen: u32, nextTxn: nat, ts: seq<Txn>, x: Stray, rest: seq<byte>)
    requires TxnsFit(ts) && (forall i :: 0 <= i < |ts| ==> Recoverable(ts[i])) && StrayOk(x)
    ensures ReplayWal(Header(gen) + EncodeTxns(ts) + EncodeStray(x) + rest, s, gen, nextTxn) ==
            RedoTxns(Out(s, HEADER_LEN, nextTxn), HEADER_LEN, ts)
  {
    hide ReplayFrom, EncodeTxns, EncodeStray, RedoTxns, Header, Recoverable;
    var f, o := Header(gen) + EncodeTxns(ts) + EncodeStray(x) + rest, Out(s, HEADER_LEN, nextTxn);
    assert At(f, 0, Header(gen)) && At(f, HEADER_LEN, EncodeTxns(ts));
    assert At(f, HEADER_LEN + |EncodeTxns(ts)|, EncodeStray(x));
    HeaderRead(f, gen);
    ReplayThrough(f, HEADER_LEN, ts, o);
    var r := RedoTxns(o, HEADER_LEN, ts);
    if r.Some? { StrayStops(f, HEADER_LEN + |EncodeTxns(ts)|, x, r.value); }
  }

  /** After replay the next transaction id is one above the greatest id replayed, or as
      it was, short of the wrap-around of the counter. */
  lemma {:induction false} NextTxnAbove(o: Out, p: nat, ts: seq<Txn>)
    requires TxnsFit(ts) && RedoTxns(o, p, ts).Some? && forall i :: 0 <= i < |ts| ==> ts[i].id < 0xFFFF_FFFF
    ensures var n := RedoTxns(o, p, ts).value.nextTxn;
            && o.nextTxn <= n && (forall i :: 0 <= i < |ts| ==> ts[i].id < n)
            && (n == o.nextTxn || exists i :: 0 <= i < |ts| && n == ts[i].id + 1)
    decreases |ts|
  {
    hide RedoAll, EncodeTxn, Fits;
    if ts != [] {
      var q := p + |EncodeTxn(ts[0])|;
      var r := RedoAll(o.state, ts[0].redos);
      var next := Out(r.value, q, if ts[0].id >= o.nextTxn then (ts[0].id + 1) % 0x1_0000_0000 else o.nextTxn);
      NextTxnAbove(next, q, ts[1..]);
      assert forall i :: 1 <= i < |ts| ==> ts[i] == ts[1..][i - 1];
    }
  }

  /** A string longer than the cap is logged whole and committed, but its
      transaction is not replayed. */
  lemma OversizedLost(s: State, gen: u32, id: u32, text: Text)
    requires MAX_LEN < |text| < 0x1_0000_0000
    ensures var t := Txn(id, [WCreate(1, StrVal(text))]);
            TxnsFit([t]) && ReplayWal(Header(gen) + EncodeTxns([t]), s, gen, 1) == Some(Out(s, HEADER_LEN, 1))
  {
    hide EncodeTxns, EncodeTxn, ReplayWal, Header;
    var t := Txn(id, [WCreate(1, StrVal(text))]);
    var f := Header(gen) + EncodeTxns([t]);
    assert !Readable(t.redos[0]);
    CrashAtAnyByte(s, gen, 1, [t], |f|);
    assert f[..|f|] == f;
  }
}
