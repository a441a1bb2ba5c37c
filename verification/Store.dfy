/** The local message store: typed tables on the key-value engine. */
module Store {
  import opened Wrappers
  import opened StoreKeys
  import opened Payload
  import Engine
  import opened PrefixScan
  import Records
  import Merge
  import opened Directory
  import ByteOrder
  import Varint
  import opened SegmentNames

  /** Contents up to this length keep every record within the engine's limit. */
  const MAX_CONTENT: nat := Records.MAX_RECORD_LEN - 128

  datatype PendingMsg = PendingMsg(clientMsgId: u64, to: u64, content: Bytes, attempts: u32)

  function EncodePending(p: PendingMsg): Bytes
    requires |p.content| <= U64_MAX
  {
    PutVarints([p.clientMsgId, p.to, p.attempts, |p.content|]) + p.content
  }

  function DecodePending(src: Bytes): Result<PendingMsg, Records.StorageError> {
    match ReadVarints(src, 4)
    case Err(_) => Err(Records.Corrupted)
    case Ok((vs, rest)) =>
      if vs[2] > U32_MAX || |rest| != vs[3] then Err(Records.Corrupted)
      else Ok(PendingMsg(vs[0], vs[1], rest, vs[2]))
  }

  /** A small pending message, byte for byte. */
  lemma PendingLayout()
    ensures EncodePending(PendingMsg(1, 2, [9], 3)) == [1, 2, 3, 1, 9]
  {
    SmallVarints(1, [2, 3, 1]);
    SmallVarints(2, [3, 1]);
    SmallVarints(3, [1]);
    SmallVarints(1, []);
    assert [1] + [2, 3, 1] == [1, 2, 3, 1] && [2] + [3, 1] == [2, 3, 1] && [3] + [1] == [3, 1];
    assert PutVarints([1] + []) == [1];
  }

  /** A pending message decodes to itself. */
  lemma PendingRoundTrip(p: PendingMsg)
    requires |p.content| <= U64_MAX
    ensures DecodePending(EncodePending(p)) == Ok(p)
  {
    hide ReadVarints, PutVarints;
    VarintsRead([p.clientMsgId, p.to, p.attempts, |p.content|], p.content);
  }

  /** Exactly four numbers and as many bytes as the last one says are a pending message. */
  lemma PendingDecodesIff(src: Bytes, p: PendingMsg)
    ensures DecodePending(src) == Ok(p) <==>
            |p.content| <= U64_MAX
            && StartsWithAll(src, [p.clientMsgId, p.to, p.attempts, |p.content|], p.content)
    ensures DecodePending(src).Err? ==> DecodePending(src).error == Records.Corrupted
  {
    hide ReadVarints, StartsWithAll;
    if |p.content| <= U64_MAX {
      var vs: seq<u64> := [p.clientMsgId, p.to, p.attempts, |p.content|];
      ReadVarintsIff(src, vs, p.content);
      if DecodePending(src) == Ok(p) {
        var got := ReadVarints(src, 4).value.0;
        assert got == [got[0], got[1], got[2], got[3]] == vs;
      }
    }
  }

  // ------------------------------------------------------------------- the tables

  /** What the store means: messages by conversation and id, pending ones by local
      id, the last local id handed out, and how far the store is synchronised. */
  datatype Db = Db(
    messages: map<(u64, u64), Msg>,
    pending: map<u64, PendingMsg>,
    seqNo: Option<u64>,
    cursor: Option<u64>)

  function LastId(db: Db): u64 {
    if db.seqNo.None? then 0 else db.seqNo.value
  }

  predicate Sane(db: Db) {
    && (forall at :: at in db.messages ==> db.messages[at].msgId == at.1 && |db.messages[at].content| <= MAX_CONTENT)
    && (forall id :: id in db.pending ==>
          db.pending[id].clientMsgId == id && |db.pending[id].content| <= MAX_CONTENT && 1 <= id <= LastId(db))
  }

  function ValueOf(db: Db, key: Key): Option<Bytes>
    requires Sane(db)
  {
    match key
    case MessageOf(peer, id) => if (peer, id) in db.messages then Some(EncodeMsg(db.messages[(peer, id)])) else None
    case PendingOf(id) => if id in db.pending then Some(EncodePending(db.pending[id])) else None
    case SyncCursor => if db.cursor.Some? then Some(EncodeU64Value(db.cursor.value)) else None
    case ClientSeq => if db.seqNo.Some? then Some(EncodeU64Value(db.seqNo.value)) else None
  }

  /** The engine's map holds exactly these tables. */
  ghost predicate Represents(m: map<Bytes, Bytes>, db: Db) {
    && Sane(db)
    && (forall key: Key :: KeyBytes(key) in m <==> ValueOf(db, key).Some?)
    && (forall key: Key :: KeyBytes(key) in m ==> m[KeyBytes(key)] == ValueOf(db, key).value)
    && (forall k :: k in m ==> exists key: Key :: k == KeyBytes(key))
  }

  lemma RepresentsPut(m: map<Bytes, Bytes>, db: Db, key: Key, v: Bytes, after: Db)
    requires Represents(m, db) && Sane(after)
    requires forall k: Key :: ValueOf(after, k) == if k == key then Some(v) else ValueOf(db, k)
    ensures Represents(m[KeyBytes(key) := v], after)
  {
    hide KeyBytes, ValueOf, Sane;
    forall k: Key | KeyBytes(k) == KeyBytes(key) ensures k == key { KeysDiffer(k, key); }
  }

  lemma RepresentsDelete(m: map<Bytes, Bytes>, db: Db, key: Key, after: Db)
    requires Represents(m, db) && Sane(after)
    requires forall k: Key :: ValueOf(after, k) == if k == key then None else ValueOf(db, k)
    ensures Represents(m - {KeyBytes(key)}, after)
  {
    hide KeyBytes, ValueOf, Sane;
    forall k: Key | KeyBytes(k) == KeyBytes(key) ensures k == key { KeysDiffer(k, key); }
  }

  lemma ValueFits(key: Key, value: Bytes)
    requires |value| <= MAX_CONTENT + 50
    ensures Records.Fits(Records.Put(KeyBytes(key), value)) && Records.Fits(Records.Delete(KeyBytes(key)))
  {
    hide Varint.Encode, KeyBytes;
    KeysAreShort(key);
    Varint.EncodingIsShort(|KeyBytes(key)|);
    Varint.EncodingIsShort(|value|);
  }

  lemma OneShort(vs: seq<u64>)
    requires vs != []
    ensures |PutVarints(vs)| <= 10 + |PutVarints(vs[1..])|
  {
    Varint.EncodingIsShort(vs[0]);
  }

  lemma FourAreShort(vs: seq<u64>)
    requires |vs| == 4
    ensures |PutVarints(vs)| <= 40
  {
    hide Varint.Encode;
    OneShort(vs);
    OneShort(vs[1..]);
    OneShort(vs[2..]);
    OneShort(vs[3..]);
  }

  lemma EncodingsAreShort(p: PendingMsg, m: Msg)
    ensures |p.content| <= MAX_CONTENT ==> |EncodePending(p)| <= MAX_CONTENT + 50
    ensures |m.content| <= MAX_CONTENT ==> |EncodeMsg(m)| <= MAX_CONTENT + 50
  {
    hide PutVarints, Varint.Encode;
    if |p.content| <= MAX_CONTENT { FourAreShort([p.clientMsgId, p.to, p.attempts, |p.content|]); }
    if |m.content| <= MAX_CONTENT {
      FourAreShort(Fields(m));
      Varint.EncodingIsShort(|m.content|);
    }
  }

  // ---------------------------------------------------------------------- scanning

  /** The pending messages, by ascending id. */
  ghost predicate IsPendingList(out: seq<PendingMsg>, pending: map<u64, PendingMsg>) {
    && (forall i, j :: 0 <= i < j < |out| ==> out[i].clientMsgId < out[j].clientMsgId)
    && (forall p :: p in out <==> p.clientMsgId in pending && pending[p.clientMsgId] == p)
  }

  /** All messages of one conversation, by ascending id. */
  ghost predicate IsConversation(out: seq<Msg>, messages: map<(u64, u64), Msg>, peer: u64) {
    && (forall i, j :: 0 <= i < j < |out| ==> out[i].msgId < out[j].msgId)
    && (forall m :: m in out <==> (peer, m.msgId) in messages && messages[(peer, m.msgId)] == m)
  }

  lemma PendingRow(m: map<Bytes, Bytes>, db: Db, k: Bytes) returns (id: u64)
    requires Represents(m, db) && k in m && PREFIX_PENDING <= k
    ensures k == KeyBytes(PendingOf(id)) && id in db.pending && m[k] == EncodePending(db.pending[id])
    ensures DecodePending(m[k]) == Ok(db.pending[id]) && db.pending[id].clientMsgId == id
  {
    hide KeyBytes, EncodePending, DecodePending;
    var key: Key :| k == KeyBytes(key);
    PendingCaptures(key);
    id := key.id;
    assert ValueOf(db, key).Some?;
    PendingRoundTrip(db.pending[id]);
  }

  lemma MessageRow(m: map<Bytes, Bytes>, db: Db, peer: u64, k: Bytes) returns (id: u64)
    requires Represents(m, db) && k in m && HistoryPrefix(peer) <= k
    ensures k == KeyBytes(MessageOf(peer, id)) && (peer, id) in db.messages
        && m[k] == EncodeMsg(db.messages[(peer, id)])
    ensures DecodeMsg(m[k]) == Ok(db.messages[(peer, id)]) && db.messages[(peer, id)].msgId == id
  {
    hide KeyBytes, EncodeMsg, DecodeMsg;
    var key: Key :| k == KeyBytes(key);
    PrefixCaptures(peer, key);
    id := key.id;
    assert ValueOf(db, key).Some?;
    MsgRoundTrip(db.messages[(peer, id)], []);
  }

  const EMPTY := Db(map[], map[], None, None)

  lemma EmptyRepresents()
    ensures Represents(map[], EMPTY)
  {
    hide KeyBytes;
  }

  lemma RepresentsSane(m: map<Bytes, Bytes>, db: Db)
    requires Represents(m, db)
    ensures Sane(db)
  {}

  /** The decoded rows of the pending table are the table. */
  lemma PendingRows(m: map<Bytes, Bytes>, db: Db, rows: seq<(Bytes, Bytes)>, out: seq<PendingMsg>)
    requires Represents(m, db) && Engine.IsScan(rows, m, PREFIX_PENDING)
    requires forall k, v :: (k, v) in rows <==> k in m && m[k] == v && PREFIX_PENDING <= k
    requires |out| == |rows| && forall j :: 0 <= j < |out| ==> DecodePending(rows[j].1) == Ok(out[j])
    ensures IsPendingList(out, db.pending)
  {
    hide KeyBytes, EncodePending, DecodePending, InRange, ByteOrder.Less;
    forall j | 0 <= j < |out| ensures out[j].clientMsgId in db.pending
        && db.pending[out[j].clientMsgId] == out[j] && rows[j].0 == KeyBytes(PendingOf(out[j].clientMsgId)) {
      assert (rows[j].0, rows[j].1) in rows;
      var id := PendingRow(m, db, rows[j].0);
    }
    forall i, j | 0 <= i < j < |out| ensures out[i].clientMsgId < out[j].clientMsgId {
      KeysKeepOrder(0, out[i].clientMsgId, out[j].clientMsgId);
    }
    forall id | id in db.pending ensures db.pending[id] in out {
      var key := PendingOf(id);
      PendingCaptures(key);
      assert ValueOf(db, key).Some?;
      assert (KeyBytes(key), m[KeyBytes(key)]) in rows;
      var j :| 0 <= j < |rows| && rows[j] == (KeyBytes(key), m[KeyBytes(key)]);
      KeysDiffer(key, PendingOf(out[j].clientMsgId));
      assert out[j] in out;
    }
  }

  /** The decoded rows of one conversation are the conversation. */
  lemma MessageRows(m: map<Bytes, Bytes>, db: Db, peer: u64, rows: seq<(Bytes, Bytes)>, out: seq<Msg>)
    requires Represents(m, db) && Engine.IsScan(rows, m, HistoryPrefix(peer))
    requires forall k, v :: (k, v) in rows <==> k in m && m[k] == v && HistoryPrefix(peer) <= k
    requires |out| == |rows| && forall j :: 0 <= j < |out| ==> DecodeMsg(rows[j].1) == Ok(out[j])
    ensures IsConversation(out, db.messages, peer)
  {
    hide KeyBytes, EncodeMsg, DecodeMsg, InRange, HistoryPrefix, ByteOrder.Less;
    forall j | 0 <= j < |out| ensures (peer, out[j].msgId) in db.messages
        && db.messages[(peer, out[j].msgId)] == out[j] && rows[j].0 == KeyBytes(MessageOf(peer, out[j].msgId)) {
      assert (rows[j].0, rows[j].1) in rows;
      var id := MessageRow(m, db, peer, rows[j].0);
    }
    forall i, j | 0 <= i < j < |out| ensures out[i].msgId < out[j].msgId {
      KeysKeepOrder(peer, out[i].msgId, out[j].msgId);
    }
    forall id | (peer, id) in db.messages ensures db.messages[(peer, id)] in out {
      var key := MessageOf(peer, id);
      PrefixCaptures(peer, key);
      assert ValueOf(db, key).Some?;
      assert (KeyBytes(key), m[KeyBytes(key)]) in rows;
      var j :| 0 <= j < |rows| && rows[j] == (KeyBytes(key), m[KeyBytes(key)]);
      KeysDiffer(key, MessageOf(peer, out[j].msgId));
      assert out[j] in out;
    }
  }

  lemma ReadRows(m: map<Bytes, Bytes>, db: Db, peer: u64, rows: seq<(Bytes, Bytes)>) returns (out: seq<Msg>)
    requires Represents(m, db) && Engine.IsScan(rows, m, HistoryPrefix(peer))
    requires forall k, v :: (k, v) in rows <==> k in m && m[k] == v && HistoryPrefix(peer) <= k
    ensures |out| == |rows| && forall j :: 0 <= j < |out| ==> DecodeMsg(rows[j].1) == Ok(out[j])
    ensures IsConversation(out, db.messages, peer)
  {
    hide KeyBytes, EncodeMsg, DecodeMsg, InRange, HistoryPrefix, Represents, Engine.IsScan, IsConversation;
    out := [];
    for i := 0 to |rows|
      invariant |out| == i && forall j :: 0 <= j < i ==> DecodeMsg(rows[j].1) == Ok(out[j])
    {
      assert (rows[i].0, rows[i].1) in rows;
      var id := MessageRow(m, db, peer, rows[i].0);
      out := out + [DecodeMsg(rows[i].1).value];
    }
    MessageRows(m, db, peer, rows, out);
  }

  // ------------------------------------------------------------- what is written

  /** The log without its last `left` records. */
  function Short(log: seq<Records.Record>, left: nat): seq<Records.Record>
    requires left <= |log|
  {
    log[..|log| - left]
  }

  /** Each of the tables is what the log says without its last records. */
  ghost predicate Traces(log: seq<Records.Record>, states: seq<Db>) {
    && 0 < |states| <= |log| + 1
    && forall left :: 0 <= left < |states| ==>
        Represents(Merge.Live(Merge.Apply(Short(log, left))), states[|states| - 1 - left])
  }

  lemma TracesOne(log: seq<Records.Record>, db: Db)
    requires Represents(Merge.Live(Merge.Apply(log)), db)
    ensures Traces(log, [db])
  {
    hide Merge.Live, Merge.Apply, Represents;
    assert Short(log, 0) == log;
  }

  lemma TracesSnoc(log: seq<Records.Record>, states: seq<Db>, r: Records.Record, after: Db)
    requires Traces(log, states) && Represents(Merge.Live(Merge.Apply(log + [r])), after)
    ensures Traces(log + [r], states + [after])
  {
    hide Merge.Live, Merge.Apply, Represents;
    forall left | 0 <= left < |states| + 1
      ensures Represents(Merge.Live(Merge.Apply(Short(log + [r], left))), (states + [after])[|states| - left]) {
      if left == 0 {
        assert Short(log + [r], 0) == log + [r];
      } else {
        assert Short(log + [r], left) == Short(log, left - 1);
      }
    }
  }

  lemma TracesLast(log: seq<Records.Record>, states: seq<Db>)
    requires Traces(log, states)
    ensures Represents(Merge.Live(Merge.Apply(log)), states[|states| - 1])
  {
    hide Merge.Live, Merge.Apply, Represents;
    assert Short(log, 0) == log;
  }

  lemma TracesCut(log: seq<Records.Record>, states: seq<Db>, older: seq<Records.Record>,
      younger: seq<Records.Record>, c: nat) returns (k: nat, m: map<Bytes, Bytes>)
    requires Traces(log, states) && log == older + younger && |younger| < |states|
    ensures k == |states| - 1 - |younger| + Records.WholeWithin(younger, c) < |states|
    ensures m == Merge.Live(Merge.Apply(older + younger[..Records.WholeWithin(younger, c)])) && Represents(m, states[k])
  {
    hide Represents, Records.WholeWithin, Merge.Apply, Merge.Live;
    var left := |younger| - Records.WholeWithin(younger, c);
    k := |states| - 1 - left;
    assert Short(log, left) == older + younger[..|younger| - left];
    m := Merge.Live(Merge.Apply(Short(log, left)));
  }

  class LocalStore {
    const engine: Engine.Engine
    ghost var db: Db
    /** The tables when the store was opened, and after each record written since. */
    ghost var states: seq<Db>
    /** The segment written last, if it is one the store has begun itself. */
    ghost var last: Option<nat>
    /** The number of the segment after the writer's when the store was opened. */
    ghost const first: nat

    /** The first seal comes after `SEAL_THRESHOLD` records at the earliest. */
    ghost predicate IsCounted()
      reads this, engine
    {
      && |engine.written| < |states| && engine.count < |states|
      && (|states| <= Engine.SEAL_THRESHOLD ==> engine.nextSegment == first)
      && (engine.nextSegment == first ==> |engine.written| == |states| - 1)
    }

    /** Segment `w` was written last, by this store. */
    ghost predicate WroteSince(w: nat)
      reads this, engine
    {
      |states| > 1 ==>
        && LastWritten(engine.disk, w) && Clean(engine.disk[w]) && engine.activeId <= w + 1 && first <= w + 1
        && 0 < |Records.LogOf(engine.disk[w])| < |states|
    }

    ghost predicate Valid()
      reads this, engine
    {
      && engine.Valid() && engine.Aligned() && Represents(engine.Map(), db)
      && Traces(engine.Log(), states) && states[|states| - 1] == db
      && first <= engine.nextSegment < first + |states|
      && (last.Some? ==> engine.base == [] && IsCounted() && WroteSince(last.value))
    }

    constructor Over(engine: Engine.Engine, ghost db: Db)
      ensures this.engine == engine && this.db == db && states == [db] && first == engine.nextSegment
      ensures last == if engine.base == [] && engine.written == [] && engine.count == 0 then Some(engine.activeId)
          else None
    {
      this.engine, this.db, states, first := engine, db, [db], engine.nextSegment;
      last := if engine.base == [] && engine.written == [] && engine.count == 0 then Some(engine.activeId) else None;
    }

    static method Create() returns (store: LocalStore)
      ensures fresh(store) && fresh(store.engine) && store.Valid() && store.db == EMPTY
      ensures store.states == [EMPTY] && store.last.Some? && store.first == 1
    {
      var engine := new Engine.Engine.Empty();
      EmptyRepresents();
      engine.MapOfLog();
      TracesOne(engine.Log(), EMPTY);
      store := new LocalStore.Over(engine, EMPTY);
    }

    lemma IsSane()
      requires Valid()
      ensures Sane(db) && states != [] && states[|states| - 1] == db
    {
      hide Represents, Short, Engine.Engine.Valid, Engine.Engine.Aligned, Engine.Engine.Map, Engine.Engine.Log,
          WroteSince;
      RepresentsSane(engine.Map(), db);
    }

    lemma IsBacked()
      requires Valid()
      ensures engine.Valid() && Represents(engine.Map(), db)
    {
      hide Represents, Traces, Engine.Engine.Valid, Engine.Engine.Aligned, Engine.Engine.Map, Engine.Engine.Log,
          WroteSince;
    }

    /** Write one value of a table. */
    method PutValue(key: Key, value: Bytes, ghost after: Db)
      requires Valid() && |value| <= MAX_CONTENT + 50 && Sane(after)
      requires forall k: Key :: ValueOf(after, k) == if k == key then Some(value) else ValueOf(db, k)
      modifies this, engine
      ensures Valid() && db == after && states == old(states) + [after] && (last.Some? <==> old(last).Some?)
    {
      hide Represents, KeyBytes, Sane, ValueOf, Records.Fits, Engine.Engine.Valid, Engine.Engine.Aligned,
          Engine.Engine.Map, Engine.Engine.Log, Clean, LastWritten, Traces, Records.LogOf, Merge.Apply, Merge.Live;
      ghost var record, log, w := Records.Put(KeyBytes(key), value), engine.Log(), engine.activeId;
      ghost var longer := engine.ActiveLog() + [record];
      ValueFits(key, value);
      RepresentsPut(engine.Map(), db, key, value, after);
      EmptyIsClean();
      Engine.NextAfterActive(engine);
      Engine.FitsIsWritable(record);
      engine.Put(KeyBytes(key), value);
      engine.MapOfLog();
      Engine.NextAfterActive(engine);
      TracesSnoc(log, states, record, after);
      db, states := after, states + [after];
      last := if last.Some? then Some(w) else None;
    }

    method DeleteValue(key: Key, ghost after: Db)
      requires Valid() && Sane(after)
      requires forall k: Key :: ValueOf(after, k) == if k == key then None else ValueOf(db, k)
      modifies this, engine
      ensures Valid() && db == after && states == old(states) + [after] && (last.Some? <==> old(last).Some?)
    {
      hide Represents, KeyBytes, Sane, ValueOf, Records.Fits, Engine.Engine.Valid, Engine.Engine.Aligned,
          Engine.Engine.Map, Engine.Engine.Log, Clean, LastWritten, Traces, Records.LogOf, Merge.Apply, Merge.Live;
      ghost var record, log, w := Records.Delete(KeyBytes(key)), engine.Log(), engine.activeId;
      ghost var longer := engine.ActiveLog() + [record];
      ValueFits(key, []);
      RepresentsDelete(engine.Map(), db, key, after);
      EmptyIsClean();
      Engine.NextAfterActive(engine);
      Engine.FitsIsWritable(record);
      engine.Delete(KeyBytes(key));
      engine.MapOfLog();
      Engine.NextAfterActive(engine);
      TracesSnoc(log, states, record, after);
      db, states := after, states + [after];
      last := if last.Some? then Some(w) else None;
    }

    method GetValue(key: Key) returns (v: Option<Bytes>)
      requires Valid()
      ensures v == ValueOf(db, key)
    {
      hide KeyBytes, Sane, ValueOf, Engine.Engine.Valid, Engine.Engine.Aligned, Engine.Engine.Map;
      var r := engine.Get(KeyBytes(key));
      v := r.value;
    }

    // ---------------------------------------------------------------- cursor

    method SyncCursor() returns (cursor: u64)
      requires Valid()
      ensures cursor == if db.cursor.None? then 0 else db.cursor.value
    {
      hide Valid, Represents, KeyBytes, FromBigEndian,
          BigEndian;
      IsSane();
      var stored := GetValue(StoreKeys.SyncCursor);
      if db.cursor.Some? { U64ValueRoundTrip(db.cursor.value); }
      cursor := if stored.None? then 0 else FromBigEndian(stored.value);
    }

    /** Any cursor is stored, also a smaller one. */
    method SetSyncCursor(cursor: u64)
      requires Valid()
      modifies this, engine
      ensures Valid() && db == old(db).(cursor := Some(cursor))
      ensures states == old(states) + [db] && (last.Some? <==> old(last).Some?)
    {
      hide Valid, Represents, KeyBytes, BigEndian;
      IsSane();
      PutValue(StoreKeys.SyncCursor, EncodeU64Value(cursor), db.(cursor := Some(cursor)));
    }

    // ------------------------------------------------------------- local ids

    method NextClientMsgId() returns (next: u64)
      requires Valid() && LastId(db) < U64_MAX
      modifies this, engine
      ensures Valid() && next == LastId(old(db)) + 1 && db == old(db).(seqNo := Some(next))
      ensures states == old(states) + [db] && (last.Some? <==> old(last).Some?)
    {
      hide Valid, Represents, KeyBytes, FromBigEndian,
          BigEndian;
      IsSane();
      var stored := GetValue(ClientSeq);
      if db.seqNo.Some? { U64ValueRoundTrip(db.seqNo.value); }
      var prev := if stored.None? then 0 else FromBigEndian(stored.value);
      next := prev + 1;
      PutValue(ClientSeq, EncodeU64Value(next), db.(seqNo := Some(next)));
    }

    method EnqueueOutgoing(to: u64, content: Bytes) returns (id: u64)
      requires Valid() && LastId(db) < U64_MAX && |content| <= MAX_CONTENT
      modifies this, engine
      ensures Valid() && id == LastId(old(db)) + 1
      ensures db == old(db).(seqNo := Some(id), pending := old(db).pending[id := PendingMsg(id, to, content, 0)])
      ensures states == old(states) + [old(db).(seqNo := Some(id)), db] && (last.Some? <==> old(last).Some?)
    {
      hide Valid, Represents, KeyBytes, PutVarints;
      id := NextClientMsgId();
      IsSane();
      var p := PendingMsg(id, to, content, 0);
      EncodingsAreShort(p, Msg(0, 0, 0, 0, []));
      PutValue(PendingOf(id), EncodePending(p), db.(pending := db.pending[id := p]));
    }

    method PutMessage(peer: u64, msg: Msg)
      requires Valid() && |msg.content| <= MAX_CONTENT
      modifies this, engine
      ensures Valid() && db == old(db).(messages := old(db).messages[(peer, msg.msgId) := msg])
      ensures states == old(states) + [db] && (last.Some? <==> old(last).Some?)
    {
      hide Valid, Represents, KeyBytes, EncodeMsg,
          EncodePending;
      IsSane();
      EncodingsAreShort(PendingMsg(0, 0, [], 0), msg);
      PutValue(MessageOf(peer, msg.msgId), EncodeMsg(msg), db.(messages := db.messages[(peer, msg.msgId) := msg]));
    }

    method AppendIncoming(msg: Msg)
      requires Valid() && |msg.content| <= MAX_CONTENT
      modifies this, engine
      ensures Valid() && db == old(db).(messages := old(db).messages[(msg.from, msg.msgId) := msg])
      ensures states == old(states) + [db] && (last.Some? <==> old(last).Some?)
    {
      PutMessage(msg.from, msg);
    }

    method DropOutgoing(id: u64)
      requires Valid()
      modifies this, engine
      ensures Valid() && db == old(db).(pending := old(db).pending - {id})
      ensures states == old(states) + [db] && (last.Some? <==> old(last).Some?)
    {
      hide Valid, Represents, KeyBytes, EncodeMsg,
          EncodePending;
      IsSane();
      DeleteValue(PendingOf(id), db.(pending := db.pending - {id}));
    }

    /** Take a message off the resend table and file it under the conversation. */
    method AckOutgoing(id: u64, msgId: u64, me: u64, to: u64, content: Bytes)
      requires Valid() && |content| <= MAX_CONTENT
      modifies this, engine
      ensures Valid()
      ensures db == old(db).(pending := old(db).pending - {id},
                             messages := old(db).messages[(to, msgId) := Msg(me, to, msgId, id, content)])
      ensures states == old(states) + [old(db).(pending := old(db).pending - {id}), db]
          && (last.Some? <==> old(last).Some?)
    {
      hide Valid;
      DropOutgoing(id);
      PutMessage(to, Msg(me, to, msgId, id, content));
    }

    /** A message no longer pending is left alone. */
    method PendingSetAttempts(id: u64, attempts: u32)
      requires Valid()
      modifies this, engine
      ensures Valid()
      ensures db == if id !in old(db).pending then old(db)
                    else old(db).(pending := old(db).pending[id := old(db).pending[id].(attempts := attempts)])
      ensures states == (if id !in old(db).pending then old(states) else old(states) + [db])
      ensures last.Some? <==> old(last).Some?
    {
      hide Valid, Represents, KeyBytes, EncodeMsg, PutVarints,
          DecodePending;
      IsSane();
      var stored := GetValue(PendingOf(id));
      if stored.None? { return; }
      PendingRoundTrip(db.pending[id]);
      var p := DecodePending(stored.value).value.(attempts := attempts);
      EncodingsAreShort(p, Msg(0, 0, 0, 0, []));
      PutValue(PendingOf(id), EncodePending(p), db.(pending := db.pending[id := p]));
    }

    // -------------------------------------------------------------- listings

    method PendingAll() returns (out: seq<PendingMsg>)
      requires Valid()
      ensures IsPendingList(out, db.pending)
    {
      hide Valid, Represents, KeyBytes, Engine.Engine.Valid, Engine.Engine.Map, EncodePending, DecodePending, InRange,
          Stray, Exact;
      IsBacked();
      var rows := engine.ScanPrefix(PREFIX_PENDING);
      PrefixesAreExact(0);
      Engine.ScanIsExactIff(rows.value, engine.Map(), PREFIX_PENDING);
      out := [];
      for i := 0 to |rows.value|
        invariant |out| == i && forall j :: 0 <= j < i ==> DecodePending(rows.value[j].1) == Ok(out[j])
      {
        assert rows.value[i] in rows.value;
        ghost var id := PendingRow(engine.Map(), db, rows.value[i].0);
        out := out + [DecodePending(rows.value[i].1).value];
      }
      PendingRows(engine.Map(), db, rows.value, out);
    }

    /** The last `limit` messages of a conversation. */
    method History(peer: u64, limit: nat) returns (out: seq<Msg>, ghost all: seq<Msg>)
      requires Valid()
      ensures IsConversation(all, db.messages, peer)
      ensures out == all[if limit <= |all| then |all| - limit else 0..]
    {
      hide Valid, Represents, KeyBytes, HistoryPrefix, Engine.Engine.Valid, Engine.Engine.Map, EncodeMsg, DecodeMsg,
          InRange, Stray, Exact, IsConversation;
      IsBacked();
      var rows := engine.ScanPrefix(HistoryPrefix(peer));
      PrefixesAreExact(peer);
      Engine.ScanIsExactIff(rows.value, engine.Map(), HistoryPrefix(peer));
      all := ReadRows(engine.Map(), db, peer, rows.value);
      var start := if limit <= |rows.value| then |rows.value| - limit else 0;
      out := [];
      for i := start to |rows.value|
        invariant out == all[start..i]
      {
        var m := Payload.Decode(rows.value[i].1);
        out := out + [m.value];
      }
    }

    /** What a restart finds: the same tables, in a fresh engine. */
    static method Open(files: Disk, ghost m: map<Bytes, Bytes>, ghost db: Db) returns (store: LocalStore)
      requires RecoversTo(files, m) && Represents(m, db)
      ensures fresh(store) && fresh(store.engine) && store.Valid() && store.db == db && store.states == [db]
      ensures store.engine.activeId !in files ==> store.last == Some(store.engine.activeId)
      ensures store.first == store.engine.nextSegment == store.engine.activeId + 1
      ensures store.engine.activeId == 0 ||
              (Named(store.engine.activeId - 1) && store.engine.activeId - 1 in files)
      ensures forall id :: id in files && Named(id) ==> id < store.engine.activeId
    {
      hide Represents, RecoversTo, Engine.Engine.Valid, Engine.Engine.Aligned, Engine.Engine.Map, Engine.Engine.Log,
          Merge.Readable, Named, Traces, Merge.Apply, Merge.Live, Seen, Listed;
      Engine.RecoveredOpens(files, m);
      var engine := Engine.Engine.Open(files);
      RecoveryIsUnique(files, m, engine.value.Map());
      engine.value.MapOfLog();
      Engine.NextAfterActive(engine.value);
      TracesOne(engine.value.Log(), db);
      store := new LocalStore.Over(engine.value, db);
    }

    /** Closing at any time leaves files that open to the same tables. */
    lemma Reopens()
      requires Valid() && Seen(engine.disk, engine.activeId)
      ensures RecoversTo(engine.disk, engine.Map()) && Represents(engine.Map(), db)
    {
      hide Represents, RecoversTo, Named, Engine.Engine.Valid, Engine.Engine.Aligned, Engine.Engine.Map;
      engine.ReopensTheSame();
    }

    lemma IsNumbered()
      requires Valid()
      ensures first <= engine.activeId + 1 < first + |states| && states[|states| - 1] == db
    {
      hide Represents, Traces, Engine.Engine.Valid, Engine.Engine.Map, Engine.Engine.Log, WroteSince;
      Engine.NextAfterActive(engine);
    }

    /** Which segment was written last, if any was. */
    lemma LastFile()
      requires Valid() && last.Some?
      ensures engine.activeId in engine.disk
      ensures |states| == 1 <==> engine.activeId + 1 == first && engine.disk[engine.activeId] == []
      ensures |states| > 1 ==>
                && last.value in engine.disk
                && last.value == if engine.disk[engine.activeId] == [] then engine.activeId - 1 else engine.activeId
    {
      hide Represents, Traces, Clean, Records.LogOf, Engine.Engine.Map, Engine.Engine.Log;
      EmptyIsClean();
      Engine.NoneAfterActive(engine);
      if |states| == 1 { engine.NothingActive(); }
    }

    lemma FirstFile()
      requires Valid() && last.Some? && 1 < |states| <= Engine.SEAL_THRESHOLD
      ensures last.value in engine.disk && |Records.LogOf(engine.disk[last.value])| == |states| - 1
    {
      LastFile();
      IsBacked();
      hide Represents, Traces, Clean, Records.LogOf, Engine.Engine.Valid, Engine.Engine.Map, Engine.Engine.Log,
          WroteSince, LastWritten, Records.Fits;
      EmptyIsClean();
      engine.ActiveIsSound();
    }

    /** Cut the segment written last anywhere: it opens to the tables of exactly the
        records whose frames lie wholly before the cut. */
    lemma Cuts(c: nat) returns (k: nat, m: map<Bytes, Bytes>)
      requires Valid() && Seen(engine.disk, engine.activeId) && last.Some? && |states| > 1
      requires last.value in engine.disk && c <= |engine.disk[last.value]|
      ensures var cut := Records.LogOf(engine.disk[last.value]);
              && 0 < |cut| < |states| && k == |states| - 1 - |cut| + Records.WholeWithin(cut, c) < |states|
              && engine.disk[last.value] == Records.EncodeAll(cut)
              && (|states| <= Engine.SEAL_THRESHOLD ==> |cut| == |states| - 1)
      ensures RecoversTo(Cut(engine.disk, last.value, c), m) && Represents(m, states[k])
    {
      hide Represents, RecoversTo, Seen, Cut, Clean, LastWritten, Records.LogOf, Records.WholeWithin, Merge.Apply,
          Merge.Live, Engine.Engine.Valid, Engine.Engine.Aligned, Engine.Engine.Map, Engine.Engine.Log;
      if |states| <= Engine.SEAL_THRESHOLD { FirstFile(); }
      var older, younger := engine.CutAfterWrite(last.value, c);
      k, m := TracesCut(engine.Log(), states, older, younger, c);
    }
  }
}
