/** Runs of store operations cut short: which messages a crash can lose, and which
    local ids it can bring back. */
module StoreRuns {
  import opened Wrappers
  import opened Payload
  import opened Store
  import opened Directory
  import Records
  import Engine
  import Lifetimes
  import opened SegmentNames

  datatype Op =
    | Enqueue(to: u64, content: Bytes)
    | Acknowledge(id: u64, msgId: u64, to: u64, content: Bytes)
    | Receive(msg: Msg)
    | Drop(id: u64)
    | SetAttempts(id: u64, attempts: u32)
    | SetCursor(cursor: u64)

  predicate Allowed(db: Db, op: Op) {
    match op
    case Enqueue(_, content) => LastId(db) < U64_MAX && |content| <= MAX_CONTENT
    case Acknowledge(_, _, _, content) => |content| <= MAX_CONTENT
    case Receive(msg) => |msg.content| <= MAX_CONTENT
    case _ => true
  }

  function Sent(me: u64, op: Op): Msg
    requires op.Acknowledge?
  {
    Msg(me, op.to, op.msgId, op.id, op.content)
  }

  /** The tables after each record an operation writes. */
  function Steps(me: u64, db: Db, op: Op): seq<Db>
    requires Allowed(db, op)
  {
    match op
    case Enqueue(to, content) =>
      var id := LastId(db) + 1;
      var counted := db.(seqNo := Some(id));
      [counted, counted.(pending := db.pending[id := PendingMsg(id, to, content, 0)])]
    case Acknowledge(id, msgId, to, content) =>
      var removed := db.(pending := db.pending - {id});
      [removed, removed.(messages := db.messages[(to, msgId) := Sent(me, op)])]
    case Receive(msg) => [db.(messages := db.messages[(msg.from, msg.msgId) := msg])]
    case Drop(id) => [db.(pending := db.pending - {id})]
    case SetAttempts(id, attempts) =>
      if id !in db.pending then []
      else [db.(pending := db.pending[id := db.pending[id].(attempts := attempts)])]
    case SetCursor(cursor) => [db.(cursor := Some(cursor))]
  }

  function Last(db: Db, steps: seq<Db>): Db {
    if steps == [] then db else steps[|steps| - 1]
  }

  predicate AllAllowed(me: u64, db: Db, ops: seq<Op>)
    decreases |ops|, 0
  {
    ops != [] ==>
      var front := ops[..|ops| - 1];
      AllAllowed(me, db, front) && Allowed(After(me, db, front), ops[|ops| - 1])
  }

  function After(me: u64, db: Db, ops: seq<Op>): Db
    requires AllAllowed(me, db, ops)
    decreases |ops|, 1
  {
    if ops == [] then db
    else
      var before := After(me, db, ops[..|ops| - 1]);
      Last(before, Steps(me, before, ops[|ops| - 1]))
  }

  /** The tables at first, and after each record of a run. */
  function Trail(me: u64, db: Db, ops: seq<Op>): (trail: seq<Db>)
    requires AllAllowed(me, db, ops)
    ensures trail != []
  {
    if ops == [] then [db]
    else
      var front := ops[..|ops| - 1];
      Trail(me, db, front) + Steps(me, After(me, db, front), ops[|ops| - 1])
  }

  lemma {:induction false} TrailEnds(me: u64, db: Db, ops: seq<Op>)
    requires AllAllowed(me, db, ops)
    ensures var trail := Trail(me, db, ops); trail[0] == db && trail[|trail| - 1] == After(me, db, ops)
  {
    if ops != [] { TrailEnds(me, db, ops[..|ops| - 1]); }
  }

  lemma {:induction false} AllowedPrefix(me: u64, db: Db, ops: seq<Op>, i: nat)
    requires AllAllowed(me, db, ops) && i <= |ops|
    ensures AllAllowed(me, db, ops[..i]) && (i < |ops| ==> Allowed(After(me, db, ops[..i]), ops[i]))
    ensures i < |ops| ==> AllAllowed(me, db, ops[..i + 1]) && ops[..i + 1][..i] == ops[..i] && ops[..i + 1][i] == ops[i]
  {
    hide Allowed, After;
    if i == |ops| {
      assert ops[..i] == ops;
    } else {
      if i + 1 < |ops| {
        var front := ops[..|ops| - 1];
        AllowedPrefix(me, db, front, i);
        assert front[..i] == ops[..i] && front[..i + 1] == ops[..i + 1];
      } else {
        assert ops[..i + 1] == ops;
      }
    }
  }

  // ---------------------------------------------------------------- on the store

  /** One operation writes its records in their order. */
  method Perform(store: LocalStore, me: u64, op: Op) returns (id: Option<u64>)
    requires store.Valid() && Allowed(store.db, op)
    modifies store, store.engine
    ensures store.Valid() && (store.last.Some? <==> old(store.last).Some?)
    ensures store.states == old(store.states) + Steps(me, old(store.db), op)
    ensures store.db == Last(old(store.db), Steps(me, old(store.db), op))
    ensures id == if op.Enqueue? then Some(LastId(old(store.db)) + 1) else None
  {
    hide LocalStore.Valid;
    id := None;
    match op
    case Enqueue(to, content) =>
      var given := store.EnqueueOutgoing(to, content);
      id := Some(given);
    case Acknowledge(ack, msgId, to, content) => store.AckOutgoing(ack, msgId, me, to, content);
    case Receive(msg) => store.AppendIncoming(msg);
    case Drop(dropped) => store.DropOutgoing(dropped);
    case SetAttempts(pending, attempts) => store.PendingSetAttempts(pending, attempts);
    case SetCursor(cursor) => store.SetSyncCursor(cursor);
  }

  /** The ids a run hands out. */
  function HandedOut(me: u64, db: Db, ops: seq<Op>): seq<u64>
    requires AllAllowed(me, db, ops)
  {
    if ops == [] then []
    else
      var front := ops[..|ops| - 1];
      HandedOut(me, db, front) + if ops[|ops| - 1].Enqueue? then [LastId(After(me, db, front)) + 1] else []
  }

  method Run(store: LocalStore, me: u64, ops: seq<Op>) returns (ids: seq<u64>)
    requires store.Valid() && store.states == [store.db] && AllAllowed(me, store.db, ops)
    modifies store, store.engine
    ensures store.Valid() && (store.last.Some? <==> old(store.last).Some?)
    ensures store.db == After(me, old(store.db), ops) && store.states == Trail(me, old(store.db), ops)
    ensures ids == HandedOut(me, old(store.db), ops)
  {
    hide LocalStore.Valid, Allowed, Steps, Last;
    ids := [];
    ghost var db := store.db;
    for i := 0 to |ops|
      invariant store.Valid() && (store.last.Some? <==> old(store.last).Some?) && AllAllowed(me, db, ops[..i])
      invariant store.db == After(me, db, ops[..i]) && store.states == Trail(me, db, ops[..i])
      invariant ids == HandedOut(me, db, ops[..i])
    {
      AllowedPrefix(me, db, ops, i);
      var id := Perform(store, me, ops[i]);
      if id.Some? { ids := ids + [id.value]; }
    }
    assert ops[..|ops|] == ops;
  }

  /** What is left of a file: its first bytes, or all but its last ones. */
  datatype Damage = KeepBytes(n: nat) | LoseBytes(n: nat)

  function Left(damage: Damage, size: nat): (c: nat)
    ensures c <= size
  {
    match damage
    case KeepBytes(n) => if n < size then n else size
    case LoseBytes(n) => if n < size then size - n else 0
  }

  /** Lose the end of the segment written last, and open again: the tables are those
      after the records whose frames are left whole. */
  method Crash(store: LocalStore, began: nat, damage: Damage) returns (again: LocalStore, ghost k: nat)
    requires store.Valid() && store.last.Some? && Seen(store.engine.disk, store.engine.activeId)
    requires store.first == began + 1
    ensures fresh(again) && fresh(again.engine) && again.Valid() && k < |store.states| && again.db == store.states[k]
    ensures |store.states| > 1 ==>
              && store.last.value in store.engine.disk
              && var file := store.engine.disk[store.last.value];
              var log := Records.LogOf(file);
              && file == Records.EncodeAll(log) && 0 < |log| < |store.states|
              && k == |store.states| - 1 - |log| + Records.WholeWithin(log, Left(damage, |file|))
    ensures damage == LoseBytes(0) ==> k == |store.states| - 1
    ensures damage == LoseBytes(1) ==> k == if |store.states| == 1 then 0 else |store.states| - 2
    ensures damage == KeepBytes(0) && |store.states| <= Engine.SEAL_THRESHOLD ==> k == 0
  {
    hide LocalStore.Valid, RecoversTo, Represents, Records.LogOf, Records.WholeWithin, Records.EncodeAll, Seen,
        Engine.Engine.Valid, Engine.Engine.Map;
    store.LastFile();
    store.IsNumbered();
    var files, id := store.engine.disk, store.engine.activeId;
    if id == began && |files[id]| == 0 {
      k := 0;
      store.IsBacked();
      store.Reopens();
      again := LocalStore.Open(files, store.engine.Map(), store.db);
    } else {
      var w := if |files[id]| > 0 then id else id - 1;
      var c := Left(damage, |files[w]|);
      ghost var m;
      k, m := store.Cuts(c);
      Records.OneByteShort(Records.LogOf(files[w]));
      Records.NothingLeft(Records.LogOf(files[w]));
      again := LocalStore.Open(Cut(files, w, c), m, store.states[k]);
    }
  }

  lemma StartsNew(files: Disk, active: nat, n: nat)
    requires Lifetimes.Room(files, n + 1) && (active == 0 || (Named(active - 1) && active - 1 in files))
    requires forall id :: id in files && Named(id) ==> id < active
    ensures active !in files && forall id: nat :: id <= active + n ==> Named(id)
  {
    hide Named;
    forall id: nat | id <= active + n ensures Named(id) {
      NamedBelow(id, if active == 0 then n + 1 else active - 1 + (n + 1));
    }
  }

  lemma StaysNamed(store: LocalStore, active: nat)
    requires store.Valid() && store.first == active + 1 && forall id: nat :: id <= active + |store.states| ==> Named(id)
    ensures Seen(store.engine.disk, store.engine.activeId)
  {
    hide Represents, Traces, Engine.Engine.Valid, Engine.Engine.Aligned, Engine.Engine.Map, Engine.Engine.Log, Named,
        LocalStore.WroteSince;
    store.IsNumbered();
  }

  /** Open any directory, run, crash, and open again: the tables are those after some
      record of the run, after all of them when nothing is lost. */
  method RunThenCrash(files: Disk, me: u64, ops: seq<Op>, damage: Damage, ghost m: map<Bytes, Bytes>, ghost db: Db)
      returns (again: LocalStore, ids: seq<u64>, ghost k: nat)
    requires RecoversTo(files, m) && Represents(m, db) && AllAllowed(me, db, ops)
    requires Lifetimes.Room(files, |Trail(me, db, ops)| + 1)
    ensures fresh(again) && fresh(again.engine) && again.Valid() && ids == HandedOut(me, db, ops)
    ensures k < |Trail(me, db, ops)| && again.db == Trail(me, db, ops)[k]
    ensures damage == LoseBytes(0) ==> k == |Trail(me, db, ops)| - 1
    ensures damage == LoseBytes(1) ==> k == if |Trail(me, db, ops)| == 1 then 0 else |Trail(me, db, ops)| - 2
    ensures damage == KeepBytes(0) && |Trail(me, db, ops)| <= Engine.SEAL_THRESHOLD ==> k == 0
  {
    hide LocalStore.Valid, RecoversTo, Represents, Lifetimes.Room, Records.LogOf, Records.WholeWithin,
        Records.EncodeAll, Seen, Named, Trail, AllAllowed, After, HandedOut;
    var store := LocalStore.Open(files, m, db);
    var active := store.engine.activeId;
    StartsNew(files, active, |Trail(me, db, ops)|);
    ids := Run(store, me, ops);
    StaysNamed(store, active);
    again, k := Crash(store, active, damage);
  }

  // ------------------------------------------------------------- what is missing

  /** `peer`'s or anyone's conversation holds my message with this local id. */
  predicate IsMine(me: u64, m: Msg, id: u64) {
    m.from == me && m.clientMsgId == id
  }

  predicate Filed(me: u64, db: Db, id: u64) {
    exists at :: at in db.messages && IsMine(me, db.messages[at], id)
  }

  /** This id was handed out, and its message is neither waiting to be sent nor filed. */
  predicate IsMissing(me: u64, db: Db, id: u64) {
    1 <= id <= LastId(db) && id !in db.pending && !Filed(me, db, id)
  }

  /** Filing `m` at `at` takes the place of my only copy of message `id`. */
  predicate Overwrites(me: u64, db: Db, at: (u64, u64), m: Msg, id: u64) {
    && at in db.messages && IsMine(me, db.messages[at], id) && !IsMine(me, m, id)
    && id !in db.pending && 1 <= id <= LastId(db)
    && forall other :: other in db.messages && other != at ==> !IsMine(me, db.messages[other], id)
  }

  lemma FiledNext(me: u64, db: Db, at: (u64, u64), m: Msg, id: u64)
    ensures var after := db.(messages := db.messages[at := m]);
            Filed(me, after, id) <==>
              || IsMine(me, m, id)
              || exists other :: other in db.messages && other != at && IsMine(me, db.messages[other], id)
  {
    hide IsMine;
    var after := db.(messages := db.messages[at := m]);
    if IsMine(me, m, id) { assert after.messages[at] == m; }
    if other :| other in db.messages && other != at && IsMine(me, db.messages[other], id) {
      assert after.messages[other] == db.messages[other];
    }
  }

  lemma MissingOnFiling(me: u64, db: Db, at: (u64, u64), m: Msg, id: u64)
    ensures IsMissing(me, db.(messages := db.messages[at := m]), id) <==>
            (IsMissing(me, db, id) && !IsMine(me, m, id)) || Overwrites(me, db, at, m, id)
  {
    FiledNext(me, db, at, m, id);
    hide IsMine;
  }

  lemma MissingOnRemoval(me: u64, db: Db, gone: u64, id: u64)
    requires Sane(db)
    ensures IsMissing(me, db.(pending := db.pending - {gone}), id) <==>
            IsMissing(me, db, id) || (id == gone && id in db.pending && !Filed(me, db, id))
  {
    hide IsMine;
  }

  /** The operation files my message `id`. */
  predicate Files(me: u64, op: Op, id: u64) {
    match op
    case Acknowledge(acked, _, _, _) => acked == id
    case Receive(msg) => IsMine(me, msg, id)
    case _ => false
  }

  /** Done in full, the operation takes my message `id` out of both tables. */
  predicate Loses(me: u64, db: Db, op: Op, id: u64) {
    match op
    case Acknowledge(_, msgId, to, _) => Overwrites(me, db, (to, msgId), Sent(me, op), id)
    case Receive(msg) => Overwrites(me, db, (msg.from, msg.msgId), msg, id)
    case Drop(dropped) => id == dropped && id in db.pending && !Filed(me, db, id)
    case _ => false
  }

  /** Cut between its two records, the operation leaves message `id` in neither table. */
  predicate LosesBetween(me: u64, db: Db, op: Op, id: u64) {
    match op
    case Enqueue(_, _) => id == LastId(db) + 1 && !Filed(me, db, id)
    case Acknowledge(acked, _, _, _) => id == acked && id in db.pending && !Filed(me, db, id)
    case _ => false
  }

  lemma FilingIsSane(db: Db, at: (u64, u64), m: Msg)
    requires Sane(db) && m.msgId == at.1 && |m.content| <= MAX_CONTENT
    ensures Sane(db.(messages := db.messages[at := m]))
  {}

  lemma PendingIsSane(db: Db, id: u64, p: PendingMsg)
    requires Sane(db) && p.clientMsgId == id && |p.content| <= MAX_CONTENT && 1 <= id <= LastId(db)
    ensures Sane(db.(pending := db.pending[id := p]))
  {}

  lemma RestIsSane(db: Db, id: u64, cursor: u64)
    requires Sane(db)
    ensures Sane(db.(pending := db.pending - {id})) && Sane(db.(cursor := Some(cursor)))
    ensures LastId(db) < U64_MAX ==> Sane(db.(seqNo := Some(LastId(db) + 1)))
    ensures id in db.pending ==>
              db.pending[id].clientMsgId == id && |db.pending[id].content| <= MAX_CONTENT && 1 <= id <= LastId(db)
  {}

  lemma StepsStaySane(me: u64, db: Db, op: Op)
    requires Sane(db) && Allowed(db, op)
    ensures forall s :: s in Steps(me, db, op) ==> Sane(s) && LastId(db) <= LastId(s) <= LastId(Last(db,
        Steps(me, db, op)))
    ensures op.Enqueue? ==> forall s :: s in Steps(me, db, op) ==> LastId(s) == LastId(db) + 1
    ensures Sane(Last(db, Steps(me, db, op)))
  {
    hide Sane;
    RestIsSane(db, if op.Enqueue? || op.Receive? || op.SetCursor? then 0 else op.id, if op.SetCursor? then op.cursor
        else 0);
    match op
    case Enqueue(to, content) =>
      var id := LastId(db) + 1;
      PendingIsSane(db.(seqNo := Some(id)), id, PendingMsg(id, to, content, 0));
    case Acknowledge(id, msgId, to, _) => FilingIsSane(db.(pending := db.pending - {id}), (to, msgId), Sent(me, op));
    case Receive(msg) => FilingIsSane(db, (msg.from, msg.msgId), msg);
    case SetAttempts(id, attempts) =>
      if id in db.pending { PendingIsSane(db, id, db.pending[id].(attempts := attempts)); }
    case _ =>
  }

  /** What one operation does to what is missing, in full and cut short. */
  lemma MissingAfterOp(me: u64, db: Db, op: Op, id: u64)
    requires Sane(db) && Allowed(db, op)
    ensures IsMissing(me, Last(db, Steps(me, db, op)), id) <==>
            (IsMissing(me, db, id) && !Files(me, op, id)) || Loses(me, db, op, id)
    ensures |Steps(me, db, op)| == 2 ==>
              (IsMissing(me, Steps(me, db, op)[0], id) <==> IsMissing(me, db, id) || LosesBetween(me, db, op, id))
  {
    match op
    case Acknowledge(acked, msgId, to, _) =>
      var removed := db.(pending := db.pending - {acked});
      MissingOnRemoval(me, db, acked, id);
      MissingOnFiling(me, removed, (to, msgId), Sent(me, op), id);
      assert Overwrites(me, removed, (to, msgId), Sent(me, op), id) <==>
             Overwrites(me, db, (to, msgId), Sent(me, op), id);
    case Receive(msg) => MissingOnFiling(me, db, (msg.from, msg.msgId), msg, id);
    case Drop(dropped) => MissingOnRemoval(me, db, dropped, id);
    case _ =>
  }

  /** Operation `i` of a run loses message `id`, and none after it files it. */
  predicate LostAt(me: u64, db: Db, ops: seq<Op>, i: nat, id: u64) {
    && i < |ops| && AllAllowed(me, db, ops[..i]) && Loses(me, After(me, db, ops[..i]), ops[i], id)
    && forall j :: i < j < |ops| ==> !Files(me, ops[j], id)
  }

  lemma LostAtNext(me: u64, db: Db, ops: seq<Op>, i: nat, id: u64)
    requires ops != [] && i < |ops| - 1
    ensures LostAt(me, db, ops, i, id) <==>
            LostAt(me, db, ops[..|ops| - 1], i, id) && !Files(me, ops[|ops| - 1], id)
  {
    hide Files, Loses;
    var front := ops[..|ops| - 1];
    assert front[..i] == ops[..i];
    if LostAt(me, db, front, i, id) && !Files(me, ops[|ops| - 1], id) {
      forall j | i < j < |ops| ensures !Files(me, ops[j], id) {
        if j < |front| { assert ops[j] == front[j]; }
      }
    }
    if LostAt(me, db, ops, i, id) {
      forall j | i < j < |front| ensures !Files(me, front[j], id) { assert ops[j] == front[j]; }
    }
  }

  /** After a whole run a message is missing exactly when it was missing before, or some
      operation gave it up or wrote over its only copy, and none has filed it since. */
  lemma {:induction false} MissingIff(me: u64, db: Db, ops: seq<Op>, id: u64)
    requires Sane(db) && AllAllowed(me, db, ops)
    ensures Sane(After(me, db, ops))
    ensures IsMissing(me, After(me, db, ops), id) <==>
            || (IsMissing(me, db, id) && forall j :: 0 <= j < |ops| ==> !Files(me, ops[j], id))
            || exists i :: LostAt(me, db, ops, i, id)
  {
    hide Sane, IsMissing, Files, Loses, Allowed, Steps, Last;
    if ops != [] {
      var n := |ops| - 1;
      var front, before := ops[..n], After(me, db, ops[..n]);
      MissingIff(me, db, front, id);
      StepsStaySane(me, before, ops[n]);
      MissingAfterOp(me, before, ops[n], id);
      assert LostAt(me, db, ops, n, id) <==> Loses(me, before, ops[n], id);
      forall i: nat | i < n
        ensures LostAt(me, db, ops, i, id) <==> LostAt(me, db, front, i, id) && !Files(me, ops[n], id) {
        LostAtNext(me, db, ops, i, id);
      }
    }
  }

  // ------------------------------------------------------------------ the crash

  /** The whole operations before record `k`, and whether the next one has begun. */
  lemma {:induction false} CutAt(me: u64, db: Db, ops: seq<Op>, k: nat) returns (i: nat)
    requires AllAllowed(me, db, ops) && k < |Trail(me, db, ops)|
    ensures i <= |ops| && AllAllowed(me, db, ops[..i])
    ensures var before, done := After(me, db, ops[..i]), |Trail(me, db, ops[..i])|;
            if k < done then k == done - 1 && Trail(me, db, ops)[k] == before
            else && k == done && i < |ops| && Allowed(before, ops[i]) && |Steps(me, before, ops[i])| == 2
                 && Trail(me, db, ops)[k] == Steps(me, before, ops[i])[0]
  {
    TrailEnds(me, db, ops);
    hide Allowed;
    assert ops[..|ops|] == ops;
    if ops == [] || k == |Trail(me, db, ops)| - 1 {
      i := |ops|;
    } else {
      var front := ops[..|ops| - 1];
      TrailEnds(me, db, front);
      if k < |Trail(me, db, front)| {
        i := CutAt(me, db, front, k);
        assert front[..i] == ops[..i];
      } else {
        i := |front|;
      }
    }
  }

  /** A crash of a run leaves a message in neither table exactly when it was in neither
      after the last whole operation, or the cut falls between the two records of the
      operation that hands its id out or acknowledges it. */
  lemma CrashLosesIff(me: u64, db: Db, ops: seq<Op>, k: nat, id: u64) returns (i: nat)
    requires Sane(db) && AllAllowed(me, db, ops) && k < |Trail(me, db, ops)|
    ensures i <= |ops| && AllAllowed(me, db, ops[..i])
    ensures var before, done := After(me, db, ops[..i]), |Trail(me, db, ops[..i])|;
            && done - 1 <= k <= done && (k == done ==> i < |ops|)
            && (IsMissing(me, Trail(me, db, ops)[k], id) <==>
                IsMissing(me, before, id) || (k == done && LosesBetween(me, before, ops[i], id)))
  {
    hide Sane, IsMissing, Loses, Files, Allowed, Steps, Last, LosesBetween;
    i := CutAt(me, db, ops, k);
    MissingIff(me, db, ops[..i], id);
    if k == |Trail(me, db, ops[..i])| { MissingAfterOp(me, After(me, db, ops[..i]), ops[i], id); }
  }

  lemma {:induction false} TrailPrefix(me: u64, db: Db, ops: seq<Op>, i: nat)
    requires AllAllowed(me, db, ops) && i <= |ops|
    ensures AllAllowed(me, db, ops[..i]) && Trail(me, db, ops[..i]) <= Trail(me, db, ops)
  {
    hide Allowed, Steps, Last;
    if i == |ops| {
      assert ops[..i] == ops;
    } else {
      TrailPrefix(me, db, ops[..|ops| - 1], i);
      assert ops[..|ops| - 1][..i] == ops[..i];
    }
  }

  lemma GrowingSteps(me: u64, db: Db, op: Op, j: nat, k: nat)
    requires Sane(db) && Allowed(db, op) && j <= k < |Steps(me, db, op)|
    ensures Sane(Steps(me, db, op)[k])
    ensures LastId(db) <= LastId(Steps(me, db, op)[j]) <= LastId(Steps(me, db, op)[k])
  {
    StepsStaySane(me, db, op);
  }

  /** The last id handed out never falls. */
  lemma {:induction false} IdsGrow(me: u64, db: Db, ops: seq<Op>, j: nat, k: nat)
    requires Sane(db) && AllAllowed(me, db, ops) && j <= k < |Trail(me, db, ops)|
    ensures Sane(Trail(me, db, ops)[k]) && LastId(Trail(me, db, ops)[j]) <= LastId(Trail(me, db, ops)[k])
  {
    hide Sane, Allowed, Steps, Last, LastId;
    if ops != [] {
      var n := |ops| - 1;
      var front, before := ops[..n], After(me, db, ops[..n]);
      var whole := |Trail(me, db, front)|;
      TrailEnds(me, db, front);
      IdsGrow(me, db, front, if j < whole then j else whole - 1, if k < whole then k else whole - 1);
      if k >= whole { GrowingSteps(me, before, ops[n], if j < whole then 0 else j - whole, k - whole); }
    }
  }

  /** After a crash the store goes on counting below the id that operation `i` handed
      out, so that it will hand it out again, exactly when the cut falls before the
      record of the counter, the first of the two. */
  lemma HandedOutAgainIff(me: u64, db: Db, ops: seq<Op>, i: nat, k: nat)
    requires Sane(db) && AllAllowed(me, db, ops) && k < |Trail(me, db, ops)| && i < |ops| && ops[i].Enqueue?
    ensures AllAllowed(me, db, ops[..i])
    ensures LastId(Trail(me, db, ops)[k]) < LastId(After(me, db, ops[..i])) + 1 <==> k < |Trail(me, db, ops[..i])|
  {
    AllowedPrefix(me, db, ops, i);
    TrailPrefix(me, db, ops, i);
    TrailPrefix(me, db, ops, i + 1);
    TrailEnds(me, db, ops[..i]);
    var before, done := After(me, db, ops[..i]), |Trail(me, db, ops[..i])|;
    assert Trail(me, db, ops[..i + 1]) == Trail(me, db, ops[..i]) + Steps(me, before, ops[i]);
    assert Trail(me, db, ops)[done] == Steps(me, before, ops[i])[0];
    assert Trail(me, db, ops)[done - 1] == before;
    hide Sane, Allowed, AllAllowed, After, Trail;
    if k < done { IdsGrow(me, db, ops, k, done - 1); } else { IdsGrow(me, db, ops, done, k); }
  }

  /** My filed messages have ids that were handed out. */
  predicate KnownIds(me: u64, db: Db) {
    forall at :: at in db.messages && db.messages[at].from == me ==> db.messages[at].clientMsgId <= LastId(db)
  }

  /** It acknowledges an id that was handed out, and what comes in from me has such an id. */
  predicate Answers(me: u64, db: Db, op: Op) {
    match op
    case Acknowledge(id, _, _, _) => id <= LastId(db)
    case Receive(msg) => msg.from == me ==> msg.clientMsgId <= LastId(db)
    case _ => true
  }

  predicate AllAnswer(me: u64, db: Db, ops: seq<Op>)
    requires AllAllowed(me, db, ops)
  {
    ops != [] ==>
      var front := ops[..|ops| - 1];
      AllAnswer(me, db, front) && Answers(me, After(me, db, front), ops[|ops| - 1])
  }

  lemma StepsStayKnown(me: u64, db: Db, op: Op)
    requires KnownIds(me, db) && Allowed(db, op) && Answers(me, db, op)
    ensures KnownIds(me, Last(db, Steps(me, db, op))) && forall s :: s in Steps(me, db, op) ==> KnownIds(me, s)
  {}

  lemma {:induction false} TrailKnown(me: u64, db: Db, ops: seq<Op>, k: nat)
    requires KnownIds(me, db) && AllAllowed(me, db, ops) && AllAnswer(me, db, ops) && k < |Trail(me, db, ops)|
    ensures KnownIds(me, Trail(me, db, ops)[k]) && KnownIds(me, After(me, db, ops))
  {
    hide KnownIds, Allowed, Answers, Steps, Last;
    if ops != [] {
      var n := |ops| - 1;
      var front, before := ops[..n], After(me, db, ops[..n]);
      var whole := |Trail(me, db, front)|;
      TrailKnown(me, db, front, if k < whole then k else 0);
      StepsStayKnown(me, before, ops[n]);
      if k >= whole { assert Trail(me, db, ops)[k] == Steps(me, before, ops[n])[k - whole]; }
    }
  }

  /** Wherever the cut falls, the next id to be handed out is greater than that of every
      message still pending or filed. */
  lemma NextIdIsNew(me: u64, db: Db, ops: seq<Op>, k: nat)
    requires Sane(db) && KnownIds(me, db) && AllAllowed(me, db, ops) && AllAnswer(me, db, ops)
    requires k < |Trail(me, db, ops)|
    ensures KnownIds(me, After(me, db, ops))
    ensures var cut := Trail(me, db, ops)[k];
            && (forall id :: id in cut.pending ==> id < LastId(cut) + 1)
            && forall id: u64 :: Filed(me, cut, id) ==> id < LastId(cut) + 1
  {
    IdsGrow(me, db, ops, k, k);
    TrailKnown(me, db, ops, k);
    hide AllAllowed, AllAnswer, Trail, After;
  }

  function SendAndConfirm(to: u64, msgId: u64, content: Bytes): seq<Op> {
    [Enqueue(to, content), Acknowledge(1, msgId, to, content)]
  }

  /** Four records: the third takes the message off the pending table. */
  lemma ConfirmTrail(me: u64, to: u64, msgId: u64, content: Bytes)
    requires |content| <= MAX_CONTENT
    ensures var ops := SendAndConfirm(to, msgId, content);
            && AllAllowed(me, EMPTY, ops) && |Trail(me, EMPTY, ops)| == 5
            && Trail(me, EMPTY, ops)[3] == EMPTY.(seqNo := Some(1)) && HandedOut(me, EMPTY, ops) == [1]
  {
    var ops := SendAndConfirm(to, msgId, content);
    var none: seq<Op> := [];
    assert ops[..1] == [ops[0]] && ops[..1][..0] == none;
    assert AllAllowed(me, EMPTY, none) && After(me, EMPTY, none) == EMPTY && Trail(me, EMPTY, none) == [EMPTY];
    var sent := EMPTY.(seqNo := Some(1), pending := map[1 := PendingMsg(1, to, content, 0)]);
    assert AllAllowed(me, EMPTY, ops[..1]) && After(me, EMPTY, ops[..1]) == sent;
    assert HandedOut(me, EMPTY, none) == [] && HandedOut(me, EMPTY, ops[..1]) == [1];
    assert |Trail(me, EMPTY, ops[..1])| == 3;
    assert sent.pending - {1} == map[];
  }

  lemma EmptyDirectory()
    ensures RecoversTo(map[], map[]) && Lifetimes.Room(map[], 4) && Lifetimes.Room(map[], 6)
  {
    NamedIff(4);
    NamedIff(6);
    hide Named;
    var ids: seq<nat> := [];
    assert Listed(map[]) == map[];
    NoLog(map[]);
    assert Found(ids, map[]);
  }

  /** A message is sent and confirmed, and the crash takes a byte: it is in neither table. */
  method ConfirmCutShort(me: u64, to: u64, msgId: u64, content: Bytes) returns (again: LocalStore, ids: seq<u64>)
    requires |content| <= MAX_CONTENT
    ensures again.Valid() && ids == [1] && IsMissing(me, again.db, 1)
  {
    hide LocalStore.Valid, RecoversTo, Represents, Lifetimes.Room, Trail, AllAllowed, HandedOut;
    ConfirmTrail(me, to, msgId, content);
    EmptyDirectory();
    EmptyRepresents();
    ghost var k;
    again, ids, k := RunThenCrash(map[], me, SendAndConfirm(to, msgId, content), LoseBytes(1), map[], EMPTY);
  }

  lemma SendTrail(me: u64, to: u64, content: Bytes)
    requires |content| <= MAX_CONTENT
    ensures var ops := [Enqueue(to, content)];
            && AllAllowed(me, EMPTY, ops) && |Trail(me, EMPTY, ops)| == 3
            && Trail(me, EMPTY, ops)[0] == EMPTY && HandedOut(me, EMPTY, ops) == [1]
  {
    var ops, none: seq<Op> := [Enqueue(to, content)], [];
    assert ops[..0] == none;
    assert AllAllowed(me, EMPTY, none) && After(me, EMPTY, none) == EMPTY && Trail(me, EMPTY, none) == [EMPTY];
    assert HandedOut(me, EMPTY, none) == [];
  }

  /** A message is sent, the crash takes all of the file, and the next one gets its id. */
  method IdHandedOutAgain(me: u64, to: u64, content: Bytes) returns (ids: seq<u64>, next: u64)
    requires |content| <= MAX_CONTENT
    ensures ids == [1] && next == 1
  {
    hide LocalStore.Valid, RecoversTo, Represents, Lifetimes.Room, Trail, AllAllowed, HandedOut;
    SendTrail(me, to, content);
    EmptyDirectory();
    EmptyRepresents();
    var again;
    ghost var k;
    again, ids, k := RunThenCrash(map[], me, [Enqueue(to, content)], KeepBytes(0), map[], EMPTY);
    next := again.EnqueueOutgoing(to, content);
  }
}
