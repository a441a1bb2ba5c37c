/** The resend mailbox: messages in flight, beside their persisted table. */
module Outbox {
  import opened Wrappers
  import opened Arith
  import opened Payload
  import opened Store
  import Engine
  import Directory
  import Merge

  /** In milliseconds, like all times here. */
  const RETRY_DELAY_CAP: nat := 30_000

  datatype Inflight = Inflight(clientMsgId: u64, to: u64, content: Bytes, attempts: u32, deadline: nat)

  function ToMsg(e: Inflight): Msg {
    Msg(0, e.to, 0, e.clientMsgId, e.content)
  }

  // -------------------------------------------------------------------- backoff

  function BackoffDelay(rto: nat, attempts: nat): nat {
    var shift := if attempts == 0 then 0 else if attempts - 1 > 16 then 16 else attempts - 1;
    var delay := Scale(rto, shift);
    if delay > RETRY_DELAY_CAP then RETRY_DELAY_CAP else delay
  }

  /** The delay starts at the timeout, doubles with every attempt up to the
      seventeenth, and never passes the cap. */
  lemma BackoffDoubles(rto: nat, attempts: nat)
    ensures BackoffDelay(rto, attempts) <= RETRY_DELAY_CAP == 30_000
    ensures attempts <= 1 ==> BackoffDelay(rto, attempts) == if rto > RETRY_DELAY_CAP then RETRY_DELAY_CAP else rto
    ensures 1 <= attempts <= 16 ==>
              var twice := 2 * BackoffDelay(rto, attempts);
              BackoffDelay(rto, attempts + 1) == if twice > RETRY_DELAY_CAP then RETRY_DELAY_CAP else twice
    ensures attempts >= 17 ==> BackoffDelay(rto, attempts) == BackoffDelay(rto, 17)
  {
    if attempts >= 1 { ScaleStep(rto, attempts - 1); }
    assert Scale(rto, 0) == rto;
    hide Scale;
  }

  // ----------------------------------------------------------------- accounting

  /** What became of the messages that are no longer in flight, and how often each
      was sent again because it was due. */
  datatype Ledger = Ledger(acked: set<u64>, failed: set<u64>, resent: map<u64, nat>)

  function ResentOf(ledger: Ledger, id: u64): nat {
    if id in ledger.resent then ledger.resent[id] else 0
  }

  /** Every id ever handed out is pending, acknowledged or given up, and only one of
      these; nothing was sent again more often than the limit. */
  ghost predicate Accounted(db: Db, ledger: Ledger, max: nat) {
    && (forall id: u64 :: id in db.pending || id in ledger.acked || id in ledger.failed <==> 1 <= id <= LastId(db))
    && ledger.acked !! ledger.failed && ledger.acked !! db.pending.Keys && ledger.failed !! db.pending.Keys
    && (forall id: u64 :: ResentOf(ledger, id) <= max)
    && (forall id :: id in db.pending ==> ResentOf(ledger, id) <= db.pending[id].attempts <= max)
    && (forall id :: id in ledger.resent ==> id <= LastId(db))
  }

  predicate Matches(e: Inflight, p: PendingMsg) {
    e.clientMsgId == p.clientMsgId && e.to == p.to && e.content == p.content && p.attempts <= e.attempts
  }

  ghost predicate InFlight(inflight: seq<Inflight>, id: u64) {
    exists i :: 0 <= i < |inflight| && inflight[i].clientMsgId == id
  }

  lemma FlightAt(inflight: seq<Inflight>, i: nat)
    requires i < |inflight|
    ensures InFlight(inflight, inflight[i].clientMsgId)
  {}

  /** The list in memory is the persisted table, by ascending id. */
  ghost predicate InSync(inflight: seq<Inflight>, pending: map<u64, PendingMsg>) {
    && (forall i, j :: 0 <= i < j < |inflight| ==> inflight[i].clientMsgId < inflight[j].clientMsgId)
    && (forall i :: 0 <= i < |inflight| ==>
          inflight[i].clientMsgId in pending && Matches(inflight[i], pending[inflight[i].clientMsgId]))
    && (forall id :: id in pending ==> InFlight(inflight, id))
  }

  function Most(max: nat): nat {
    if max >= 1 then max else 1
  }

  // ------------------------------------------------------------------- one entry

  datatype Treatment = Waits | Retries(again: Inflight) | GivesUp

  /** What a check at time `now` does with an entry. */
  function Treat(e: Inflight, now: nat, rto: nat, max: u32): Treatment {
    if e.deadline > now then Waits
    else if e.attempts + 1 > max then GivesUp
    else Retries(e.(attempts := e.attempts + 1, deadline := now + BackoffDelay(rto, e.attempts + 1)))
  }

  function Kept(es: seq<Inflight>, now: nat, rto: nat, max: u32): seq<Inflight> {
    if es == [] then []
    else
      Kept(es[..|es| - 1], now, rto, max) +
      match Treat(es[|es| - 1], now, rto, max)
      case Waits => [es[|es| - 1]]
      case Retries(again) => [again]
      case GivesUp => []
  }

  function Again(es: seq<Inflight>, now: nat, rto: nat, max: u32): seq<Msg> {
    if es == [] then []
    else
      Again(es[..|es| - 1], now, rto, max) +
      match Treat(es[|es| - 1], now, rto, max)
      case Retries(again) => [ToMsg(again)]
      case _ => []
  }

  function Dropped(es: seq<Inflight>, now: nat, rto: nat, max: u32): seq<u64> {
    if es == [] then []
    else
      Dropped(es[..|es| - 1], now, rto, max) +
      if Treat(es[|es| - 1], now, rto, max).GivesUp? then [es[|es| - 1].clientMsgId] else []
  }

  /** The persisted table after the check. */
  function PendingAfter(pending: map<u64, PendingMsg>, es: seq<Inflight>, now: nat, rto: nat, max: u32)
    : map<u64, PendingMsg>
  {
    if es == [] then pending
    else
      var p, id := PendingAfter(pending, es[..|es| - 1], now, rto, max), es[|es| - 1].clientMsgId;
      match Treat(es[|es| - 1], now, rto, max)
      case Waits => p
      case GivesUp => p - {id}
      case Retries(again) => if id in p then p[id := p[id].(attempts := again.attempts)] else p
  }

  lemma NothingPending(pending: map<u64, PendingMsg>, now: nat, rto: nat, max: u32)
    ensures PendingAfter(pending, [], now, rto, max) == pending
  {}

  lemma PendingNext(pending: map<u64, PendingMsg>, es: seq<Inflight>, p: nat, now: nat, rto: nat, max: u32)
    requires p < |es|
    ensures var before, id := PendingAfter(pending, es[..p], now, rto, max), es[p].clientMsgId;
            var after := PendingAfter(pending, es[..p + 1], now, rto, max);
            match Treat(es[p], now, rto, max)
            case Waits => after == before
            case GivesUp => after == before - {id}
            case Retries(again) =>
              after == if id in before then before[id := before[id].(attempts := again.attempts)] else before
  {
    assert es[..p + 1][..p] == es[..p];
  }

  // ------------------------------------------------------------ what a step keeps

  lemma SyncSnoc(inflight: seq<Inflight>, pending: map<u64, PendingMsg>, e: Inflight, p: PendingMsg)
    requires InSync(inflight, pending) && Matches(e, p)
    requires forall id :: id in pending ==> id < e.clientMsgId
    ensures InSync(inflight + [e], pending[e.clientMsgId := p])
  {
    var after := inflight + [e];
    forall id | id in pending[e.clientMsgId := p] ensures InFlight(after, id) {
      if id == e.clientMsgId {
        FlightAt(after, |inflight|);
      } else {
        var i :| 0 <= i < |inflight| && inflight[i].clientMsgId == id;
        FlightAt(after, i);
      }
    }
    hide InFlight, Matches;
  }

  function Without(inflight: seq<Inflight>, i: nat): (r: seq<Inflight>)
    requires i < |inflight|
    ensures |r| == |inflight| - 1
    ensures forall j :: 0 <= j < |r| ==> r[j] == inflight[if j < i then j else j + 1]
  {
    inflight[..i] + inflight[i + 1..]
  }

  lemma FlightWithout(inflight: seq<Inflight>, i: nat, id: u64)
    requires i < |inflight| && InFlight(inflight, id) && id != inflight[i].clientMsgId
    ensures InFlight(Without(inflight, i), id)
  {
    var j :| 0 <= j < |inflight| && inflight[j].clientMsgId == id;
    FlightAt(Without(inflight, i), if j < i then j else j - 1);
  }

  lemma SyncRemove(inflight: seq<Inflight>, pending: map<u64, PendingMsg>, i: nat)
    requires InSync(inflight, pending) && i < |inflight|
    ensures InSync(Without(inflight, i), pending - {inflight[i].clientMsgId})
  {
    hide InFlight, Matches;
    forall id | id in pending && id != inflight[i].clientMsgId ensures InFlight(Without(inflight, i), id) {
      FlightWithout(inflight, i, id);
    }
    hide Without;
  }

  lemma FlightUpdate(inflight: seq<Inflight>, i: nat, e: Inflight, id: u64)
    requires i < |inflight| && InFlight(inflight, id) && e.clientMsgId == inflight[i].clientMsgId
    ensures InFlight(inflight[i := e], id)
  {
    var j :| 0 <= j < |inflight| && inflight[j].clientMsgId == id;
    FlightAt(inflight[i := e], j);
  }

  lemma SyncUpdate(inflight: seq<Inflight>, pending: map<u64, PendingMsg>, i: nat, e: Inflight, p: PendingMsg)
    requires InSync(inflight, pending) && i < |inflight| && e.clientMsgId == inflight[i].clientMsgId && Matches(e, p)
    ensures InSync(inflight[i := e], pending[e.clientMsgId := p])
  {
    hide InFlight, Matches;
    FlightAt(inflight, i);
    forall id | InFlight(inflight, id) ensures InFlight(inflight[i := e], id) {
      FlightUpdate(inflight, i, e, id);
    }
  }

  lemma AccountEnqueue(db: Db, after: Db, ledger: Ledger, max: nat, p: PendingMsg)
    requires Accounted(db, ledger, max) && p.clientMsgId == LastId(db) + 1 && p.attempts == 0
    requires after.pending == db.pending[p.clientMsgId := p] && LastId(after) == p.clientMsgId
    ensures Accounted(after, ledger, max)
  {}

  lemma AccountRemove(db: Db, after: Db, ledger: Ledger, max: nat, id: u64)
    requires Accounted(db, ledger, max) && id in db.pending
    requires after.pending == db.pending - {id} && LastId(after) == LastId(db)
    ensures Accounted(after, ledger.(acked := ledger.acked + {id}), max)
    ensures Accounted(after, ledger.(failed := ledger.failed + {id}), max)
  {
    var a, f := ledger.(acked := ledger.acked + {id}), ledger.(failed := ledger.failed + {id});
    assert id !in ledger.acked && id !in ledger.failed by { assert id in db.pending.Keys; }
    forall k: u64 ensures ResentOf(a, k) == ResentOf(ledger, k) == ResentOf(f, k) {}
    assert after.pending.Keys == db.pending.Keys - {id};
    forall k: u64 ensures k in after.pending || k in a.acked || k in a.failed <==>
        k in db.pending || k in ledger.acked || k in ledger.failed {}
    forall k: u64 ensures k in after.pending || k in f.acked || k in f.failed <==>
        k in db.pending || k in ledger.acked || k in ledger.failed {}
    hide ResentOf, LastId;
  }

  lemma AccountResend(db: Db, after: Db, ledger: Ledger, max: nat, id: u64, attempts: u32)
    requires Accounted(db, ledger, max) && id in db.pending && db.pending[id].attempts < attempts <= max
    requires after.pending == db.pending[id := db.pending[id].(attempts := attempts)] && LastId(after) == LastId(db)
    ensures Accounted(after, ledger.(resent := ledger.resent[id := ResentOf(ledger, id) + 1]), max)
  {
    var l := ledger.(resent := ledger.resent[id := ResentOf(ledger, id) + 1]);
    forall k: u64 ensures ResentOf(l, k) == if k == id then ResentOf(ledger, k) + 1 else ResentOf(ledger, k) {}
    assert after.pending.Keys == db.pending.Keys;
    assert ResentOf(ledger, id) <= db.pending[id].attempts;
    assert id in db.pending || id in ledger.acked || id in ledger.failed;
    hide ResentOf, LastId;
  }

  // ------------------------------------------------------------------- the mailbox

  lemma LoadedInSync(pending: seq<PendingMsg>, inflight: seq<Inflight>, table: map<u64, PendingMsg>)
    requires IsPendingList(pending, table) && |inflight| == |pending|
    requires forall id :: id in table ==> table[id].clientMsgId == id
    requires forall i :: 0 <= i < |pending| ==>
        inflight[i].clientMsgId == pending[i].clientMsgId && Matches(inflight[i], pending[i])
    ensures InSync(inflight, table)
  {
    forall i | 0 <= i < |pending| ensures pending[i].clientMsgId in table
        && table[pending[i].clientMsgId] == pending[i] {
      assert pending[i] in pending;
    }
    forall id | id in table ensures InFlight(inflight, id) {
      assert table[id] in pending;
      var i :| 0 <= i < |pending| && pending[i] == table[id];
      FlightAt(inflight, i);
    }
  }

  lemma SyncDeadlines(a: seq<Inflight>, b: seq<Inflight>, pending: map<u64, PendingMsg>)
    requires InSync(a, pending) && |a| == |b| && forall i :: 0 <= i < |a| ==> b[i] == a[i].(deadline := b[i].deadline)
    ensures InSync(b, pending)
  {
    forall id | id in pending ensures InFlight(b, id) {
      var i :| 0 <= i < |a| && a[i].clientMsgId == id;
      FlightAt(b, i);
    }
    hide InFlight;
  }

  function CountIn(ms: seq<Msg>, id: u64): nat {
    if ms == [] then 0 else CountIn(ms[..|ms| - 1], id) + if ms[|ms| - 1].clientMsgId == id then 1 else 0
  }

  lemma NothingIn()
    ensures forall id: u64 :: CountIn([], id) == 0
  {}

  lemma CountSnoc(ms: seq<Msg>, m: Msg)
    ensures forall id: u64 :: CountIn(ms + [m], id) == CountIn(ms, id) + if m.clientMsgId == id then 1 else 0
  {
    assert (ms + [m])[..|ms|] == ms;
  }

  lemma ResentStays(ledger: Ledger, k: u64)
    ensures forall id: u64 :: ResentOf(ledger.(failed := ledger.failed + {k}), id) == ResentOf(ledger, id)
  {}

  lemma ResentOnce(ledger: Ledger, k: u64)
    ensures forall id: u64 :: ResentOf(ledger.(resent := ledger.resent[k := ResentOf(ledger, k) + 1]), id)
                              == ResentOf(ledger, id) + if id == k then 1 else 0
  {}

  lemma RetriesOnce(e: Inflight, now: nat, rto: nat, max: u32)
    requires Treat(e, now, rto, max).Retries?
    ensures var again := Treat(e, now, rto, max).again;
            again == e.(attempts := again.attempts, deadline := again.deadline)
                && again.attempts == e.attempts + 1 <= max
  {}

  /** What a check at `now` makes of an entry, in the entry's own fields: it is kept
      before its deadline; after it, it is sent once more and waits longer, or, when it has
      been sent as often as allowed, reported and dropped. */
  ghost predicate IsTreated(e: Inflight, list: seq<Inflight>, resends: seq<Msg>, failed: seq<u64>, now: nat, rto: nat,
      max: u32) {
    var id := e.clientMsgId;
    if e.deadline > now then e in list && CountIn(resends, id) == 0 && id !in failed
    else if e.attempts < max then
      && e.(attempts := e.attempts + 1, deadline := now + BackoffDelay(rto, e.attempts + 1)) in list
      && CountIn(resends, id) == 1 && ToMsg(e) in resends && id !in failed
    else !InFlight(list, id) && CountIn(resends, id) == 0 && id in failed
  }

  lemma FlightSnoc(es: seq<Inflight>, e: Inflight, id: u64)
    ensures InFlight(es + [e], id) <==> InFlight(es, id) || e.clientMsgId == id
  {
    if InFlight(es, id) {
      var i :| 0 <= i < |es| && es[i].clientMsgId == id;
      FlightAt(es + [e], i);
    }
    FlightAt(es + [e], |es|);
  }

  /** The last entry's part in a check. */
  lemma TreatedSnoc(es: seq<Inflight>, id: u64, now: nat, rto: nat, max: u32)
    requires es != []
    ensures var front, last := es[..|es| - 1], es[|es| - 1];
            var t := Treat(last, now, rto, max);
            && CountIn(Again(es, now, rto, max), id) ==
               CountIn(Again(front, now, rto, max), id) + (if t.Retries? && last.clientMsgId == id then 1 else 0)
            && (id in Dropped(es, now, rto, max) <==>
                  id in Dropped(front, now, rto, max) || (t.GivesUp? && last.clientMsgId == id))
            && (InFlight(Kept(es, now, rto, max), id) <==>
                  InFlight(Kept(front, now, rto, max), id) || (!t.GivesUp? && last.clientMsgId == id))
            && (forall x :: x in Kept(front, now, rto, max) ==> x in Kept(es, now, rto, max))
            && (forall x :: x in Again(front, now, rto, max) ==> x in Again(es, now, rto, max))
            && (t.Waits? ==> last in Kept(es, now, rto, max))
            && (t.Retries? ==> t.again in Kept(es, now, rto, max) && ToMsg(t.again) in Again(es, now, rto, max))
  {
    hide Treat, InFlight;
    var front, last := es[..|es| - 1], es[|es| - 1];
    var t := Treat(last, now, rto, max);
    var kept, again := Kept(front, now, rto, max), Again(front, now, rto, max);
    if t.Retries? {
      RetriesOnce(last, now, rto, max);
      CountSnoc(again, ToMsg(t.again));
      FlightSnoc(kept, t.again, id);
    } else {
      assert again + [] == again && kept + [] == kept;
      FlightSnoc(kept, last, id);
    }
  }

  lemma NoneTreated(id: u64, now: nat, rto: nat, max: u32)
    ensures CountIn(Again([], now, rto, max), id) == 0 && id !in Dropped([], now, rto, max)
    ensures !InFlight(Kept([], now, rto, max), id)
  {}

  lemma {:induction false} NotTreated(es: seq<Inflight>, id: u64, now: nat, rto: nat, max: u32)
    requires forall i :: 0 <= i < |es| ==> es[i].clientMsgId != id
    ensures CountIn(Again(es, now, rto, max), id) == 0 && id !in Dropped(es, now, rto, max)
    ensures !InFlight(Kept(es, now, rto, max), id)
  {
    hide Treat, InFlight, Kept, Again, Dropped;
    if es != [] {
      NotTreated(es[..|es| - 1], id, now, rto, max);
      TreatedSnoc(es, id, now, rto, max);
    } else {
      NoneTreated(id, now, rto, max);
    }
  }

  /** One check treats every entry once: it stays, is sent again once, or is given up. */
  lemma {:induction false} EachTreatedOnce(es: seq<Inflight>, k: nat, now: nat, rto: nat, max: u32)
    requires k < |es| && forall i, j :: 0 <= i < j < |es| ==> es[i].clientMsgId < es[j].clientMsgId
    ensures IsTreated(es[k], Kept(es, now, rto, max), Again(es, now, rto, max), Dropped(es, now, rto, max), now, rto,
        max)
  {
    hide InFlight, Kept, Again, Dropped, BackoffDelay, CountIn;
    var front, last, id := es[..|es| - 1], es[|es| - 1], es[k].clientMsgId;
    TreatedSnoc(es, id, now, rto, max);
    if k < |es| - 1 {
      assert front[k] == es[k];
      EachTreatedOnce(front, k, now, rto, max);
    } else {
      NotTreated(front, id, now, rto, max);
    }
  }

  /** The answers of a check are in the order of the list. */
  ghost predicate InOrder(resends: seq<Msg>, failed: seq<u64>) {
    && (forall i, j :: 0 <= i < j < |resends| ==> resends[i].clientMsgId < resends[j].clientMsgId)
    && (forall i, j :: 0 <= i < j < |failed| ==> failed[i] < failed[j])
  }

  lemma BelowLast(es: seq<Inflight>, id: u64)
    requires es != [] && forall i, j :: 0 <= i < j < |es| ==> es[i].clientMsgId < es[j].clientMsgId
    requires InFlight(es[..|es| - 1], id)
    ensures id < es[|es| - 1].clientMsgId && InFlight(es, id)
  {
    var i :| 0 <= i < |es| - 1 && es[i].clientMsgId == id;
  }

  lemma {:induction false} AnswersInOrder(es: seq<Inflight>, now: nat, rto: nat, max: u32)
    requires forall i, j :: 0 <= i < j < |es| ==> es[i].clientMsgId < es[j].clientMsgId
    ensures InOrder(Again(es, now, rto, max), Dropped(es, now, rto, max))
    ensures forall m :: m in Again(es, now, rto, max) ==> InFlight(es, m.clientMsgId)
    ensures forall id :: id in Dropped(es, now, rto, max) ==> InFlight(es, id)
  {
    hide Treat, InFlight;
    if es != [] {
      var front, last := es[..|es| - 1], es[|es| - 1];
      AnswersInOrder(front, now, rto, max);
      FlightAt(es, |es| - 1);
      var again, dropped, t := Again(front, now, rto, max), Dropped(front, now, rto, max), Treat(last, now, rto, max);
      if t.Retries? { RetriesOnce(last, now, rto, max); }
      forall i | 0 <= i < |again| ensures again[i].clientMsgId < last.clientMsgId
          && InFlight(es, again[i].clientMsgId) {
        assert again[i] in again;
        BelowLast(es, again[i].clientMsgId);
      }
      forall i | 0 <= i < |dropped| ensures dropped[i] < last.clientMsgId && InFlight(es, dropped[i]) {
        assert dropped[i] in dropped;
        BelowLast(es, dropped[i]);
      }
      forall m | m in again ensures InFlight(es, m.clientMsgId) {
        var i :| 0 <= i < |again| && again[i] == m;
      }
      forall id | id in dropped ensures InFlight(es, id) {
        var i :| 0 <= i < |dropped| && dropped[i] == id;
      }
    }
  }

  /** The first `p` old entries are treated, the rest still stands from index `i` on. */
  ghost predicate Splits(es: seq<Inflight>, p: nat, list: seq<Inflight>, i: nat, resends: seq<Msg>, failed: seq<u64>,
      now: nat, rto: nat, max: u32) {
    && p <= |es| && i == |Kept(es[..p], now, rto, max)|
    && list == Kept(es[..p], now, rto, max) + es[p..]
    && resends == Again(es[..p], now, rto, max)
    && failed == Dropped(es[..p], now, rto, max)
  }

  lemma SplitsSizes(es: seq<Inflight>, p: nat, list: seq<Inflight>, i: nat, resends: seq<Msg>, failed: seq<u64>,
      now: nat, rto: nat, max: u32)
    requires Splits(es, p, list, i, resends, failed, now, rto, max)
    ensures p <= |es| && |list| == i + (|es| - p)
  {}

  lemma SplitsFirst(es: seq<Inflight>, now: nat, rto: nat, max: u32)
    ensures Splits(es, 0, es, 0, [], [], now, rto, max)
  {
    assert es[..0] == [] && [] + es[0..] == es;
  }

  lemma SplitsNext(es: seq<Inflight>, p: nat, list: seq<Inflight>, i: nat, resends: seq<Msg>, failed: seq<u64>,
      now: nat, rto: nat, max: u32)
    requires Splits(es, p, list, i, resends, failed, now, rto, max) && p < |es|
    ensures i < |list| && list[i] == es[p]
    ensures match Treat(es[p], now, rto, max)
            case Waits => Splits(es, p + 1, list, i + 1, resends, failed, now, rto, max)
            case GivesUp => Splits(es, p + 1, Without(list, i), i, resends, failed + [es[p].clientMsgId], now, rto, max)
            case Retries(again) =>
              Splits(es, p + 1, list[i := again], i + 1, resends + [ToMsg(again)], failed, now, rto, max)
  {
    hide Treat;
    assert es[..p + 1][..p] == es[..p];
    var k := Kept(es[..p], now, rto, max);
    assert list[..i] == k && list[i + 1..] == es[p + 1..];
    assert list == k + [es[p]] + es[p + 1..];
    assert resends + [] == resends && failed + [] == failed && k + [] == k;
  }

  lemma SplitsLast(es: seq<Inflight>, p: nat, list: seq<Inflight>, i: nat, resends: seq<Msg>, failed: seq<u64>,
      now: nat, rto: nat, max: u32)
    requires Splits(es, p, list, i, resends, failed, now, rto, max) && p == |es|
    ensures list == Kept(es, now, rto, max) && resends == Again(es, now, rto, max)
        && failed == Dropped(es, now, rto, max)
  {
    assert es[..p] == es && es[p..] == [];
  }

  /** The list without the entry of an id. */
  function WithoutId(es: seq<Inflight>, id: u64): seq<Inflight> {
    if es == [] then []
    else WithoutId(es[..|es| - 1], id) + if es[|es| - 1].clientMsgId == id then [] else [es[|es| - 1]]
  }

  lemma {:induction false} WithoutIdAbsent(es: seq<Inflight>, id: u64)
    requires forall i :: 0 <= i < |es| ==> es[i].clientMsgId != id
    ensures WithoutId(es, id) == es
  {
    if es != [] { WithoutIdAbsent(es[..|es| - 1], id); }
  }

  lemma {:induction false} WithoutIdAt(es: seq<Inflight>, at: nat)
    requires at < |es| && forall i, j :: 0 <= i < j < |es| ==> es[i].clientMsgId < es[j].clientMsgId
    ensures WithoutId(es, es[at].clientMsgId) == Without(es, at)
  {
    var n := |es| - 1;
    if at < n {
      WithoutIdAt(es[..n], at);
      assert Without(es, at) == Without(es[..n], at) + [es[n]];
    } else {
      WithoutIdAbsent(es[..n], es[n].clientMsgId);
      assert Without(es, at) == es[..n] + [];
    }
  }

  /** The list after a restart: the persisted attempts count, and all is due. */
  function Reloaded(es: seq<Inflight>, pending: map<u64, PendingMsg>, now: nat): seq<Inflight> {
    seq(|es|, i requires 0 <= i < |es| =>
        es[i].(deadline := now,
               attempts := if es[i].clientMsgId in pending then pending[es[i].clientMsgId].attempts
                   else es[i].attempts))
  }

  class Outbox {
    var inflight: seq<Inflight>
    const retryTimeout: nat
    const retryMaxAttempts: u32
    ghost var ledger: Ledger
    /** The highest limit on attempts there has been. */
    ghost const limit: nat

    ghost predicate Valid(store: LocalStore)
      reads this, store, store.engine
    {
      && store.Valid()
      && InSync(inflight, store.db.pending)
      && Accounted(store.db, ledger, limit)
      && retryMaxAttempts <= limit < U32_MAX
      && (forall i :: 0 <= i < |inflight| ==>
            inflight[i].attempts <= Most(limit) && |inflight[i].content| <= MAX_CONTENT)
    }

    constructor (inflight: seq<Inflight>, retryTimeout: nat, retryMaxAttempts: u32, ghost ledger: Ledger,
        ghost limit: nat)
      ensures this.inflight == inflight && this.retryTimeout == retryTimeout
          && this.retryMaxAttempts == retryMaxAttempts
      ensures this.ledger == ledger && this.limit == limit
    {
      this.inflight, this.retryTimeout, this.retryMaxAttempts := inflight, retryTimeout, retryMaxAttempts;
      this.ledger, this.limit := ledger, limit;
    }

    /** After a restart: everything pending, due at once. The limit may be lower than
        before, even lower than attempts already made. */
    static method Load(store: LocalStore, retryTimeout: nat, retryMaxAttempts: u32, now: nat, ghost ledger: Ledger,
        ghost limit: nat)
        returns (box: Outbox)
      requires store.Valid() && Accounted(store.db, ledger, limit) && retryMaxAttempts <= limit < U32_MAX
      ensures fresh(box) && box.Valid(store) && box.ledger == ledger && box.limit == limit
      ensures box.retryTimeout == retryTimeout && box.retryMaxAttempts == retryMaxAttempts
      ensures forall e :: e in box.inflight ==>
                e.deadline == now && e.clientMsgId in store.db.pending
                    && e.attempts == store.db.pending[e.clientMsgId].attempts
    {
      hide LocalStore.Valid, ResentOf;
      store.IsSane();
      var pending := store.PendingAll();
      var inflight := seq(|pending|, i requires 0 <= i < |pending| =>
                          Inflight(pending[i].clientMsgId, pending[i].to, pending[i].content, pending[i].attempts,
                              now));
      box := new Outbox(inflight, retryTimeout, retryMaxAttempts, ledger, limit);
      LoadedInSync(pending, inflight, store.db.pending);
      forall i | 0 <= i < |pending| ensures pending[i].clientMsgId in store.db.pending
          && store.db.pending[pending[i].clientMsgId] == pending[i] {
        assert pending[i] in pending;
      }
    }

    /** Persist a new message and put it in flight. */
    method Enqueue(store: LocalStore, to: u64, content: Bytes, now: nat) returns (msg: Msg)
      requires Valid(store) && LastId(store.db) < U64_MAX && |content| <= MAX_CONTENT
      modifies this, store, store.engine
      ensures Valid(store) && ledger == old(ledger)
      ensures LastId(store.db) == LastId(old(store.db)) + 1 && msg == Msg(0, to, 0, LastId(store.db), content)
      ensures store.db == old(store.db).(
                seqNo := Some(msg.clientMsgId),
                pending := old(store.db).pending[msg.clientMsgId := PendingMsg(msg.clientMsgId, to, content, 0)])
      ensures inflight == old(inflight) + [Inflight(msg.clientMsgId, to, content, 1, now + retryTimeout)]
    {
      hide LocalStore.Valid, Accounted, InSync;
      store.IsSane();
      ghost var before := store.db;
      var id := store.EnqueueOutgoing(to, content);
      var e := Inflight(id, to, content, 1, now + retryTimeout);
      SyncSnoc(inflight, before.pending, e, PendingMsg(id, to, content, 0));
      AccountEnqueue(before, store.db, ledger, limit, PendingMsg(id, to, content, 0));
      inflight := inflight + [e];
      msg := ToMsg(e);
    }

    /** Where an id is in flight. */
    method Position(id: u64) returns (pos: Option<nat>)
      ensures pos.Some? ==> pos.value < |inflight| && inflight[pos.value].clientMsgId == id
      ensures pos.None? ==> !InFlight(inflight, id)
    {
      for i := 0 to |inflight|
        invariant forall j :: 0 <= j < i ==> inflight[j].clientMsgId != id
      {
        if inflight[i].clientMsgId == id { return Some(i); }
      }
      return None;
    }

    /** Take an acknowledged message off; a late acknowledgement changes nothing. */
    method Ack(store: LocalStore, id: u64, msgId: u64, me: u64)
      requires Valid(store)
      modifies this, store, store.engine
      ensures Valid(store) && inflight == WithoutId(old(inflight), id)
      ensures id !in old(store.db).pending ==>
          inflight == old(inflight) && store.db == old(store.db) && ledger == old(ledger)
      ensures id in old(store.db).pending ==>
                && ledger == old(ledger).(acked := old(ledger).acked + {id})
                && var p := old(store.db).pending[id];
                store.db == old(store.db).(
                  pending := old(store.db).pending - {id},
                  messages := old(store.db).messages[(p.to, msgId) := Msg(me, p.to, msgId, id, p.content)])
    {
      hide LocalStore.Valid, Accounted, ResentOf, InFlight,
          Without;
      var pos := Position(id);
      if pos.None? {
        forall i | 0 <= i < |inflight| ensures inflight[i].clientMsgId != id { FlightAt(inflight, i); }
        WithoutIdAbsent(inflight, id);
        return;
      }
      ghost var before := store.db;
      WithoutIdAt(inflight, pos.value);
      var confirmed := inflight[pos.value];
      SyncRemove(inflight, before.pending, pos.value);
      inflight := Without(inflight, pos.value);
      store.AckOutgoing(id, msgId, me, confirmed.to, confirmed.content);
      AccountRemove(before, store.db, ledger, limit, id);
      ledger := ledger.(acked := ledger.acked + {id});
    }

    /** A new connection sends everything once more and restarts the clocks. */
    method Resends(ghost store: LocalStore, now: nat) returns (out: seq<Msg>)
      requires Valid(store)
      modifies this
      ensures Valid(store) && ledger == old(ledger) && |inflight| == |old(inflight)| == |out|
      ensures forall i :: 0 <= i < |out| ==>
                inflight[i] == old(inflight)[i].(deadline := now + retryTimeout) && out[i] == ToMsg(inflight[i])
    {
      hide LocalStore.Valid, Accounted, ResentOf;
      var restarted := seq(|inflight|, i requires 0 <= i < |inflight| reads this =>
          inflight[i].(deadline := now + retryTimeout));
      SyncDeadlines(inflight, restarted, store.db.pending);
      inflight := restarted;
      out := seq(|inflight|, i requires 0 <= i < |inflight| reads this => ToMsg(inflight[i]));
    }

    /** Give up on one entry. */
    method GiveUp(store: LocalStore, i: nat)
      requires Valid(store) && i < |inflight|
      modifies this, store, store.engine
      ensures Valid(store) && inflight == Without(old(inflight), i)
      ensures ledger == old(ledger).(failed := old(ledger).failed + {old(inflight)[i].clientMsgId})
      ensures store.db == old(store.db).(pending := old(store.db).pending - {old(inflight)[i].clientMsgId})
    {
      hide LocalStore.Valid, Accounted, ResentOf, InFlight,
          Without;
      ghost var before := store.db;
      var id := inflight[i].clientMsgId;
      SyncRemove(inflight, before.pending, i);
      inflight := Without(inflight, i);
      store.DropOutgoing(id);
      AccountRemove(before, store.db, ledger, limit, id);
      ledger := ledger.(failed := ledger.failed + {id});
    }

    /** Count one more attempt for an entry and persist the count. */
    method Retry(store: LocalStore, i: nat, again: Inflight)
      requires Valid(store) && i < |inflight|
      requires again == inflight[i].(attempts := again.attempts, deadline := again.deadline)
      requires again.attempts == inflight[i].attempts + 1 <= retryMaxAttempts
      modifies this, store, store.engine
      ensures Valid(store) && inflight == old(inflight)[i := again] && again.clientMsgId in old(store.db).pending
      ensures ledger == old(ledger).(
                resent := old(ledger).resent[again.clientMsgId := ResentOf(old(ledger), again.clientMsgId) + 1])
      ensures store.db == old(store.db).(pending := old(store.db).pending[
                again.clientMsgId := old(store.db).pending[again.clientMsgId].(attempts := again.attempts)])
    {
      hide LocalStore.Valid, Accounted, ResentOf, InFlight;
      ghost var before := store.db;
      var id := again.clientMsgId;
      SyncUpdate(inflight, before.pending, i, again, before.pending[id].(attempts := again.attempts));
      inflight := inflight[i := again];
      store.PendingSetAttempts(id, again.attempts);
      AccountResend(before, store.db, ledger, limit, id, again.attempts);
      ledger := ledger.(resent := ledger.resent[id := ResentOf(ledger, id) + 1]);
    }

    lemma ListAscends(store: LocalStore)
      requires Valid(store)
      ensures forall i, j :: 0 <= i < j < |inflight| ==> inflight[i].clientMsgId < inflight[j].clientMsgId
    {
      hide Accounted, InFlight, LocalStore.Valid;
    }

    lemma AllTreated(es: seq<Inflight>, now: nat)
      requires forall i, j :: 0 <= i < j < |es| ==> es[i].clientMsgId < es[j].clientMsgId
      ensures forall e :: e in es ==>
                IsTreated(e, Kept(es, now, retryTimeout, retryMaxAttempts),
                    Again(es, now, retryTimeout, retryMaxAttempts),
                    Dropped(es, now, retryTimeout, retryMaxAttempts), now, retryTimeout, retryMaxAttempts)
      ensures forall id: u64 ::
                && (InFlight(Kept(es, now, retryTimeout, retryMaxAttempts), id) ==> InFlight(es, id))
                && (CountIn(Again(es, now, retryTimeout, retryMaxAttempts), id) > 0 ==> InFlight(es, id))
                && (id in Dropped(es, now, retryTimeout, retryMaxAttempts) ==> InFlight(es, id))
    {
      hide IsTreated, Kept, Again, Dropped, InFlight, CountIn;
      forall e | e in es
        ensures IsTreated(e, Kept(es, now, retryTimeout, retryMaxAttempts),
                    Again(es, now, retryTimeout, retryMaxAttempts),
                    Dropped(es, now, retryTimeout, retryMaxAttempts), now, retryTimeout, retryMaxAttempts) {
        var k :| 0 <= k < |es| && es[k] == e;
        EachTreatedOnce(es, k, now, retryTimeout, retryMaxAttempts);
      }
      forall id: u64 | !InFlight(es, id)
        ensures !InFlight(Kept(es, now, retryTimeout, retryMaxAttempts), id)
        ensures CountIn(Again(es, now, retryTimeout, retryMaxAttempts), id) == 0
        ensures id !in Dropped(es, now, retryTimeout, retryMaxAttempts) {
        forall i | 0 <= i < |es| ensures es[i].clientMsgId != id { FlightAt(es, i); }
        NotTreated(es, id, now, retryTimeout, retryMaxAttempts);
      }
    }

    /** Send again what is due, or give it up after too many attempts. */
    method Due(store: LocalStore, now: nat) returns (resends: seq<Msg>, failed: seq<u64>)
      requires Valid(store)
      modifies this, store, store.engine
      ensures Valid(store)
      ensures inflight == Kept(old(inflight), now, retryTimeout, retryMaxAttempts)
      ensures resends == Again(old(inflight), now, retryTimeout, retryMaxAttempts)
      ensures forall e :: e in old(inflight) ==>
                IsTreated(e, inflight, resends, failed, now, retryTimeout, retryMaxAttempts)
      ensures InOrder(resends, failed)
      ensures forall id: u64 :: InFlight(inflight, id) || CountIn(resends, id) > 0 || id in failed ==>
                InFlight(old(inflight), id)
      ensures failed == Dropped(old(inflight), now, retryTimeout, retryMaxAttempts)
      ensures ledger.acked == old(ledger).acked && (forall id :: id in ledger.failed <==>
          id in old(ledger).failed || id in failed)
      ensures forall id: u64 :: ResentOf(ledger, id) == ResentOf(old(ledger), id) + CountIn(resends, id)
      ensures store.db == old(store.db).(
                pending := PendingAfter(old(store.db).pending, old(inflight), now, retryTimeout, retryMaxAttempts))
    {
      hide Valid, PendingAfter, Treat, Without, CountIn, ResentOf, Splits, Kept, Again, Dropped, InFlight, IsTreated,
          InOrder;
      ListAscends(store);
      ghost var es, p := inflight, 0;
      resends, failed := [], [];
      var i := 0;
      NothingPending(store.db.pending, now, retryTimeout, retryMaxAttempts);
      assert es[..0] == [];
      assert Splits(es, 0, inflight, 0, resends, failed, now, retryTimeout, retryMaxAttempts) by {
        SplitsFirst(es, now, retryTimeout, retryMaxAttempts);
      }
      assert forall id: u64 :: CountIn([], id) == 0 by { NothingIn(); }
      while i < |inflight|
        invariant p <= |es| && i <= |inflight| && (i < |inflight| <==> p < |es|)
        invariant Valid(store) && Splits(es, p, inflight, i, resends, failed, now, retryTimeout, retryMaxAttempts)
        invariant ledger.acked == old(ledger).acked && (forall id :: id in ledger.failed <==>
            id in old(ledger).failed || id in failed)
        invariant forall id: u64 :: ResentOf(ledger, id) == ResentOf(old(ledger), id) + CountIn(resends, id)
        invariant store.db == old(store.db).(
                    pending := PendingAfter(old(store.db).pending, es[..p], now, retryTimeout, retryMaxAttempts))
        decreases |es| - p
      {
        PendingNext(old(store.db).pending, es, p, now, retryTimeout, retryMaxAttempts);
        SplitsNext(es, p, inflight, i, resends, failed, now, retryTimeout, retryMaxAttempts);
        var treatment := Treat(inflight[i], now, retryTimeout, retryMaxAttempts);
        match treatment {
          case Waits =>
            i := i + 1;
          case GivesUp =>
            var id := inflight[i].clientMsgId;
            ResentStays(ledger, id);
            GiveUp(store, i);
            failed := failed + [id];
          case Retries(again) =>
            RetriesOnce(inflight[i], now, retryTimeout, retryMaxAttempts);
            ResentOnce(ledger, again.clientMsgId);
            Retry(store, i, again);
            CountSnoc(resends, ToMsg(again));
            resends := resends + [ToMsg(again)];
            i := i + 1;
        }
        p := p + 1;
        SplitsSizes(es, p, inflight, i, resends, failed, now, retryTimeout, retryMaxAttempts);
      }
      SplitsLast(es, p, inflight, i, resends, failed, now, retryTimeout, retryMaxAttempts);
      assert es[..p] == es;
      AllTreated(es, now);
      AnswersInOrder(es, now, retryTimeout, retryMaxAttempts);
    }
  }

  /** In any accounted state a message is in flight, acknowledged or given up, never
      two of these, and was sent again at most as often as the limit says. */
  lemma OneFate(db: Db, ledger: Ledger, inflight: seq<Inflight>, max: nat, id: u64)
    requires Accounted(db, ledger, max) && InSync(inflight, db.pending)
    ensures 1 <= id <= LastId(db) <==> InFlight(inflight, id) || id in ledger.acked || id in ledger.failed
    ensures !(InFlight(inflight, id) && id in ledger.acked) && !(InFlight(inflight, id) && id in ledger.failed)
    ensures !(id in ledger.acked && id in ledger.failed)
    ensures ResentOf(ledger, id) <= max
  {
    hide ResentOf, Matches;
    assert InFlight(inflight, id) <==> id in db.pending.Keys;
  }

  lemma NothingToAccount(max: nat)
    ensures Accounted(EMPTY, Ledger({}, {}, map[]), max)
  {}

  function FlightIds(inflight: seq<Inflight>): (ids: seq<nat>)
    ensures |ids| == |inflight|
  {
    seq(|inflight|, i requires 0 <= i < |inflight| => inflight[i].clientMsgId)
  }

  lemma IdsAreKeys(inflight: seq<Inflight>, pending: map<u64, PendingMsg>, id: nat)
    requires InSync(inflight, pending)
    ensures id in FlightIds(inflight) <==> id <= U64_MAX && id in pending
  {
    if id <= U64_MAX && id in pending {
      var i :| 0 <= i < |inflight| && inflight[i].clientMsgId == id;
      assert FlightIds(inflight)[i] == id;
    }
  }

  /** The table determines the list, but for attempts and deadlines. */
  lemma SameFlights(a: seq<Inflight>, b: seq<Inflight>, pending: map<u64, PendingMsg>)
    requires InSync(a, pending) && InSync(b, pending)
    ensures |a| == |b| && forall i :: 0 <= i < |a| ==> ToMsg(a[i]) == ToMsg(b[i])
  {
    forall id ensures id in FlightIds(a) <==> id in FlightIds(b) {
      IdsAreKeys(a, pending, id);
      IdsAreKeys(b, pending, id);
    }
    Merge.AscendingIsUnique(FlightIds(a), FlightIds(b));
    forall i | 0 <= i < |a| ensures ToMsg(a[i]) == ToMsg(b[i]) {
      assert FlightIds(a)[i] == FlightIds(b)[i];
    }
  }

  lemma ReloadedIs(a: seq<Inflight>, b: seq<Inflight>, pending: map<u64, PendingMsg>, now: nat)
    requires |a| == |b| && forall i :: 0 <= i < |a| ==> ToMsg(a[i]) == ToMsg(b[i])
    requires forall e :: e in b ==>
               e.deadline == now && e.clientMsgId in pending && e.attempts == pending[e.clientMsgId].attempts
    ensures b == Reloaded(a, pending, now)
  {
    var r := Reloaded(a, pending, now);
    forall i | 0 <= i < |a| ensures b[i] == r[i] {
      assert b[i] in b && ToMsg(a[i]) == ToMsg(b[i]);
    }
  }

  /** The program stops and starts again, perhaps with another limit: the same
      messages are in flight, due at once. */
  method Restart(store: LocalStore, box: Outbox, max: u32, now: nat) returns (again: LocalStore, mailbox: Outbox)
    requires box.Valid(store) && Directory.Seen(store.engine.disk, store.engine.activeId) && max <= box.limit
    ensures fresh(again) && fresh(again.engine) && fresh(mailbox) && mailbox.Valid(again)
    ensures mailbox.retryTimeout == box.retryTimeout && mailbox.retryMaxAttempts == max && mailbox.limit == box.limit
    ensures again.db == store.db && mailbox.ledger == box.ledger
    ensures mailbox.inflight == Reloaded(box.inflight, store.db.pending, now)
  {
    hide LocalStore.Valid, Represents, Engine.Engine.Valid, Engine.Engine.Map, Accounted, Directory.RecoversTo,
        Directory.Seen;
    store.IsBacked();
    store.Reopens();
    again := LocalStore.Open(store.engine.disk, store.engine.Map(), store.db);
    mailbox := Outbox.Load(again, box.retryTimeout, max, now, box.ledger, box.limit);
    SameFlights(box.inflight, mailbox.inflight, store.db.pending);
    ReloadedIs(box.inflight, mailbox.inflight, store.db.pending, now);
  }
}
