/** Whole runs of the resend mailbox, from an empty store on, across restarts. */
module OutboxRuns {
  import opened Wrappers
  import opened Payload
  import opened Store
  import opened Outbox
  import Engine
  import Directory
  import SegmentNames

  datatype Event =
    | Send(to: u64, content: Bytes, now: nat)
    | Acknowledge(id: u64, msgId: u64)
    | Check(now: nat)
    | Reconnect(now: nat)
    | Reload(max: u32, now: nat)

  /** What the mailbox returns. */
  datatype Answer =
    | Taken(msg: Msg)
    | Checked(resends: seq<Msg>, failed: seq<u64>)
    | Everything(all: seq<Msg>)
    | Nothing

  // ------------------------------------------------------------ what is answered

  /** The mailbox as a value: the list, its persisted table, the last id and the limit. */
  datatype Mail = Mail(inflight: seq<Inflight>, pending: map<u64, PendingMsg>, last: u64, max: u32)

  function Messages(inflight: seq<Inflight>): seq<Msg> {
    seq(|inflight|, i requires 0 <= i < |inflight| => ToMsg(inflight[i]))
  }

  /** The clocks restarted. */
  function Restarted(inflight: seq<Inflight>, deadline: nat): seq<Inflight> {
    seq(|inflight|, i requires 0 <= i < |inflight| => inflight[i].(deadline := deadline))
  }

  /** What one event does to the mailbox, and what is answered. */
  function Step(m: Mail, event: Event, rto: nat): (Mail, Answer)
    requires m.last < U64_MAX
  {
    match event
    case Send(to, content, now) =>
      var id := m.last + 1;
      (m.(inflight := m.inflight + [Inflight(id, to, content, 1, now + rto)],
          pending := m.pending[id := PendingMsg(id, to, content, 0)], last := id),
       Taken(Msg(0, to, 0, id, content)))
    case Acknowledge(id, _) =>
      (m.(inflight := WithoutId(m.inflight, id), pending := m.pending - {id}), Nothing)
    case Check(now) =>
      (m.(inflight := Kept(m.inflight, now, rto, m.max),
          pending := PendingAfter(m.pending, m.inflight, now, rto, m.max)),
       Checked(Again(m.inflight, now, rto, m.max), Dropped(m.inflight, now, rto, m.max)))
    case Reconnect(now) =>
      (m.(inflight := Restarted(m.inflight, now + rto)), Everything(Messages(m.inflight)))
    case Reload(max, now) =>
      (m.(inflight := Reloaded(m.inflight, m.pending, now), max := max), Nothing)
  }

  /** The mailbox and the answers after some events, from an empty store on. */
  function Expected(events: seq<Event>, rto: nat, limit: u32): (r: (Mail, seq<Answer>))
    requires |events| <= U64_MAX
    ensures r.0.last <= |events| && |r.1| == |events|
  {
    if events == [] then (Mail([], map[], 0, limit), [])
    else
      var (m, answers) := Expected(events[..|events| - 1], rto, limit);
      var (after, answer) := Step(m, events[|events| - 1], rto);
      (after, answers + [answer])
  }

  // ---------------------------------------------------- what an observer can tell

  /** The ids handed out, in order. */
  function HandedOut(answers: seq<Answer>): seq<u64> {
    if answers == [] then []
    else
      HandedOut(answers[..|answers| - 1]) +
      match answers[|answers| - 1]
      case Taken(msg) => [msg.clientMsgId]
      case _ => []
  }

  /** The ids reported as failed, in order. */
  function Failed(answers: seq<Answer>): seq<u64> {
    if answers == [] then []
    else
      Failed(answers[..|answers| - 1]) +
      match answers[|answers| - 1]
      case Checked(_, failed) => failed
      case _ => []
  }

  /** How often a check returned a message for sending. */
  function TimesDue(answers: seq<Answer>, id: u64): nat {
    if answers == [] then 0
    else
      TimesDue(answers[..|answers| - 1], id) +
      match answers[|answers| - 1]
      case Checked(resends, _) => CountIn(resends, id)
      case _ => 0
  }

  /** The ids acknowledged after they were handed out and before they failed. */
  function Acknowledged(events: seq<Event>, answers: seq<Answer>): set<u64>
    requires |answers| <= |events|
  {
    if answers == [] then {}
    else
      var n := |answers| - 1;
      Acknowledged(events, answers[..n]) +
      match events[n]
      case Acknowledge(id, _) => if id in HandedOut(answers[..n]) && id !in Failed(answers[..n]) then {id} else {}
      case _ => {}
  }

  /** The ledger says what an observer can tell. */
  ghost predicate Tells(ledger: Ledger, last: nat, events: seq<Event>, answers: seq<Answer>) {
    && |answers| <= |events|
    && |HandedOut(answers)| == last
    && (forall k :: 0 <= k < last ==> HandedOut(answers)[k] == k + 1)
    && ledger.acked == Acknowledged(events, answers)
    && (forall id :: id in ledger.failed <==> id in Failed(answers))
    && (forall id: u64 :: ResentOf(ledger, id) == TimesDue(answers, id))
  }

  lemma NothingYet(events: seq<Event>)
    ensures Tells(Ledger({}, {}, map[]), 0, events, [])
  {}

  lemma HandedOutAre(last: nat, answers: seq<Answer>, id: u64)
    requires |HandedOut(answers)| == last && forall k :: 0 <= k < last ==> HandedOut(answers)[k] == k + 1
    ensures id in HandedOut(answers) <==> 1 <= id <= last
  {
    if 1 <= id <= last { assert HandedOut(answers)[id - 1] == id; }
  }

  lemma TellsTaken(ledger: Ledger, last: nat, events: seq<Event>, answers: seq<Answer>, msg: Msg)
    requires Tells(ledger, last, events, answers) && |answers| < |events| && events[|answers|].Send?
    requires msg.clientMsgId == last + 1
    ensures Tells(ledger, last + 1, events, answers + [Taken(msg)])
  {
    var after := answers + [Taken(msg)];
    assert after[..|answers|] == answers;
    assert Failed(after) == Failed(answers);
  }

  lemma TellsQuiet(ledger: Ledger, last: nat, events: seq<Event>, answers: seq<Answer>, answer: Answer)
    requires Tells(ledger, last, events, answers) && |answers| < |events| && !events[|answers|].Acknowledge?
    requires answer.Everything? || answer.Nothing?
    ensures Tells(ledger, last, events, answers + [answer])
  {
    var after := answers + [answer];
    assert after[..|answers|] == answers;
    assert HandedOut(after) == HandedOut(answers) && Failed(after) == Failed(answers);
  }

  lemma TellsChecked(ledger: Ledger, after: Ledger, last: nat, events: seq<Event>, answers: seq<Answer>,
      resends: seq<Msg>, failed: seq<u64>)
    requires Tells(ledger, last, events, answers) && |answers| < |events| && events[|answers|].Check?
    requires after.acked == ledger.acked && forall id :: id in after.failed <==> id in ledger.failed || id in failed
    requires forall id: u64 :: ResentOf(after, id) == ResentOf(ledger, id) + CountIn(resends, id)
    ensures Tells(after, last, events, answers + [Checked(resends, failed)])
  {
    hide ResentOf, CountIn;
    var more := answers + [Checked(resends, failed)];
    assert more[..|answers|] == answers;
    assert HandedOut(more) == HandedOut(answers) && Failed(more) == Failed(answers) + failed;
  }

  /** An acknowledgement counts exactly when the message is pending. */
  lemma TellsAcknowledged(db: Db, ledger: Ledger, max: nat, events: seq<Event>, answers: seq<Answer>)
    requires Accounted(db, ledger, max) && Tells(ledger, LastId(db), events, answers)
    requires |answers| < |events| && events[|answers|].Acknowledge?
    ensures var id := events[|answers|].id;
            Tells(if id in db.pending then ledger.(acked := ledger.acked + {id}) else ledger, LastId(db), events,
                  answers + [Nothing])
  {
    var id, after := events[|answers|].id, answers + [Nothing];
    assert after[..|answers|] == answers;
    assert HandedOut(after) == HandedOut(answers) && Failed(after) == Failed(answers);
    HandedOutAre(LastId(db), answers, id);
    var l := ledger.(acked := ledger.acked + {id});
    forall k: u64 ensures ResentOf(l, k) == ResentOf(ledger, k) {}
    assert id in db.pending ==> id in db.pending.Keys;
    hide ResentOf, LastId;
  }

  /** Every id handed out is in exactly one place, and was due at most `limit` times. */
  ghost predicate OneFateEach(inflight: seq<Inflight>, events: seq<Event>, answers: seq<Answer>, limit: nat) {
    && |answers| <= |events|
    && (forall k :: 0 <= k < |HandedOut(answers)| ==> HandedOut(answers)[k] == k + 1)
    && forall id: u64 ::
         && (id in HandedOut(answers) <==>
               InFlight(inflight, id) || id in Acknowledged(events, answers) || id in Failed(answers))
         && !(InFlight(inflight, id) && id in Acknowledged(events, answers))
         && !(InFlight(inflight, id) && id in Failed(answers))
         && !(id in Acknowledged(events, answers) && id in Failed(answers))
         && TimesDue(answers, id) <= limit
  }

  lemma FatesAreTold(db: Db, ledger: Ledger, inflight: seq<Inflight>, limit: nat, events: seq<Event>,
      answers: seq<Answer>)
    requires Accounted(db, ledger, limit) && InSync(inflight, db.pending) && Tells(ledger, LastId(db), events, answers)
    ensures OneFateEach(inflight, events, answers, limit)
  {
    hide Accounted, InSync, ResentOf, InFlight, LastId, HandedOut, Failed, Acknowledged, TimesDue;
    forall id: u64
      ensures id in HandedOut(answers) <==> 1 <= id <= LastId(db)
      ensures id in HandedOut(answers) <==> InFlight(inflight, id) || id in ledger.acked || id in ledger.failed
      ensures !(InFlight(inflight, id) && id in ledger.acked) && !(InFlight(inflight, id) && id in ledger.failed)
      ensures !(id in ledger.acked && id in ledger.failed) && ResentOf(ledger, id) <= limit
    {
      HandedOutAre(LastId(db), answers, id);
      OneFate(db, ledger, inflight, limit, id);
    }
  }

  // ------------------------------------------------- how often before it fails

  ghost predicate Ascends(es: seq<Inflight>) {
    forall i, j :: 0 <= i < j < |es| ==> es[i].clientMsgId < es[j].clientMsgId
  }

  /** Every message in flight has been sent once, and once more for every check that
      returned it; every failed one as often as allowed. */
  ghost predicate Counted(m: Mail, answers: seq<Answer>, limit: u32) {
    && m.max == limit && Ascends(m.inflight)
    && (forall e :: e in m.inflight ==>
          e.clientMsgId <= m.last && e.attempts == 1 + TimesDue(answers, e.clientMsgId) <= Most(limit))
    && (forall id: u64 :: id > m.last ==> TimesDue(answers, id) == 0 && id !in Failed(answers))
    && (forall id :: id in Failed(answers) ==>
          1 + TimesDue(answers, id) == Most(limit) && !InFlight(m.inflight, id))
  }

  lemma OneAnswerMore(answers: seq<Answer>, answer: Answer, id: u64)
    ensures TimesDue(answers + [answer], id) ==
            TimesDue(answers, id) + if answer.Checked? then CountIn(answer.resends, id) else 0
    ensures Failed(answers + [answer]) == Failed(answers) + if answer.Checked? then answer.failed else []
  {
    assert (answers + [answer])[..|answers|] == answers;
  }

  lemma AscendsSnoc(some: seq<Inflight>, front: seq<Inflight>, last: Inflight)
    requires Ascends(front + [last]) && Ascends(some)
    requires forall e :: e in some ==> InFlight(front, e.clientMsgId)
    ensures Ascends(some + [last]) && Ascends(some + []) && some + [] == some
  {
    var all := front + [last];
    forall i | 0 <= i < |some| ensures some[i].clientMsgId < last.clientMsgId {
      assert some[i] in some;
      var j :| 0 <= j < |front| && front[j].clientMsgId == some[i].clientMsgId;
      assert all[j] == front[j] && all[|front|] == last;
    }
  }

  lemma {:induction false} WithoutIdAscends(es: seq<Inflight>, id: u64)
    requires Ascends(es)
    ensures Ascends(WithoutId(es, id)) && forall e :: e in WithoutId(es, id) ==> e in es
  {
    if es != [] {
      var front, last := es[..|es| - 1], es[|es| - 1];
      assert es == front + [last];
      WithoutIdAscends(front, id);
      AscendsSnoc(WithoutId(front, id), front, last);
    }
  }

  lemma InFlightIn(es: seq<Inflight>, e: Inflight)
    requires e in es
    ensures InFlight(es, e.clientMsgId)
  {
    var i :| 0 <= i < |es| && es[i] == e;
  }

  lemma {:induction false} KeptAscends(es: seq<Inflight>, now: nat, rto: nat, max: u32)
    requires Ascends(es)
    ensures Ascends(Kept(es, now, rto, max))
    ensures forall x :: x in Kept(es, now, rto, max) ==> InFlight(es, x.clientMsgId)
  {
    hide Treat;
    if es != [] {
      var front, last := es[..|es| - 1], es[|es| - 1];
      assert es == front + [last];
      KeptAscends(front, now, rto, max);
      var kept, t := Kept(front, now, rto, max), Treat(last, now, rto, max);
      AscendsSnoc(kept, front, last);
      if t.Retries? {
        RetriesOnce(last, now, rto, max);
        assert Ascends(front + [t.again]);
        AscendsSnoc(kept, front, t.again);
      }
      forall x | x in Kept(es, now, rto, max) ensures InFlight(es, x.clientMsgId) {
        FlightSnoc(front, last, x.clientMsgId);
      }
    }
  }

  lemma FlightOf(es: seq<Inflight>, id: u64) returns (k: nat)
    requires InFlight(es, id)
    ensures k < |es| && es[k].clientMsgId == id
  {
    k :| 0 <= k < |es| && es[k].clientMsgId == id;
  }

  lemma OneOfAnId(es: seq<Inflight>, x: Inflight, y: Inflight)
    requires Ascends(es) && x in es && y in es && x.clientMsgId == y.clientMsgId
    ensures x == y
  {
    var i :| 0 <= i < |es| && es[i] == x;
    var j :| 0 <= j < |es| && es[j] == y;
  }

  /** Where an entry of the list after a check comes from. */
  lemma KeptFrom(es: seq<Inflight>, x: Inflight, now: nat, rto: nat, max: u32) returns (e: Inflight)
    requires Ascends(es) && x in Kept(es, now, rto, max)
    ensures e in es && e.clientMsgId == x.clientMsgId
    ensures if e.deadline > now then x == e && CountIn(Again(es, now, rto, max), e.clientMsgId) == 0
            else e.attempts < max && x.attempts == e.attempts + 1
                 && CountIn(Again(es, now, rto, max), e.clientMsgId) == 1
  {
    hide Kept, Again, Dropped, BackoffDelay, CountIn, InFlight;
    KeptAscends(es, now, rto, max);
    var kept := Kept(es, now, rto, max);
    var k := FlightOf(es, x.clientMsgId);
    e := es[k];
    EachTreatedOnce(es, k, now, rto, max);
    InFlightIn(kept, x);
    hide Ascends;
    if e.deadline > now {
      OneOfAnId(kept, x, e);
    } else {
      assert e.attempts < max;
      OneOfAnId(kept, x, e.(attempts := e.attempts + 1, deadline := now + BackoffDelay(rto, e.attempts + 1)));
    }
  }

  lemma FailedCounts(m: Mail, answers: seq<Answer>, limit: u32, now: nat, rto: nat, id: u64)
    requires Counted(m, answers, limit)
    requires id in Failed(answers) || id in Dropped(m.inflight, now, rto, limit)
    ensures 1 + TimesDue(answers, id) == Most(limit) && CountIn(Again(m.inflight, now, rto, limit), id) == 0
    ensures !InFlight(Kept(m.inflight, now, rto, limit), id)
  {
    hide Kept, Again, Dropped, CountIn, TimesDue, Failed, BackoffDelay;
    var es := m.inflight;
    if k :| 0 <= k < |es| && es[k].clientMsgId == id {
      assert es[k] in es;
      FlightAt(es, k);
      EachTreatedOnce(es, k, now, rto, limit);
    } else {
      NotTreated(es, id, now, rto, limit);
    }
  }

  lemma CheckedCounts(m: Mail, answers: seq<Answer>, limit: u32, now: nat, rto: nat)
    requires Counted(m, answers, limit) && m.last < U64_MAX
    ensures var (after, answer) := Step(m, Check(now), rto); Counted(after, answers + [answer], limit)
  {
    hide Kept, Again, Dropped, CountIn, TimesDue, Failed, PendingAfter, InFlight, BackoffDelay;
    var (after, answer) := Step(m, Check(now), rto);
    var es, more := m.inflight, answers + [answer];
    KeptAscends(es, now, rto, limit);
    forall x | x in after.inflight
      ensures x.clientMsgId <= m.last && x.attempts == 1 + TimesDue(more, x.clientMsgId) <= Most(limit) {
      var e := KeptFrom(es, x, now, rto, limit);
      OneAnswerMore(answers, answer, e.clientMsgId);
    }
    forall id: u64 | id > m.last ensures TimesDue(more, id) == 0 && id !in Failed(more) {
      OneAnswerMore(answers, answer, id);
      forall i | 0 <= i < |es| ensures es[i].clientMsgId != id { assert es[i] in es; }
      NotTreated(es, id, now, rto, limit);
    }
    forall id | id in Failed(more) ensures 1 + TimesDue(more, id) == Most(limit) && !InFlight(after.inflight, id) {
      OneAnswerMore(answers, answer, id);
      FailedCounts(m, answers, limit, now, rto, id);
    }
  }

  lemma FlightsAfter(m: Mail, event: Event, rto: nat, id: u64)
    requires m.last < U64_MAX && !event.Reload? && !event.Check? && Ascends(m.inflight)
    requires InFlight(Step(m, event, rto).0.inflight, id)
    ensures InFlight(m.inflight, id) || (event.Send? && id == m.last + 1)
  {
    var after := Step(m, event, rto).0.inflight;
    var i :| 0 <= i < |after| && after[i].clientMsgId == id;
    if event.Acknowledge? {
      WithoutIdAscends(m.inflight, event.id);
      assert after[i] in after;
      InFlightIn(m.inflight, after[i]);
    } else if i < |m.inflight| {
      FlightAt(m.inflight, i);
    }
  }

  /** Answers other than that of a check leave the counts alone. */
  lemma QuietCounts(m: Mail, after: Mail, answers: seq<Answer>, answer: Answer, limit: u32)
    requires Counted(m, answers, limit) && !answer.Checked?
    requires after.max == m.max && Ascends(after.inflight) && m.last <= after.last
    requires forall e :: e in after.inflight ==>
               || (exists was :: was in m.inflight && e.clientMsgId == was.clientMsgId && e.attempts == was.attempts)
               || (m.last < e.clientMsgId <= after.last && e.attempts == 1)
    requires forall id: u64 :: InFlight(after.inflight, id) ==> InFlight(m.inflight, id) || id > m.last
    ensures Counted(after, answers + [answer], limit)
  {
    hide CountIn, TimesDue, Failed, InFlight, Ascends;
    forall id: u64 ensures TimesDue(answers + [answer], id) == TimesDue(answers, id)
        && Failed(answers + [answer]) == Failed(answers) {
      OneAnswerMore(answers, answer, id);
      assert Failed(answers) + [] == Failed(answers);
    }
  }

  lemma ReconnectCounts(m: Mail, answers: seq<Answer>, event: Event, limit: u32, rto: nat)
    requires Counted(m, answers, limit) && m.last < U64_MAX && event.Reconnect?
    ensures var (after, answer) := Step(m, event, rto); Counted(after, answers + [answer], limit)
  {
    hide CountIn, TimesDue, Failed, WithoutId, InFlight, Most;
    var (after, answer) := Step(m, event, rto);
    forall id: u64 | InFlight(after.inflight, id) ensures InFlight(m.inflight, id) {
      FlightsAfter(m, event, rto, id);
    }
    forall e | e in after.inflight
      ensures exists was :: was in m.inflight && e.clientMsgId == was.clientMsgId && e.attempts == was.attempts {
      var i :| 0 <= i < |after.inflight| && after.inflight[i] == e;
      assert m.inflight[i] in m.inflight;
    }
    QuietCounts(m, after, answers, answer, limit);
  }

  lemma ListCounts(m: Mail, answers: seq<Answer>, event: Event, limit: u32, rto: nat)
    requires Counted(m, answers, limit) && m.last < U64_MAX && (event.Send? || event.Acknowledge?)
    ensures var (after, answer) := Step(m, event, rto); Counted(after, answers + [answer], limit)
  {
    hide CountIn, TimesDue, Failed, WithoutId, InFlight, Most;
    var (after, answer) := Step(m, event, rto);
    forall id: u64 | InFlight(after.inflight, id) ensures InFlight(m.inflight, id) || id > m.last {
      FlightsAfter(m, event, rto, id);
    }
    if event.Acknowledge? { WithoutIdAscends(m.inflight, event.id); }
    QuietCounts(m, after, answers, answer, limit);
  }

  lemma StepCounts(m: Mail, answers: seq<Answer>, event: Event, limit: u32, rto: nat)
    requires Counted(m, answers, limit) && m.last < U64_MAX && !event.Reload?
    ensures var (after, answer) := Step(m, event, rto); Counted(after, answers + [answer], limit)
  {
    hide Step, Counted;
    match event
    case Check(now) => CheckedCounts(m, answers, limit, now, rto);
    case Reconnect(_) => ReconnectCounts(m, answers, event, limit, rto);
    case _ => ListCounts(m, answers, event, limit, rto);
  }

  /** While the program is not restarted, a message is reported as failed exactly when it
      has been sent `limit` times in all, the first sending included, and never sooner. */
  lemma {:induction false} FailsAfterAll(events: seq<Event>, rto: nat, limit: u32)
    requires |events| <= U64_MAX && forall e :: e in events ==> !e.Reload?
    ensures var (m, answers) := Expected(events, rto, limit); Counted(m, answers, limit)
  {
    hide Step;
    if events != [] {
      FailsAfterAll(events[..|events| - 1], rto, limit);
      var (m, answers) := Expected(events[..|events| - 1], rto, limit);
      StepCounts(m, answers, events[|events| - 1], limit, rto);
    }
  }

  ghost function MailOf(box: Outbox, store: LocalStore): Mail
    reads box, store
  {
    Mail(box.inflight, store.db.pending, LastId(store.db), box.retryMaxAttempts)
  }

  lemma NamedIsSeen(store: LocalStore)
    requires SegmentNames.Named(store.engine.activeId)
    ensures Directory.Seen(store.engine.disk, store.engine.activeId)
  {}

  lemma SomePending(inflight: seq<Inflight>, pending: map<u64, PendingMsg>)
    requires InSync(inflight, pending) && inflight != []
    ensures pending != map[]
  {
    assert inflight[0].clientMsgId in pending;
  }

  lemma NothingInFlight(box: Outbox, store: LocalStore)
    requires store.db == EMPTY && InSync(box.inflight, store.db.pending)
    ensures box.inflight == []
  {
    hide InSync;
    if box.inflight != [] { SomePending(box.inflight, store.db.pending); }
  }

  lemma RestartedIs(inflight: seq<Inflight>, after: seq<Inflight>, all: seq<Msg>, deadline: nat)
    requires |inflight| == |after| == |all|
    requires forall i :: 0 <= i < |all| ==> after[i] == inflight[i].(deadline := deadline) && all[i] == ToMsg(after[i])
    ensures after == Restarted(inflight, deadline) && all == Messages(inflight)
  {}

  /** One event. */
  method Handle(box: Outbox, store: LocalStore, event: Event, me: u64, ghost events: seq<Event>,
      ghost answers: seq<Answer>)
      returns (mailbox: Outbox, after: LocalStore, answer: Answer)
    requires box.Valid(store) && Tells(box.ledger, LastId(store.db), events, answers)
    requires |answers| < |events| && event == events[|answers|] && LastId(store.db) < U64_MAX
    requires event.Send? ==> |event.content| <= MAX_CONTENT
    requires event.Reload? ==> event.max <= box.limit && SegmentNames.Named(store.engine.activeId)
    modifies box, store, store.engine
    ensures mailbox == box || fresh(mailbox)
    ensures (after == store || fresh(after)) && (after.engine == store.engine || fresh(after.engine))
    ensures mailbox.Valid(after) && mailbox.limit == box.limit && mailbox.retryTimeout == box.retryTimeout
    ensures (MailOf(mailbox, after), answer) == Step(old(MailOf(box, store)), event, box.retryTimeout)
    ensures Tells(mailbox.ledger, LastId(after.db), events, answers + [answer])
  {
    hide Accounted, InSync, Tells, ResentOf, LocalStore.Valid, SegmentNames.Named, CountIn, PendingAfter,
        Kept, Again, Dropped, WithoutId, Reloaded, Restarted, Messages, Directory.Seen;
    ghost var last, ledger := LastId(store.db), box.ledger;
    mailbox, after, answer := box, store, Nothing;
    if event.Send? {
      var msg := box.Enqueue(store, event.to, event.content, event.now);
      TellsTaken(ledger, last, events, answers, msg);
      answer := Taken(msg);
    } else if event.Acknowledge? {
      TellsAcknowledged(store.db, ledger, box.limit, events, answers);
      ghost var pending := store.db.pending;
      box.Ack(store, event.id, event.msgId, me);
      assert event.id !in pending ==> pending - {event.id} == pending;
    } else if event.Check? {
      var resends, failed := box.Due(store, event.now);
      TellsChecked(ledger, box.ledger, last, events, answers, resends, failed);
      answer := Checked(resends, failed);
    } else if event.Reconnect? {
      ghost var inflight := box.inflight;
      var all := box.Resends(store, event.now);
      RestartedIs(inflight, box.inflight, all, event.now + box.retryTimeout);
      answer := Everything(all);
      TellsQuiet(ledger, last, events, answers, answer);
    } else {
      NamedIsSeen(store);
      after, mailbox := Restart(store, box, event.max, event.now);
      TellsQuiet(ledger, last, events, answers, answer);
    }
  }

  /** A run from an empty store: messages are taken, acknowledged, checked, sent again
      on a new connection, and the program is restarted with limits up to `limit`. It
      returns the answers, the list in flight and the id of the newest segment, and stops
      early only when a restart finds no name for another segment. */
  method Run(events: seq<Event>, rto: nat, limit: u32, me: u64)
      returns (answers: seq<Answer>, inflight: seq<Inflight>, segment: nat)
    requires |events| < U64_MAX && limit < U32_MAX
    requires forall e :: e in events && e.Send? ==> |e.content| <= MAX_CONTENT
    requires forall e :: e in events && e.Reload? ==> e.max <= limit
    ensures |answers| <= |events| && (|answers| < |events| ==> !SegmentNames.Named(segment))
    ensures var (mail, expected) := Expected(events[..|answers|], rto, limit);
            answers == expected && inflight == mail.inflight
    ensures OneFateEach(inflight, events, answers, limit)
  {
    hide Accounted, InSync, Tells, ResentOf, LocalStore.Valid, SegmentNames.Named, Step;
    var store := LocalStore.Create();
    NothingToAccount(limit);
    var box := Outbox.Load(store, rto, limit, 0, Ledger({}, {}, map[]), limit);
    answers := [];
    NothingYet(events);
    NothingInFlight(box, store);
    for i := 0 to |events|
      invariant fresh(store) && fresh(store.engine) && fresh(box)
      invariant box.Valid(store) && box.limit == limit && |answers| == i && box.retryTimeout == rto
      invariant Tells(box.ledger, LastId(store.db), events, answers)
      invariant Expected(events[..i], rto, limit) == (MailOf(box, store), answers)
    {
      assert events[..i + 1][..i] == events[..i];
      assert events[i] in events;
      if events[i].Reload? && !SegmentNames.Named(store.engine.activeId) { break; }
      var answer;
      box, store, answer := Handle(box, store, events[i], me, events, answers);
      answers := answers + [answer];
    }
    FatesAreTold(store.db, box.ledger, box.inflight, limit, events, answers);
    inflight, segment := box.inflight, store.engine.activeId;
  }
}
