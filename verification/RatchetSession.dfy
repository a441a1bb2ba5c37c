/**
 Two parties, `Initiator` and `Responder`, and an unreliable channel between
 them: messages may be reordered, delayed for ever or lost, and are delivered
 successfully at most once.
 */
module RatchetSession {
  import opened Wrappers
  import opened Ratchet

  datatype Party = Initiator | Responder

  function Other(p: Party): Party {
    if p == Initiator then Responder else Initiator
  }

  /** One successful `encrypt`: who called it, on what, and what came out. */
  datatype Sent = Sent(from: Party, plaintext: Bytes, message: Message)

  /** `toInitiator` and `toResponder` are the messages in flight; `log` and
      `delivered` record what has happened and influence nothing. */
  datatype World = World(
    initiator: State,
    responder: State,
    toInitiator: set<Message>,
    toResponder: set<Message>,
    drawn: set<Secret>,
    log: seq<Sent>,
    delivered: set<Message>)

  datatype Event =
    | Send(p: Party, plaintext: Bytes, draw: Secret)
    | Deliver(p: Party, message: Message, draw: Secret)
    | Lose(p: Party, message: Message)

  function StateOf(w: World, p: Party): State {
    if p == Initiator then w.initiator else w.responder
  }

  function WithState(w: World, p: Party, s: State): World {
    if p == Initiator then w.(initiator := s) else w.(responder := s)
  }

  function Inbox(w: World, p: Party): set<Message> {
    if p == Initiator then w.toInitiator else w.toResponder
  }

  function WithInbox(w: World, p: Party, inbox: set<Message>): World {
    if p == Initiator then w.(toInitiator := inbox) else w.(toResponder := inbox)
  }

  function Start(sk: Key, spk: Secret): World {
    World(InitInitiator(sk, PublicKey(spk)), InitResponder(sk, spk), {}, {}, {spk}, [], {})
  }

  /** Secrets are drawn fresh; a call that would panic is not a step. */
  ghost predicate Step(w: World, event: Event, w': World) {
    match event
    case Send(p, plaintext, draw) =>
      && draw !in w.drawn
      && var e := Encrypt(StateOf(w, p), plaintext, draw);
      && e.Returns?
      && e.result.Ok?
      && w' == WithInbox(WithState(w, p, e.state), Other(p), Inbox(w, Other(p)) + {e.result.value})
               .(drawn := w.drawn + {draw}, log := w.log + [Sent(p, plaintext, e.result.value)])
    case Deliver(p, m, draw) =>
      && draw !in w.drawn
      && m in Inbox(w, p)
      && var e := Decrypt(StateOf(w, p), m, draw);
      && e.Returns?
      && var got := WithState(w, p, e.state).(drawn := w.drawn + {draw});
      && w' == if e.result.Ok? then WithInbox(got, p, Inbox(w, p) - {m}).(delivered := w.delivered + {m}) else got
    case Lose(p, m) =>
      w' == WithInbox(w, p, Inbox(w, p) - {m})
  }

  ghost predicate Run(worlds: seq<World>, events: seq<Event>, sk: Key, spk: Secret) {
    && |worlds| == |events| + 1
    && worlds[0] == Start(sk, spk)
    && forall i :: 0 <= i < |events| ==> Step(worlds[i], events[i], worlds[i + 1])
  }

  ghost predicate Reachable(w: World) {
    exists worlds, events, sk, spk :: Run(worlds, events, sk, spk) && worlds[|worlds| - 1] == w
  }

  // ------------------------------------------------------- the hidden history

  /** The `i`-th ratchet key pair: its secret, the root key after it, the first
      key of the chain it opened against its predecessor, and what was sent there. */
  datatype Link = Link(secret: Secret, root: Key, start: Key, sent: seq<Bytes>)

  /** All links in order of creation, alternating between the parties (the
      responder owns the even ones); the positions delivered; and the position
      of every log entry. */
  datatype History = History(links: seq<Link>, got: set<(nat, nat)>, places: seq<(nat, nat)>)

  predicate Linked(previous: Link, link: Link) {
    var dh := DiffieHellman(link.secret, PublicKey(previous.secret));
    link.root == RootOf(previous.root, dh) && link.start == ChainOf(previous.root, dh)
  }

  ghost predicate Shape(h: History) {
    && |h.links| >= 1
    && h.links[0].sent == []
    && (forall i, j :: 0 <= i < j < |h.links| ==> h.links[i].secret != h.links[j].secret)
    && (forall i: nat :: 1 <= i < |h.links| ==> Linked(h.links[i - 1], h.links[i]))
    && (forall i :: 0 <= i < |h.links| ==> |h.links[i].sent| <= U32_MAX)
    && (forall i :: 1 <= i < |h.links| - 1 ==> h.links[i].sent != [])
  }

  function PreviousLength(h: History, i: nat): nat
    requires i < |h.links|
  {
    if i < 2 then 0 else |h.links[i - 2].sent|
  }

  ghost predicate Position(h: History, i: nat, n: nat) {
    1 <= i < |h.links| && n < |h.links[i].sent|
  }

  function KeyAt(h: History, i: nat, n: nat): Key
    requires i < |h.links|
  {
    MessageOf(Advance(h.links[i].start, n))
  }

  function MessageAt(h: History, i: nat, n: nat): Message
    requires Position(h, i, n)
  {
    var header := Header(PublicKey(h.links[i].secret), PreviousLength(h, i), n);
    Message(header, Sealed(KeyAt(h, i, n), h.links[i].sent[n], header))
  }

  function Receiver(i: nat): Party {
    if i % 2 == 1 then Responder else Initiator
  }

  /** The newest chain of `p`; -1 for an initiator that has not sent yet. */
  function Epoch(h: History, p: Party): int {
    var last := |h.links| - 1;
    if last < 0 then -1 else if Receiver(last) == p then last - 1 else last
  }

  /** Position `(i, n)` was skipped over by a receiver of epoch `e` that has read `r` of its newest chain. */
  ghost predicate Waiting(h: History, e: int, r: nat, i: nat, n: nat) {
    && Position(h, i, n) && i < e && (e - i) % 2 == 1
    && (i == e - 1 ==> n < r)
    && (i, n) !in h.got
  }

  type Cache = map<(PublicKey, nat), Key>

  ghost predicate CacheComplete(h: History, cache: Cache, e: int, r: nat) {
    forall i: nat, n: nat :: Waiting(h, e, r, i, n) ==>
      (PublicKey(h.links[i].secret), n) in cache && cache[(PublicKey(h.links[i].secret), n)] == KeyAt(h, i, n)
  }

  ghost predicate Owner(h: History, e: int, r: nat, k: (PublicKey, nat), i: nat) {
    Waiting(h, e, r, i, k.1) && k.0 == PublicKey(h.links[i].secret)
  }

  ghost predicate CacheSound(h: History, cache: Cache, e: int, r: nat) {
    forall k :: k in cache ==> exists i: nat :: Owner(h, e, r, k, i)
  }

  ghost predicate CacheExact(h: History, cache: Cache, e: int, r: nat) {
    CacheComplete(h, cache, e, r) && CacheSound(h, cache, e, r)
  }

  /** `s` is exactly what a party of epoch `e` must hold. */
  ghost predicate Mirrors(h: History, s: State, e: int) {
    && |h.links| > 0
    && if e < 0 then s == InitInitiator(h.links[0].root, PublicKey(h.links[0].secret))
       else
         && e < |h.links|
         && s.rootKey == h.links[e].root
         && s.dhSelf == Some(h.links[e].secret)
         && s.dhRemote == (if e == 0 then None else Some(PublicKey(h.links[e - 1].secret)))
         && s.chainSend == (if e == 0 then None else Some(Advance(h.links[e].start, |h.links[e].sent|)))
         && s.chainRecv == (if e <= 1 then None else Some(Advance(h.links[e - 1].start, s.nRecv)))
         && s.nSend == |h.links[e].sent|
         && s.prevChainLen == PreviousLength(h, e)
         && s.nRecv <= (if e <= 1 then 0 else |h.links[e - 1].sent|)
         && CacheExact(h, s.skipped, e, s.nRecv)
  }

  /** What has been delivered to `p` lies behind its reading position. */
  ghost predicate GotOk(h: History, p: Party, e: int, r: nat) {
    forall i: nat, n: nat :: (i, n) in h.got && Receiver(i) == p ==>
      Position(h, i, n) && (i < e - 1 || (i == e - 1 && n < r))
  }

  ghost predicate InFlight(h: History, p: Party, m: Message, i: nat, n: nat) {
    Position(h, i, n) && Receiver(i) == p && (i, n) !in h.got && m == MessageAt(h, i, n)
  }

  ghost predicate InFlightOk(h: History, inbox: set<Message>, p: Party) {
    forall m :: m in inbox ==> exists i: nat, n: nat :: InFlight(h, p, m, i, n)
  }

  ghost predicate PartyOk(h: History, p: Party, s: State, inbox: set<Message>) {
    && Mirrors(h, s, Epoch(h, p))
    && GotOk(h, p, Epoch(h, p), s.nRecv)
    && InFlightOk(h, inbox, p)
  }

  ghost predicate Logged(h: History, entry: Sent, place: (nat, nat)) {
    && Position(h, place.0, place.1)
    && entry == Sent(Other(Receiver(place.0)), h.links[place.0].sent[place.1], MessageAt(h, place.0, place.1))
  }

  predicate Earlier(a: (nat, nat), b: (nat, nat)) {
    a.0 < b.0 || (a.0 == b.0 && a.1 < b.1)
  }

  ghost predicate LogOk(h: History, log: seq<Sent>) {
    && |h.places| == |log|
    && (forall a :: 0 <= a < |log| ==> Logged(h, log[a], h.places[a]))
    && (forall i: nat, n: nat :: Position(h, i, n) ==> (i, n) in h.places)
    && (forall a, b :: 0 <= a < b < |log| && log[a].from == log[b].from ==> Earlier(h.places[a], h.places[b]))
  }

  ghost predicate SentAt(h: History, m: Message, i: nat, n: nat) {
    Position(h, i, n) && m == MessageAt(h, i, n)
  }

  ghost predicate DeliveredOk(h: History, delivered: set<Message>) {
    && (forall i: nat, n: nat :: Position(h, i, n) ==> ((i, n) in h.got <==> MessageAt(h, i, n) in delivered))
    && (forall m :: m in delivered ==> exists i: nat, n: nat :: SentAt(h, m, i, n))
  }

  ghost predicate DrawnOk(h: History, drawn: set<Secret>) {
    forall i :: 0 <= i < |h.links| ==> h.links[i].secret in drawn
  }

  ghost predicate Invariant(w: World, h: History) {
    && Shape(h)
    && DrawnOk(h, w.drawn)
    && PartyOk(h, Initiator, w.initiator, w.toInitiator)
    && PartyOk(h, Responder, w.responder, w.toResponder)
    && LogOk(h, w.log)
    && DeliveredOk(h, w.delivered)
  }

  // ------------------------------------------------------ histories that grow

  /** Append a plaintext to chain `c`. */
  function Append(h: History, c: nat, plaintext: Bytes): History
    requires c < |h.links|
  {
    h.(links := h.links[c := h.links[c].(sent := h.links[c].sent + [plaintext])],
       places := h.places + [(c, |h.links[c].sent|)])
  }

  /** Open the next chain with the fresh secret `draw`. */
  function NewChain(h: History, draw: Secret): History
    requires |h.links| >= 1
  {
    var last := h.links[|h.links| - 1];
    var dh := DiffieHellman(draw, PublicKey(last.secret));
    h.(links := h.links + [Link(draw, RootOf(last.root, dh), ChainOf(last.root, dh), [])])
  }

  function Mark(h: History, i: nat, n: nat): History {
    h.(got := h.got + {(i, n)})
  }

  /** `draw` is new, and the newest chain has been answered for by a message. */
  ghost predicate Unused(h: History, draw: Secret) {
    (|h.links| > 1 ==> h.links[|h.links| - 1].sent != []) &&
    forall i :: 0 <= i < |h.links| ==> h.links[i].secret != draw
  }

  lemma AppendFacts(h: History, c: nat, plaintext: Bytes)
    requires Shape(h) && |h.links| - 2 <= c < |h.links| && c >= 1 && |h.links[c].sent| < U32_MAX
    ensures var g := Append(h, c, plaintext);
            && Shape(g)
            && (forall i: nat, n: nat :: Position(g, i, n) <==> Position(h, i, n) || (i, n) == (c, |h.links[c].sent|))
            && (forall i: nat, n: nat :: Position(h, i, n) ==> MessageAt(g, i, n) == MessageAt(h, i, n))
            && (forall i: nat, n: nat :: i < |h.links| ==> KeyAt(g, i, n) == KeyAt(h, i, n))
  {}

  lemma NewChainFacts(h: History, draw: Secret)
    requires Shape(h) && Unused(h, draw)
    ensures var g := NewChain(h, draw);
            && Shape(g)
            && (forall i: nat, n: nat :: Position(g, i, n) <==> Position(h, i, n))
            && (forall i: nat, n: nat :: Position(h, i, n) ==> MessageAt(g, i, n) == MessageAt(h, i, n))
            && (forall i: nat, n: nat :: i < |h.links| ==> KeyAt(g, i, n) == KeyAt(h, i, n))
  {}

  lemma MessageAtIsInjective(h: History, i: nat, n: nat, j: nat, m: nat)
    requires Shape(h) && Position(h, i, n) && Position(h, j, m)
    requires MessageAt(h, i, n).header == MessageAt(h, j, m).header
    ensures i == j && n == m
  {
    assert h.links[i].secret == h.links[j].secret;
  }

  // ------------------------------------------------------------- one decrypt

  lemma {:induction false} CacheKeysAt(cache: Cache, remote: PublicKey, chain: Key, from: nat, until: nat)
    requires from <= until
    ensures var c := CacheKeys(cache, remote, chain, from, until);
            && (forall k: (PublicKey, nat) :: k in c <==> k in cache || (k.0 == remote && from <= k.1 < until))
            && (forall k: (PublicKey, nat) :: k in c ==> c[k] == if k.0 == remote && from <= k.1 < until
                                               then MessageOf(Advance(chain, k.1 - from)) else cache[k])
    decreases until
  {
    if from < until { CacheKeysAt(cache, remote, chain, from, until - 1); }
  }

  lemma {:induction false} AdvanceAdds(chain: Key, a: nat, b: nat)
    ensures Advance(Advance(chain, a), b) == Advance(chain, a + b)
  {
    if b > 0 { AdvanceAdds(chain, a, b - 1); }
  }

  /** Nothing the receiver has not read yet is marked delivered. */
  ghost predicate UnreadFrom(h: History, c: nat, r: nat) {
    forall n: nat :: r <= n ==> (c, n) !in h.got
  }

  function SkipCache(h: History, cache: Cache, e: nat, r: nat, until: nat): Cache
    requires 2 <= e <= |h.links| && r <= until
  {
    CacheKeys(cache, PublicKey(h.links[e - 1].secret), Advance(h.links[e - 1].start, r), r, until)
  }

  lemma SkipKeepsComplete(h: History, cache: Cache, e: nat, r: nat, until: nat)
    requires Shape(h) && 2 <= e < |h.links| && r <= until <= |h.links[e - 1].sent| && CacheComplete(h, cache, e, r)
    ensures CacheComplete(h, SkipCache(h, cache, e, r, until), e, until)
  {
    CacheKeysAt(cache, PublicKey(h.links[e - 1].secret), Advance(h.links[e - 1].start, r), r, until);
    forall i: nat, n: nat | Waiting(h, e, until, i, n)
      ensures var k := (PublicKey(h.links[i].secret), n);
              k in SkipCache(h, cache, e, r, until) && SkipCache(h, cache, e, r, until)[k] == KeyAt(h, i, n)
    {
      if i == e - 1 && r <= n {
        AdvanceAdds(h.links[e - 1].start, r, n - r);
      } else {
        assert Waiting(h, e, r, i, n);
      }
    }
  }

  lemma SkipKeepsSound(h: History, cache: Cache, e: nat, r: nat, until: nat)
    requires Shape(h) && 2 <= e < |h.links| && r <= until <= |h.links[e - 1].sent| && CacheSound(h, cache, e, r)
    requires UnreadFrom(h, e - 1, r)
    ensures CacheSound(h, SkipCache(h, cache, e, r, until), e, until)
  {
    var remote := PublicKey(h.links[e - 1].secret);
    CacheKeysAt(cache, remote, Advance(h.links[e - 1].start, r), r, until);
    forall k | k in SkipCache(h, cache, e, r, until)
      ensures exists i: nat :: Owner(h, e, until, k, i)
    {
      if k.0 == remote && r <= k.1 < until {
        assert Owner(h, e, until, k, e - 1);
      } else {
        var i: nat :| Owner(h, e, r, k, i);
        assert Owner(h, e, until, k, i);
      }
    }
  }

  /** A cache stays exact when the same positions wait under the same names and keys. */
  lemma SameWaiting(h: History, cache: Cache, e: int, r: nat, g: History, f: int, q: nat)
    requires CacheExact(h, cache, e, r)
    requires forall i: nat, n: nat :: Waiting(g, f, q, i, n) <==> Waiting(h, e, r, i, n)
    requires forall i: nat, n: nat :: Waiting(h, e, r, i, n) ==>
               i < |g.links| && g.links[i].secret == h.links[i].secret && KeyAt(g, i, n) == KeyAt(h, i, n)
    ensures CacheExact(g, cache, f, q)
  {
    forall k | k in cache ensures exists i: nat :: Owner(g, f, q, k, i) {
      var i: nat :| Owner(h, e, r, k, i);
      assert Owner(g, f, q, k, i);
    }
  }

  lemma MarkHead(h: History, s: State, e: nat, n: nat)
    requires Shape(h) && e >= 2 && Mirrors(h, s, e) && s.nRecv == n < |h.links[e - 1].sent|
    ensures Mirrors(Mark(h, e - 1, n), s.(chainRecv := Some(Advance(h.links[e - 1].start, n + 1)), nRecv := n + 1), e)
  {
    SameWaiting(h, s.skipped, e, n, Mark(h, e - 1, n), e, n + 1);
  }

  /** Skipping forward on the current chain leaves a mirror image. */
  lemma SkipKeepsMirror(h: History, s: State, e: nat, until: nat)
    requires Shape(h) && 2 <= e && Mirrors(h, s, e) && UnreadFrom(h, e - 1, s.nRecv)
    requires s.nRecv <= until <= |h.links[e - 1].sent|
    ensures var r := SkipTo(s, PublicKey(h.links[e - 1].secret), s.chainRecv.value, until);
            if until - s.nRecv <= MAX_SKIP
            then r.Skipped? && r.chain == Advance(h.links[e - 1].start, until) && r.state.nRecv == until
                 && Mirrors(h, r.state.(chainRecv := Some(r.chain)), e)
                 && r.state == s.(nRecv := until, skipped := r.state.skipped)
            else r == Refused(TooManySkipped(until - s.nRecv))
  {
    hide CacheComplete, CacheSound;
    if until - s.nRecv <= MAX_SKIP {
      SkipKeepsComplete(h, s.skipped, e, s.nRecv, until);
      SkipKeepsSound(h, s.skipped, e, s.nRecv, until);
      AdvanceAdds(h.links[e - 1].start, s.nRecv, until - s.nRecv);
    }
  }

  lemma ReceiveWorks(h: History, s: State, e: nat, n: nat)
    requires Shape(h) && 2 <= e && Mirrors(h, s, e)
    requires Position(h, e - 1, n) && s.nRecv <= n && UnreadFrom(h, e - 1, s.nRecv)
    ensures var m := MessageAt(h, e - 1, n);
            if n - s.nRecv <= MAX_SKIP then
              var done := ReceiveOnChain(s, m);
              && done.Returns? && done.result == Ok(h.links[e - 1].sent[n])
              && done.state.nRecv == n + 1
              && Mirrors(Mark(h, e - 1, n), done.state, e)
            else ReceiveOnChain(s, m) == Returns(s, Err(TooManySkipped(n - s.nRecv)))
  {
    hide CacheExact, SkipTo;
    SkipKeepsMirror(h, s, e, n);
    if n - s.nRecv <= MAX_SKIP {
      var r := SkipTo(s, PublicKey(h.links[e - 1].secret), s.chainRecv.value, n);
      MarkHead(h, r.state.(chainRecv := Some(r.chain)), e, n);
    }
  }

  lemma MarkWaitingCache(h: History, cache: Cache, e: nat, r: nat, i: nat, n: nat)
    requires Shape(h) && e <= |h.links| && CacheExact(h, cache, e, r) && Waiting(h, e, r, i, n)
    ensures CacheExact(Mark(h, i, n), cache - {(PublicKey(h.links[i].secret), n)}, e, r)
  {
    var g, gone := Mark(h, i, n), (PublicKey(h.links[i].secret), n);
    forall k | k in cache - {gone} ensures exists j: nat :: Owner(g, e, r, k, j) {
      var j: nat :| Owner(h, e, r, k, j);
      assert Owner(g, e, r, k, j);
    }
  }

  lemma MarkWaiting(h: History, s: State, e: nat, i: nat, n: nat)
    requires Shape(h) && Mirrors(h, s, e) && Waiting(h, e, s.nRecv, i, n)
    ensures Mirrors(Mark(h, i, n), s.(skipped := s.skipped - {(PublicKey(h.links[i].secret), n)}), e)
  {
    MarkWaitingCache(h, s.skipped, e, s.nRecv, i, n);
    hide CacheExact, Waiting, Shape;
  }

  lemma TurnKeepsCacheExact(h: History, cache: Cache, e: nat, r: nat, draw: Secret)
    requires Shape(h) && e == |h.links| - 2 && Unused(h, draw) && CacheExact(h, cache, e, r)
    requires UnreadFrom(h, e + 1, 0) && (e >= 2 ==> r == |h.links[e - 1].sent|)
    ensures CacheExact(NewChain(h, draw), cache, e + 2, 0)
  {
    SameWaiting(h, cache, e, r, NewChain(h, draw), e + 2, 0);
  }

  /** Answering the peer's new chain with one of our own: two links, two roots. */
  lemma TurnKeepsMirror(h: History, t: State, e: nat, draw: Secret)
    requires Shape(h) && e == |h.links| - 2 && Mirrors(h, t, e) && Unused(h, draw)
    requires UnreadFrom(h, e + 1, 0) && (e >= 2 ==> t.nRecv == |h.links[e - 1].sent|)
    ensures Mirrors(NewChain(h, draw), RatchetReceiveSide(t, PublicKey(h.links[e + 1].secret), draw), e + 2)
  {
    var g := NewChain(h, draw);
    NewChainFacts(h, draw);
    assert Linked(h.links[e], h.links[e + 1]);
    TurnKeepsCacheExact(h, t.skipped, e, t.nRecv, draw);
  }

  /** The caller-visible condition under which the skip limit lets a message through. */
  predicate SkipsFit(s: State, header: Header) {
    || (header.dh, header.n) in s.skipped
    || if s.dhRemote == Some(header.dh) then s.nRecv <= header.n <= s.nRecv + MAX_SKIP
       else (s.chainRecv.Some? ==> s.nRecv <= header.prevChainLen <= s.nRecv + MAX_SKIP) && header.n <= MAX_SKIP
  }

  /** By how much a message exceeds the skip limit, first on the chain being left. */
  function Overrun(s: State, header: Header): int {
    if s.dhRemote == Some(header.dh) then header.n - s.nRecv
    else if s.chainRecv.Some? && header.prevChainLen - s.nRecv > MAX_SKIP then header.prevChainLen - s.nRecv
    else header.n
  }

  ghost predicate AnswerIs(s: State, m: Message, draw: Secret, plaintext: Bytes) {
    var done := Decrypt(s, m, draw);
    && done.Returns?
    && (done.result.Ok? <==> SkipsFit(s, m.header))
    && (done.result.Ok? ==> done.result.value == plaintext)
    && (done.result.Err? ==>
          done.result.error.TooManySkipped? && done.result.error.gap == Overrun(s, m.header))
  }

  lemma NotCached(h: History, s: State, e: nat, i: nat, n: nat)
    requires Shape(h) && Mirrors(h, s, e) && Position(h, i, n) && !Waiting(h, e, s.nRecv, i, n)
    ensures (PublicKey(h.links[i].secret), n) !in s.skipped
  {}

  /** A message of the peer's next chain: drain, turn the ratchet, read. */
  lemma DecryptNewChain(h: History, s: State, e: nat, n: nat, draw: Secret) returns (turned: State)
    requires Shape(h) && e == |h.links| - 2 && Mirrors(h, s, e) && Unused(h, draw)
    requires Position(h, e + 1, n) && UnreadFrom(h, e + 1, 0) && (e >= 2 ==> UnreadFrom(h, e - 1, s.nRecv))
    ensures var m, g := MessageAt(h, e + 1, n), NewChain(h, draw);
            var done := Decrypt(s, m, draw);
            && AnswerIs(s, m, draw, h.links[e + 1].sent[n])
            && (turned == s || (Mirrors(g, turned, e + 2) && turned.nRecv == 0))
            && (if done.result.Ok? then turned != s && Mirrors(Mark(g, e + 1, n), done.state, e + 2)
                && done.state.nRecv == n + 1
                else done.state == turned)
  {
    var m, g := MessageAt(h, e + 1, n), NewChain(h, draw);
    NotCached(h, s, e, e + 1, n);
    var t := s;
    if e >= 2 {
      SkipKeepsMirror(h, s, e, |h.links[e - 1].sent|);
      var drained := DrainOldChain(s, m);
      if drained.Refused? { return s; }
      t := drained.state.(chainRecv := Some(drained.chain));
      assert RatchetReceiveSide(t, m.header.dh, draw) == RatchetReceiveSide(drained.state, m.header.dh, draw);
    }
    TurnKeepsMirror(h, t, e, draw);
    NewChainFacts(h, draw);
    turned := RatchetReceiveSide(t, m.header.dh, draw);
    assert turned.dhRemote != s.dhRemote;
    assert Decrypt(s, m, draw) == ReceiveOnChain(turned, m);
    ReceiveWorks(g, turned, e + 2, n);
  }

  lemma DecryptOldOrCurrent(h: History, s: State, e: nat, i: nat, n: nat, draw: Secret) returns (g: History)
    requires Shape(h) && Mirrors(h, s, e) && Position(h, i, n) && (i, n) !in h.got
    requires i < e && (e - i) % 2 == 1 && UnreadFrom(h, e - 1, s.nRecv)
    ensures var m := MessageAt(h, i, n);
            var done := Decrypt(s, m, draw);
            && AnswerIs(s, m, draw, h.links[i].sent[n])
            && (if done.result.Ok? then g == Mark(h, i, n) && Mirrors(g, done.state, e) && done.state.nRecv >= s.nRecv
                                        && (i == e - 1 ==> n < done.state.nRecv)
                else g == h && done.state == s)
  {
    var m := MessageAt(h, i, n);
    g := Mark(h, i, n);
    if Waiting(h, e, s.nRecv, i, n) {
      MarkWaiting(h, s, e, i, n);
    } else {
      NotCached(h, s, e, i, n);
      assert i == e - 1 && s.nRecv <= n;
      ReceiveWorks(h, s, e, n);
      if n - s.nRecv > MAX_SKIP { g := h; }
    }
  }

  // ---------------------------------------------------- every step keeps it

  lemma StartHolds(sk: Key, spk: Secret)
    ensures Invariant(Start(sk, spk), History([Link(spk, sk, sk, [])], {}, []))
  {}

  /** `g` knows every position of `h` under the same message. */
  ghost predicate Remembers(g: History, h: History) {
    forall i: nat, n: nat :: Position(h, i, n) ==> Position(g, i, n) && MessageAt(g, i, n) == MessageAt(h, i, n)
  }

  lemma InFlightStays(g: History, h: History, inbox: set<Message>, p: Party)
    requires Remembers(g, h) && InFlightOk(h, inbox, p)
    requires forall i: nat, n: nat :: (i, n) in g.got && (i, n) !in h.got ==> Receiver(i) != p
    ensures InFlightOk(g, inbox, p)
  {
    forall m | m in inbox ensures exists i: nat, n: nat :: InFlight(g, p, m, i, n) {
      var i: nat, n: nat :| InFlight(h, p, m, i, n);
      assert InFlight(g, p, m, i, n);
    }
  }

  lemma DeliveredStays(g: History, h: History, delivered: set<Message>)
    requires Remembers(g, h) && DeliveredOk(h, delivered) && g.got == h.got
    requires forall i: nat, n: nat :: Position(g, i, n) ==> Position(h, i, n)
    ensures DeliveredOk(g, delivered)
  {
    forall m | m in delivered ensures exists i: nat, n: nat :: SentAt(g, m, i, n) {
      var i: nat, n: nat :| SentAt(h, m, i, n);
      assert SentAt(g, m, i, n);
    }
  }

  /** Opening a chain: the party that does it, whose new state is `t` ... */
  lemma OpenKeepsOpener(h: History, p: Party, s: State, inbox: set<Message>, t: State, draw: Secret)
    requires Shape(h) && Unused(h, draw) && PartyOk(h, p, s, inbox) && Epoch(h, p) == |h.links| - 2
    requires Mirrors(NewChain(h, draw), t, |h.links|)
    ensures PartyOk(NewChain(h, draw), p, t, inbox)
  {
    hide Mirrors;
    NewChainFacts(h, draw);
    InFlightStays(NewChain(h, draw), h, inbox, p);
  }

  lemma OpenMirrorsOther(h: History, s: State, e: int, draw: Secret)
    requires Shape(h) && Unused(h, draw) && 0 <= e < |h.links| && Mirrors(h, s, e)
    ensures Mirrors(NewChain(h, draw), s, e)
  {
    SameWaiting(h, s.skipped, e, s.nRecv, NewChain(h, draw), e, s.nRecv);
  }

  /** ... and its peer. */
  lemma OpenKeepsOther(h: History, q: Party, s: State, inbox: set<Message>, draw: Secret)
    requires Shape(h) && Unused(h, draw) && PartyOk(h, q, s, inbox) && Epoch(h, q) == |h.links| - 1
    ensures PartyOk(NewChain(h, draw), q, s, inbox)
  {
    hide Mirrors;
    NewChainFacts(h, draw);
    OpenMirrorsOther(h, s, Epoch(h, q), draw);
    InFlightStays(NewChain(h, draw), h, inbox, q);
  }

  lemma OpenKeepsRest(h: History, w: World, draw: Secret)
    requires Shape(h) && Unused(h, draw) && LogOk(h, w.log) && DeliveredOk(h, w.delivered) && DrawnOk(h, w.drawn)
    ensures var g := NewChain(h, draw);
            Shape(g) && LogOk(g, w.log) && DeliveredOk(g, w.delivered) && DrawnOk(g, w.drawn + {draw})
  {
    var g := NewChain(h, draw);
    NewChainFacts(h, draw);
    DeliveredStays(g, h, w.delivered);
    forall a | 0 <= a < |w.log| ensures Logged(g, w.log[a], g.places[a]) {
      assert Logged(h, w.log[a], h.places[a]);
    }
  }

  lemma OpenKeeps(w: World, h: History, p: Party, t: State, draw: Secret)
    requires Invariant(w, h) && draw !in w.drawn && Unused(h, draw) && Epoch(h, p) == |h.links| - 2
    requires Mirrors(NewChain(h, draw), t, |h.links|)
    ensures Epoch(NewChain(h, draw), p) == |h.links|
    ensures Invariant(WithState(w, p, t).(drawn := w.drawn + {draw}), NewChain(h, draw))
  {
    OpenKeepsOpener(h, p, StateOf(w, p), Inbox(w, p), t, draw);
    OpenKeepsOther(h, Other(p), StateOf(w, Other(p)), Inbox(w, Other(p)), draw);
    OpenKeepsRest(h, w, draw);
  }

  ghost predicate CanSend(h: History, c: nat) {
    Shape(h) && 1 <= c && |h.links| - 2 <= c < |h.links| && |h.links[c].sent| < U32_MAX
  }

  lemma AppendMirrorsSelf(h: History, s: State, c: nat, plaintext: Bytes)
    requires CanSend(h, c) && Mirrors(h, s, c)
    ensures s.chainSend.Some?
    ensures Mirrors(Append(h, c, plaintext), s.(chainSend := Some(NextOf(s.chainSend.value)), nSend := s.nSend + 1), c)
  {
    SameWaiting(h, s.skipped, c, s.nRecv, Append(h, c, plaintext), c, s.nRecv);
  }

  /** Sending on chain `c`: the sender ... */
  lemma AppendKeepsSender(h: History, p: Party, s: State, inbox: set<Message>, plaintext: Bytes)
    requires |h.links| > 0 && Epoch(h, p) >= 1
        && CanSend(h, Epoch(h, p)) && PartyOk(h, p, s, inbox) && s.chainSend.Some?
    ensures PartyOk(Append(h, Epoch(h, p), plaintext), p,
                    s.(chainSend := Some(NextOf(s.chainSend.value)), nSend := s.nSend + 1), inbox)
  {
    hide Mirrors;
    AppendMirrorsSelf(h, s, Epoch(h, p), plaintext);
    AppendFacts(h, Epoch(h, p), plaintext);
    InFlightStays(Append(h, Epoch(h, p), plaintext), h, inbox, p);
  }

  lemma AppendMirrorsOther(h: History, s: State, e: int, c: nat, plaintext: Bytes)
    requires CanSend(h, c) && Mirrors(h, s, e) && (c == e - 1 || c == e + 1)
    ensures Mirrors(Append(h, c, plaintext), s, e)
  {
    if e >= 0 {
      SameWaiting(h, s.skipped, e, s.nRecv, Append(h, c, plaintext), e, s.nRecv);
    }
  }

  lemma AppendInFlight(h: History, q: Party, inbox: set<Message>, c: nat, plaintext: Bytes)
    requires CanSend(h, c) && InFlightOk(h, inbox, q) && Receiver(c) == q && (forall n: nat ::
        n >= |h.links[c].sent| ==> (c, n) !in h.got)
    ensures var g := Append(h, c, plaintext);
            Position(g, c, |h.links[c].sent|) && InFlightOk(g, inbox + {MessageAt(g, c, |h.links[c].sent|)}, q)
  {
    var g, n := Append(h, c, plaintext), |h.links[c].sent|;
    AppendFacts(h, c, plaintext);
    InFlightStays(g, h, inbox, q);
    assert InFlight(g, q, MessageAt(g, c, n), c, n);
    hide MessageAt, InFlight, Append, Shape;
  }

  /** ... and the receiver, who finds the new message in flight. */
  lemma AppendKeepsReceiver(h: History, q: Party, s: State, inbox: set<Message>, c: nat, plaintext: Bytes)
    requires CanSend(h, c) && PartyOk(h, q, s, inbox) && Receiver(c) == q && c == Epoch(h, Other(q))
    ensures var g := Append(h, c, plaintext);
            PartyOk(g, q, s, inbox + {MessageAt(g, c, |h.links[c].sent|)})
  {
    hide Mirrors, InFlightOk, MessageAt;
    AppendFacts(h, c, plaintext);
    AppendMirrorsOther(h, s, Epoch(h, q), c, plaintext);
    AppendInFlight(h, q, inbox, c, plaintext);
  }

  /** The newest position of a chain comes after every earlier position of its sender. */
  lemma NewestIsLatest(h: History, place: (nat, nat), c: nat)
    requires CanSend(h, c) && Position(h, place.0, place.1) && Receiver(place.0) == Receiver(c)
    ensures Earlier(place, (c, |h.links[c].sent|))
  {}

  lemma AppendLog(h: History, log: seq<Sent>, c: nat, plaintext: Bytes)
    requires CanSend(h, c) && LogOk(h, log)
    ensures var g := Append(h, c, plaintext);
            LogOk(g, log + [Sent(Other(Receiver(c)), plaintext, MessageAt(g, c, |h.links[c].sent|))])
  {
    var g, n := Append(h, c, plaintext), |h.links[c].sent|;
    var entry := Sent(Other(Receiver(c)), plaintext, MessageAt(g, c, n));
    assert forall i: nat, k: nat :: Position(h, i, k) ==>
        Position(g, i, k) && MessageAt(g, i, k) == MessageAt(h, i, k) by {
      AppendFacts(h, c, plaintext);
    }
    forall a | 0 <= a < |log| ensures Logged(g, log[a], h.places[a]) {
      assert Logged(h, log[a], h.places[a]);
    }
    assert Logged(g, entry, (c, n));
    forall i: nat, k: nat | Position(g, i, k) ensures (i, k) in g.places {
      if (i, k) != (c, n) { assert Position(h, i, k); }
      assert g.places[|log|] == (c, n);
    }
    forall a | 0 <= a < |log| && log[a].from == entry.from ensures Earlier(h.places[a], (c, n)) {
      assert Logged(h, log[a], h.places[a]);
      NewestIsLatest(h, h.places[a], c);
    }
  }

  lemma AppendDelivered(h: History, p: Party, s: State, inbox: set<Message>, delivered: set<Message>, c: nat,
      plaintext: Bytes)
    requires CanSend(h, c) && PartyOk(h, p, s, inbox) && Receiver(c) == p && DeliveredOk(h, delivered)
    ensures DeliveredOk(Append(h, c, plaintext), delivered)
  {
    var g, n := Append(h, c, plaintext), |h.links[c].sent|;
    AppendFacts(h, c, plaintext);
    assert MessageAt(g, c, n) !in delivered;
    forall m | m in delivered ensures exists i: nat, k: nat :: SentAt(g, m, i, k) {
      var i: nat, k: nat :| SentAt(h, m, i, k);
      assert SentAt(g, m, i, k);
    }
  }

  /** `encrypt` makes exactly the message of the next position. */
  lemma EncryptMakes(h: History, s: State, c: nat, plaintext: Bytes, draw: Secret)
    requires CanSend(h, c) && Mirrors(h, s, c)
    ensures Encrypt(s, plaintext, draw) ==
            Returns(s.(chainSend := Some(NextOf(s.chainSend.value)), nSend := s.nSend + 1),
                    Ok(MessageAt(Append(h, c, plaintext), c, s.nSend)))
  {}

  function AfterSend(w: World, p: Party, plaintext: Bytes, s: State, m: Message): World {
    WithInbox(WithState(w, p, s), Other(p), Inbox(w, Other(p)) + {m}).(log := w.log + [Sent(p, plaintext, m)])
  }

  lemma Assemble(w: World, h: History, p: Party)
    requires Shape(h) && DrawnOk(h, w.drawn) && LogOk(h, w.log) && DeliveredOk(h, w.delivered)
    requires PartyOk(h, p, StateOf(w, p), Inbox(w, p)) && PartyOk(h, Other(p), StateOf(w, Other(p)), Inbox(w, Other(p)))
    ensures Invariant(w, h)
  {}

  lemma SenderFacts(w: World, h: History, p: Party)
    requires Invariant(w, h) && Epoch(h, p) >= 1 && StateOf(w, p).nSend < U32_MAX
    ensures CanSend(h, Epoch(h, p)) && Receiver(Epoch(h, p)) == Other(p)
    ensures PartyOk(h, p, StateOf(w, p), Inbox(w, p)) && PartyOk(h, Other(p), StateOf(w, Other(p)), Inbox(w, Other(p)))
    ensures StateOf(w, p).nSend == |h.links[Epoch(h, p)].sent| && StateOf(w, p).chainSend.Some?
  {}

  lemma AppendKeeps(w: World, h: History, p: Party, plaintext: Bytes, draw: Secret)
    requires Invariant(w, h) && Epoch(h, p) >= 1 && StateOf(w, p).nSend < U32_MAX
    ensures var e := Encrypt(StateOf(w, p), plaintext, draw);
            && e.Returns? && e.result.Ok?
            && Invariant(AfterSend(w, p, plaintext, e.state, e.result.value), Append(h, Epoch(h, p), plaintext))
  {
    hide PartyOk, Shape, LogOk, DeliveredOk;
    SenderFacts(w, h, p);
    var c, q, s := Epoch(h, p), Other(p), StateOf(w, p);
    var g := Append(h, c, plaintext);
    var t, m := s.(chainSend := Some(NextOf(s.chainSend.value)), nSend := s.nSend + 1), MessageAt(g, c, s.nSend);
    assert Encrypt(s, plaintext, draw) == Returns(t, Ok(m)) by { EncryptMakes(h, s, c, plaintext, draw); }
    assert Shape(g) by { AppendFacts(h, c, plaintext); }
    assert PartyOk(g, p, t, Inbox(w, p)) by { AppendKeepsSender(h, p, s, Inbox(w, p), plaintext); }
    assert PartyOk(g, q, StateOf(w, q), Inbox(w, q) + {m}) by {
      AppendKeepsReceiver(h, q, StateOf(w, q), Inbox(w, q), c, plaintext);
    }
    assert LogOk(g, w.log + [Sent(p, plaintext, m)]) by { AppendLog(h, w.log, c, plaintext); }
    assert DeliveredOk(g, w.delivered) by {
      AppendDelivered(h, q, StateOf(w, q), Inbox(w, q), w.delivered, c, plaintext);
    }
    Assemble(AfterSend(w, p, plaintext, t, m), g, p);
  }

  /** Delivering position `(i, n)`: its receiver, whose new state is `t` ... */
  lemma MarkKeepsReceiver(h: History, p: Party, s: State, inbox: set<Message>, i: nat, n: nat, t: State)
    requires Shape(h) && PartyOk(h, p, s, inbox) && Position(h, i, n) && Receiver(i) == p
    requires Mirrors(Mark(h, i, n), t, Epoch(h, p)) && t.nRecv >= s.nRecv
    requires i < Epoch(h, p) - 1 || (i == Epoch(h, p) - 1 && n < t.nRecv)
    ensures PartyOk(Mark(h, i, n), p, t, inbox - {MessageAt(h, i, n)})
  {
    hide Mirrors;
    var g := Mark(h, i, n);
    forall m | m in inbox - {MessageAt(h, i, n)} ensures exists j: nat, k: nat :: InFlight(g, p, m, j, k) {
      var j: nat, k: nat :| InFlight(h, p, m, j, k);
      assert InFlight(g, p, m, j, k);
    }
  }

  lemma MarkMirrorsSender(h: History, s: State, e: int, i: nat, n: nat)
    requires Shape(h) && Mirrors(h, s, e) && (e - i) % 2 == 0
    ensures Mirrors(Mark(h, i, n), s, e)
  {
    if e >= 0 {
      SameWaiting(h, s.skipped, e, s.nRecv, Mark(h, i, n), e, s.nRecv);
    }
  }

  /** ... and its sender. */
  lemma MarkKeepsSender(h: History, q: Party, s: State, inbox: set<Message>, i: nat, n: nat)
    requires Shape(h) && PartyOk(h, q, s, inbox) && Position(h, i, n) && Receiver(i) != q
    ensures PartyOk(Mark(h, i, n), q, s, inbox)
  {
    hide Mirrors;
    assert (Epoch(h, q) - i) % 2 == 0;
    MarkMirrorsSender(h, s, Epoch(h, q), i, n);
    InFlightStays(Mark(h, i, n), h, inbox, q);
  }

  lemma MarkKeepsDelivered(h: History, delivered: set<Message>, i: nat, n: nat)
    requires Shape(h) && DeliveredOk(h, delivered) && Position(h, i, n)
    ensures DeliveredOk(Mark(h, i, n), delivered + {MessageAt(h, i, n)})
  {
    var g, m := Mark(h, i, n), MessageAt(h, i, n);
    forall j: nat, k: nat | Position(g, j, k)
      ensures (j, k) in g.got <==> MessageAt(g, j, k) in delivered + {m}
    {
      if MessageAt(h, j, k) == m { MessageAtIsInjective(h, i, n, j, k); }
    }
    assert SentAt(g, m, i, n);
    forall d | d in delivered ensures exists j: nat, k: nat :: SentAt(g, d, j, k) {
      var j: nat, k: nat :| SentAt(h, d, j, k);
      assert SentAt(g, d, j, k);
    }
  }

  lemma MarkKeepsLog(h: History, log: seq<Sent>, i: nat, n: nat)
    requires LogOk(h, log)
    ensures LogOk(Mark(h, i, n), log)
  {
    forall a | 0 <= a < |log| ensures Logged(Mark(h, i, n), log[a], h.places[a]) {
      assert Logged(h, log[a], h.places[a]);
    }
  }

  function AfterDelivery(w: World, p: Party, m: Message, s: State): World {
    WithInbox(WithState(w, p, s), p, Inbox(w, p) - {m}).(delivered := w.delivered + {m})
  }

  lemma MarkKeeps(w: World, h: History, p: Party, i: nat, n: nat, t: State)
    requires Invariant(w, h) && Position(h, i, n) && Receiver(i) == p
    requires Mirrors(Mark(h, i, n), t, Epoch(h, p)) && t.nRecv >= StateOf(w, p).nRecv
    requires i < Epoch(h, p) - 1 || (i == Epoch(h, p) - 1 && n < t.nRecv)
    ensures Invariant(AfterDelivery(w, p, MessageAt(h, i, n), t), Mark(h, i, n))
  {
    hide PartyOk, LogOk, DeliveredOk, Mirrors;
    var q := Other(p);
    MarkKeepsReceiver(h, p, StateOf(w, p), Inbox(w, p), i, n, t);
    MarkKeepsSender(h, q, StateOf(w, q), Inbox(w, q), i, n);
    MarkKeepsLog(h, w.log, i, n);
    MarkKeepsDelivered(h, w.delivered, i, n);
    Assemble(AfterDelivery(w, p, MessageAt(h, i, n), t), Mark(h, i, n), p);
  }

  // ------------------------------------------------------ the steps of a run

  lemma PartyIsOk(w: World, h: History, p: Party)
    requires Invariant(w, h)
    ensures PartyOk(h, p, StateOf(w, p), Inbox(w, p))
  {}

  /** Where a message in flight to `p` stands: on a chain `p` knows, or on the next one. */
  lemma PlaceOf(h: History, p: Party, s: State, inbox: set<Message>, m: Message) returns (i: nat, n: nat)
    requires Shape(h) && PartyOk(h, p, s, inbox) && m in inbox
    ensures InFlight(h, p, m, i, n)
    ensures var e := Epoch(h, p);
            && e >= 0 && Mirrors(h, s, e)
            && (e >= 1 ==> UnreadFrom(h, e - 1, s.nRecv))
            && ((i < e && (e - i) % 2 == 1) || (i == e + 1 && e == |h.links| - 2 && UnreadFrom(h, e + 1, 0)))
  {
    hide Mirrors;
    i, n :| InFlight(h, p, m, i, n);
    var e := Epoch(h, p);
    assert e >= 1 ==> Receiver(e - 1) == p;
    assert i == e + 1 || (i < e && (e - i) % 2 == 1);
  }

  function WithDraw(w: World, draw: Secret): World {
    w.(drawn := w.drawn + {draw})
  }

  /** What delivering `m` leaves behind. */
  function Received(w: World, p: Party, m: Message, done: Effect<Bytes>): World
    requires done.Returns?
  {
    if done.result.Ok? then AfterDelivery(w, p, m, done.state) else WithState(w, p, done.state)
  }

  lemma DeliverKnown(w: World, h: History, p: Party, i: nat, n: nat, draw: Secret) returns (g: History)
    requires Invariant(w, h) && Position(h, i, n) && Receiver(i) == p && (i, n) !in h.got
    requires var e := Epoch(h, p);
             && i < e && (e - i) % 2 == 1 && Mirrors(h, StateOf(w, p), e)
             && UnreadFrom(h, e - 1, StateOf(w, p).nRecv)
    ensures var m := MessageAt(h, i, n);
            && AnswerIs(StateOf(w, p), m, draw, h.links[i].sent[n])
            && Invariant(Received(w, p, m, Decrypt(StateOf(w, p), m, draw)), g)
  {
    hide PartyOk, LogOk, DeliveredOk, Mirrors, UnreadFrom, Decrypt;
    var e, s := Epoch(h, p), StateOf(w, p);
    g := DecryptOldOrCurrent(h, s, e, i, n, draw);
    var done := Decrypt(s, MessageAt(h, i, n), draw);
    if done.result.Ok? {
      MarkKeeps(w, h, p, i, n, done.state);
    } else {
      assert Received(w, p, MessageAt(h, i, n), done) == w;
    }
  }

  lemma DeliverNext(w: World, h: History, p: Party, n: nat, draw: Secret) returns (g: History)
    requires Invariant(w, h) && draw !in w.drawn
    requires var e := Epoch(h, p);
             && e >= 0 && e == |h.links| - 2 && Position(h, e + 1, n) && Mirrors(h, StateOf(w, p), e)
             && UnreadFrom(h, e + 1, 0) && (e >= 1 ==> UnreadFrom(h, e - 1, StateOf(w, p).nRecv))
    ensures var m := MessageAt(h, Epoch(h, p) + 1, n);
            && AnswerIs(StateOf(w, p), m, draw, h.links[Epoch(h, p) + 1].sent[n])
            && Invariant(WithDraw(Received(w, p, m, Decrypt(StateOf(w, p), m, draw)), draw), g)
  {
    hide PartyOk, LogOk, DeliveredOk, Mirrors, UnreadFrom, Decrypt;
    var e, s := Epoch(h, p), StateOf(w, p);
    var m := MessageAt(h, e + 1, n);
    var turned := DecryptNewChain(h, s, e, n, draw);
    var done := Decrypt(s, m, draw);
    if turned == s {
      g := h;
      assert Received(w, p, m, done) == w;
    } else {
      g := NewChain(h, draw);
      OpenKeeps(w, h, p, turned, draw);
      if done.result.Ok? {
        var v := WithDraw(WithState(w, p, turned), draw);
        assert Position(g, e + 1, n) && MessageAt(g, e + 1, n) == m by { NewChainFacts(h, draw); }
        g := Mark(g, e + 1, n);
        MarkKeeps(v, NewChain(h, draw), p, e + 1, n, done.state);
        assert AfterDelivery(v, p, m, done.state) == WithDraw(Received(w, p, m, done), draw);
      }
    }
  }

  /** One delivery, whatever the order of arrival. */
  lemma DeliverWorks(w: World, h: History, p: Party, m: Message, draw: Secret) returns (i: nat, n: nat, g: History)
    requires Invariant(w, h) && m in Inbox(w, p) && draw !in w.drawn
    ensures InFlight(h, p, m, i, n) && AnswerIs(StateOf(w, p), m, draw, h.links[i].sent[n])
    ensures Invariant(WithDraw(Received(w, p, m, Decrypt(StateOf(w, p), m, draw)), draw), g)
  {
    hide PartyOk, LogOk, DeliveredOk, Mirrors, UnreadFrom, Decrypt;
    PartyIsOk(w, h, p);
    i, n := PlaceOf(h, p, StateOf(w, p), Inbox(w, p), m);
    if i < Epoch(h, p) {
      g := DeliverKnown(w, h, p, i, n, draw);
    } else {
      g := DeliverNext(w, h, p, n, draw);
    }
  }

  /** The initiator's first `encrypt` opens chain 1. */
  lemma FirstSend(w: World, h: History, p: Party, plaintext: Bytes, draw: Secret)
    requires Invariant(w, h) && draw !in w.drawn && Epoch(h, p) < 1 && Encrypt(StateOf(w, p), plaintext, draw).Returns?
    ensures Epoch(h, p) == -1 == |h.links| - 2 && Unused(h, draw) && StateOf(w, p).chainSend.None?
        && StateOf(w, p).dhRemote.Some?
    ensures var t := OpenSendingChain(StateOf(w, p), StateOf(w, p).dhRemote.value, draw);
            Mirrors(NewChain(h, draw), t, 1) && t.nSend == 0
                && Encrypt(t, plaintext, draw) == Encrypt(StateOf(w, p), plaintext, draw)
  {
    PartyIsOk(w, h, p);
  }

  lemma SendWorks(w: World, h: History, p: Party, plaintext: Bytes, draw: Secret) returns (g: History)
    requires Invariant(w, h) && draw !in w.drawn && Encrypt(StateOf(w, p), plaintext, draw).Returns?
    ensures var e := Encrypt(StateOf(w, p), plaintext, draw);
            e.result.Ok? && Invariant(WithDraw(AfterSend(w, p, plaintext, e.state, e.result.value), draw), g)
  {
    var s := StateOf(w, p);
    if Epoch(h, p) >= 1 {
      assert s.nSend < U32_MAX by { PartyIsOk(w, h, p); }
      hide PartyOk, LogOk, DeliveredOk, Shape, Encrypt;
      AppendKeeps(w, h, p, plaintext, draw);
      g := Append(h, Epoch(h, p), plaintext);
    } else {
      hide PartyOk, LogOk, DeliveredOk, Shape, Mirrors, Encrypt;
      FirstSend(w, h, p, plaintext, draw);
      var t := OpenSendingChain(s, s.dhRemote.value, draw);
      g := NewChain(h, draw);
      OpenKeeps(w, h, p, t, draw);
      AppendKeeps(WithDraw(WithState(w, p, t), draw), g, p, plaintext, draw);
      g := Append(g, Epoch(g, p), plaintext);
    }
  }

  lemma StepKeeps(w: World, h: History, event: Event, w': World) returns (g: History)
    requires Invariant(w, h) && Step(w, event, w')
    ensures Invariant(w', g)
  {
    match event
    case Send(p, plaintext, draw) =>
      g := SendWorks(w, h, p, plaintext, draw);
      assert w' == WithDraw(AfterSend(w, p, plaintext, StateOf(w', p), w'.log[|w.log|].message), draw);
    case Deliver(p, m, draw) =>
      var i, n;
      i, n, g := DeliverWorks(w, h, p, m, draw);
      assert w' == WithDraw(Received(w, p, m, Decrypt(StateOf(w, p), m, draw)), draw);
    case Lose(p, m) =>
      g := h;
  }

  lemma {:induction false} RunHolds(worlds: seq<World>, events: seq<Event>, sk: Key, spk: Secret, k: nat)
      returns (h: History)
    requires Run(worlds, events, sk, spk) && k < |worlds|
    ensures Invariant(worlds[k], h)
  {
    if k == 0 {
      StartHolds(sk, spk);
      h := History([Link(spk, sk, sk, [])], {}, []);
    } else {
      hide Invariant, Step;
      h := RunHolds(worlds, events, sk, spk, k - 1);
      h := StepKeeps(worlds[k - 1], h, events[k - 1], worlds[k]);
    }
  }

  lemma ReachableHolds(w: World) returns (h: History)
    requires Reachable(w)
    ensures Invariant(w, h)
  {
    var worlds, events, sk, spk :| Run(worlds, events, sk, spk) && worlds[|worlds| - 1] == w;
    h := RunHolds(worlds, events, sk, spk, |worlds| - 1);
  }

  // ----------------------------------------------------------- main theorems

  /** A delivery never panics, and opens to exactly the plaintext that was
      encrypted unless the skip limit refuses it; the limit decides both ways. */
  lemma DeliveryIsExact(w: World, p: Party, m: Message, draw: Secret)
    requires Reachable(w) && m in Inbox(w, p) && draw !in w.drawn
    ensures exists a :: 0 <= a < |w.log| && w.log[a].message == m && w.log[a].from == Other(p)
    ensures forall a :: 0 <= a < |w.log| && w.log[a].message == m ==>
              AnswerIs(StateOf(w, p), m, draw, w.log[a].plaintext)
  {
    var h := ReachableHolds(w);
    var i, n, g := DeliverWorks(w, h, p, m, draw);
    hide PartyOk, DeliveredOk, Decrypt, Encrypt, AnswerIs;
    assert (i, n) in h.places;
    var a :| 0 <= a < |h.places| && h.places[a] == (i, n);
    assert Logged(h, w.log[a], h.places[a]);
    forall b | 0 <= b < |w.log| && w.log[b].message == m ensures w.log[b].plaintext == h.links[i].sent[n] {
      assert Logged(h, w.log[b], h.places[b]);
      MessageAtIsInjective(h, i, n, h.places[b].0, h.places[b].1);
    }
  }

  /** `encrypt` panics exactly for a responder that has no chain to send on yet,
      and when a chain has used up its 32-bit numbers. */
  lemma EncryptPanicsExactlyWhen(w: World, p: Party, plaintext: Bytes, draw: Secret)
    requires Reachable(w)
    ensures var s := StateOf(w, p);
            Encrypt(s, plaintext, draw).Panics? <==>
                (p == Responder && s.chainSend.None?) || (s.chainSend.Some? && s.nSend == U32_MAX)
  {
    var h := ReachableHolds(w);
    PartyIsOk(w, h, p);
  }

  function Depth(k: Key): nat {
    match k
    case RootOf(salt, _) => 1 + Depth(salt)
    case _ => 0
  }

  lemma {:induction false} RootDepth(h: History, i: nat)
    requires Shape(h) && i < |h.links|
    ensures Depth(h.links[i].root) == Depth(h.links[0].root) + i
  {
    if i > 0 {
      assert Linked(h.links[i - 1], h.links[i]);
      RootDepth(h, i - 1);
    }
  }

  lemma {:induction false} AdvanceIsInjective(a: Key, b: Key, n: nat, m: nat)
    requires a.ChainOf? && b.ChainOf? && Advance(a, n) == Advance(b, m)
    ensures a == b && n == m
  {
    if n > 0 && m > 0 { AdvanceIsInjective(a, b, n - 1, m - 1); }
  }

  lemma KeyAtIsInjective(h: History, i: nat, n: nat, j: nat, m: nat)
    requires Shape(h) && 1 <= i < |h.links| && 1 <= j < |h.links| && KeyAt(h, i, n) == KeyAt(h, j, m)
    ensures i == j && n == m
  {
    assert Linked(h.links[i - 1], h.links[i]) && Linked(h.links[j - 1], h.links[j]);
    AdvanceIsInjective(h.links[i].start, h.links[j].start, n, m);
    RootDepth(h, i - 1);
    RootDepth(h, j - 1);
  }

  /** No two `encrypt` calls of a session, on either side, ever share a message key. */
  lemma KeysNeverRepeat(w: World, a: nat, b: nat)
    requires Reachable(w) && a < b < |w.log|
    ensures w.log[a].message.ciphertext.key != w.log[b].message.ciphertext.key
  {
    var h := ReachableHolds(w);
    hide PartyOk, DeliveredOk;
    var pa, pb := h.places[a], h.places[b];
    assert Logged(h, w.log[a], pa) && Logged(h, w.log[b], pb);
    if KeyAt(h, pa.0, pa.1) == KeyAt(h, pb.0, pb.1) {
      KeyAtIsInjective(h, pa.0, pa.1, pb.0, pb.1);
    }
  }

  /** Entry `b` was sent to `p` on the chain with key `current`, after entry `a`. */
  ghost predicate SentLater(w: World, p: Party, current: PublicKey, a: nat, b: nat) {
    a < b < |w.log| && w.log[b].from == Other(p) && w.log[b].message.header.dh == current
  }

  /** Entry `a` is addressed to `p`, not delivered, and lies in a chain older than
      the one `p` reads or below its reading position there. */
  ghost predicate LeftBehind(w: World, p: Party, a: nat) {
    && a < |w.log| && w.log[a].from == Other(p) && w.log[a].message !in w.delivered
    && StateOf(w, p).dhRemote.Some?
    && var current := StateOf(w, p).dhRemote.value;
    && var header := w.log[a].message.header;
    && if header.dh == current then header.n < StateOf(w, p).nRecv
       else exists b: nat :: SentLater(w, p, current, a, b)
  }

  lemma NotDelivered(h: History, delivered: set<Message>, i: nat, n: nat)
    requires DeliveredOk(h, delivered) && Position(h, i, n)
    ensures (i, n) in h.got <==> MessageAt(h, i, n) in delivered
  {}

  /** The key `p` reads under names the chain below its own newest. */
  lemma ReadingFacts(h: History, p: Party, s: State, inbox: set<Message>)
    requires Shape(h) && PartyOk(h, p, s, inbox)
    ensures var e := Epoch(h, p);
            && e < |h.links| && |h.links| >= 1
            && (e >= 1 ==> s.dhRemote == Some(PublicKey(h.links[e - 1].secret)))
            && (e == 0 ==> s.dhRemote == None)
            && (e < 0 ==> s.dhRemote == Some(PublicKey(h.links[0].secret)) && |h.links| == 1)
  {}

  lemma EntryAt(h: History, log: seq<Sent>, a: nat)
    requires LogOk(h, log) && a < |log|
    ensures a < |h.places| && Logged(h, log[a], h.places[a])
  {}

  lemma InOrder(h: History, log: seq<Sent>, a: nat, b: nat)
    requires LogOk(h, log) && a < |log| && b < |log| && log[a].from == log[b].from
    ensures a < |h.places| && b < |h.places| && (a < b ==> Earlier(h.places[a], h.places[b]))
    ensures Earlier(h.places[a], h.places[b]) ==> a < b
  {}

  lemma SameSecret(h: History, i: nat, j: nat)
    requires Shape(h) && i < |h.links| && j < |h.links|
    ensures h.links[i].secret == h.links[j].secret <==> i == j
  {}

  lemma LeftBehindIsWaiting(w: World, h: History, p: Party, a: nat)
    requires Invariant(w, h) && LeftBehind(w, p, a)
    ensures a < |h.places| && Logged(h, w.log[a], h.places[a])
    ensures Waiting(h, Epoch(h, p), StateOf(w, p).nRecv, h.places[a].0, h.places[a].1)
  {
    hide PartyOk, DeliveredOk, Mirrors, LogOk, Shape;
    var e, remote := Epoch(h, p), StateOf(w, p).dhRemote.value;
    PartyIsOk(w, h, p);
    ReadingFacts(h, p, StateOf(w, p), Inbox(w, p));
    EntryAt(h, w.log, a);
    var (i, n) := h.places[a];
    NotDelivered(h, w.delivered, i, n);
    if w.log[a].message.header.dh == remote {
      SameSecret(h, i, if e >= 1 then e - 1 else 0);
    } else {
      var b: nat :| SentLater(w, p, remote, a, b);
      EntryAt(h, w.log, b);
      SameSecret(h, h.places[b].0, if e >= 1 then e - 1 else 0);
      InOrder(h, w.log, a, b);
    }
  }

  lemma FindPlace(h: History, log: seq<Sent>, i: nat, n: nat) returns (a: nat)
    requires LogOk(h, log) && Position(h, i, n)
    ensures a < |log| == |h.places| && h.places[a] == (i, n) && Logged(h, log[a], (i, n))
  {
    assert (i, n) in h.places;
    a :| 0 <= a < |h.places| && h.places[a] == (i, n);
    assert Logged(h, log[a], h.places[a]);
  }

  /** On an older chain, the first entry of the current chain comes later. */
  lemma OlderChainIsLeft(w: World, h: History, p: Party, a: nat, i: nat, n: nat)
    requires Shape(h) && LogOk(h, w.log) && a < |w.log| && h.places[a] == (i, n) && Logged(h, w.log[a], (i, n))
    requires var e := Epoch(h, p);
             && 1 <= i < e - 1 && (e - i) % 2 == 1
             && StateOf(w, p).dhRemote == Some(PublicKey(h.links[e - 1].secret))
    requires w.log[a].message !in w.delivered
    ensures LeftBehind(w, p, a)
  {
    var e := Epoch(h, p);
    assert Position(h, e - 1, 0);
    var b := FindPlace(h, w.log, e - 1, 0);
    hide LogOk;
    InOrder(h, w.log, a, b);
    assert SentLater(w, p, PublicKey(h.links[e - 1].secret), a, b);
  }

  lemma WaitingIsLeftBehind(w: World, h: History, p: Party, i: nat, n: nat) returns (a: nat)
    requires Invariant(w, h) && Waiting(h, Epoch(h, p), StateOf(w, p).nRecv, i, n)
    ensures a < |w.log| && Logged(h, w.log[a], (i, n)) && LeftBehind(w, p, a)
  {
    hide PartyOk, DeliveredOk, Mirrors, LogOk, Shape;
    PartyIsOk(w, h, p);
    ReadingFacts(h, p, StateOf(w, p), Inbox(w, p));
    a := FindPlace(h, w.log, i, n);
    NotDelivered(h, w.delivered, i, n);
    if i < Epoch(h, p) - 1 {
      OlderChainIsLeft(w, h, p, a, i, n);
    }
  }

  /** The cache of skipped keys holds exactly the messages left behind, each under
      the key it was sealed with. */
  lemma CacheIsExact(w: World, p: Party)
    requires Reachable(w)
    ensures forall a: nat :: LeftBehind(w, p, a) ==>
              var m := w.log[a].message;
              var k := (m.header.dh, m.header.n);
              k in StateOf(w, p).skipped && StateOf(w, p).skipped[k] == m.ciphertext.key
    ensures forall k :: k in StateOf(w, p).skipped ==>
              exists a: nat :: LeftBehind(w, p, a) && k == (w.log[a].message.header.dh, w.log[a].message.header.n)
  {
    var h := ReachableHolds(w);
    PartyIsOk(w, h, p);
    hide PartyOk, LogOk, DeliveredOk, LeftBehind;
    var e, s := Epoch(h, p), StateOf(w, p);
    if e >= 0 {
      forall a: nat | LeftBehind(w, p, a)
        ensures a < |w.log| && var m := w.log[a].message; var k := (m.header.dh, m.header.n);
                k in s.skipped && s.skipped[k] == m.ciphertext.key
      {
        LeftBehindIsWaiting(w, h, p, a);
      }
      forall k | k in s.skipped
        ensures exists a: nat :: LeftBehind(w, p, a) && k == (w.log[a].message.header.dh, w.log[a].message.header.n)
      {
        var i: nat :| Owner(h, e, s.nRecv, k, i);
        var a := WaitingIsLeftBehind(w, h, p, i, k.1);
      }
    }
  }

  // ------------------------------------------------------------------ replays

  /** A turn of the ratchet cannot open what an older chain sealed. */
  lemma TurnCannotOpen(h: History, s: State, e: nat, i: nat, n: nat, dh: SharedSecret, k: nat)
    requires Shape(h) && Position(h, i, n) && i < e < |h.links| && s.rootKey == h.links[e].root
    ensures MessageOf(Advance(ChainOf(s.rootKey, dh), k)) != KeyAt(h, i, n)
    ensures forall a: SharedSecret, b: SharedSecret :: RootOf(RootOf(s.rootKey, a), b) != s.rootKey
  {
    assert Linked(h.links[i - 1], h.links[i]);
    RootDepth(h, i - 1);
    RootDepth(h, e);
    if MessageOf(Advance(ChainOf(s.rootKey, dh), k)) == KeyAt(h, i, n) {
      AdvanceIsInjective(ChainOf(s.rootKey, dh), h.links[i].start, k, n);
    }
    forall a: SharedSecret, b: SharedSecret ensures RootOf(RootOf(s.rootKey, a), b) != s.rootKey {
      assert Depth(RootOf(RootOf(s.rootKey, a), b)) == Depth(s.rootKey) + 2;
    }
  }

  /** The chain that would be left cannot be drained to the length the header claims. */
  predicate DrainRefuses(s: State, header: Header) {
    s.dhRemote.Some? && s.chainRecv.Some? && !(s.nRecv <= header.prevChainLen <= s.nRecv + MAX_SKIP)
  }

  /** What a message delivered before is answered with. */
  function ReplayError(s: State, header: Header): RatchetError {
    if s.dhRemote == Some(header.dh) then Backwards(s.nRecv, header.n)
    else if DrainRefuses(s, header) then
      (if header.prevChainLen < s.nRecv then Backwards(s.nRecv, header.prevChainLen)
       else TooManySkipped(header.prevChainLen - s.nRecv))
    else if header.n > MAX_SKIP then TooManySkipped(header.n)
    else AuthenticationFailed
  }

  lemma ReplayWorks(h: History, s: State, e: nat, i: nat, n: nat, draw: Secret)
    requires Shape(h) && Mirrors(h, s, e) && Position(h, i, n) && (i, n) in h.got
    requires i < e && (e - i) % 2 == 1 && (i == e - 1 ==> n < s.nRecv)
    ensures var m := MessageAt(h, i, n);
            var done := Decrypt(s, m, draw);
            && done.Returns?
            && done.result == Err(ReplayError(s, m.header))
            && (done.state == s <==> s.dhRemote == Some(m.header.dh) || DrainRefuses(s, m.header))
  {
    var m := MessageAt(h, i, n);
    NotCached(h, s, e, i, n);
    if i < e - 1 {
      assert h.links[i].secret != h.links[e - 1].secret;
      var drained := DrainOldChain(s, m);
      if drained.Skipped? {
        var turned := RatchetReceiveSide(drained.state, m.header.dh, draw);
        TurnCannotOpen(h, s, e, i, n, DiffieHellman(h.links[e].secret, m.header.dh), n);
        assert Decrypt(s, m, draw) == ReceiveOnChain(turned, m);
      }
    }
  }

  lemma ReplayAt(h: History, p: Party, s: State, inbox: set<Message>, i: nat, n: nat, draw: Secret)
    requires Shape(h) && PartyOk(h, p, s, inbox) && Position(h, i, n) && (i, n) in h.got && Receiver(i) == p
    ensures var m := MessageAt(h, i, n);
            var done := Decrypt(s, m, draw);
            && done.Returns?
            && done.result == Err(ReplayError(s, m.header))
            && (done.state == s <==> s.dhRemote == Some(m.header.dh) || DrainRefuses(s, m.header))
  {
    hide Decrypt, DrainOldChain, Mirrors, InFlightOk;
    ReplayWorks(h, s, Epoch(h, p), i, n, draw);
  }

  /** A message delivered once is never accepted again; delivering it again leaves the
      state as it was exactly when it belongs to the chain being read or the skip limit
      refuses to drain that chain. Otherwise its key is taken for a new one. Each case has
      its own error. */
  lemma ReplayIsNeverAccepted(w: World, p: Party, a: nat, draw: Secret)
    requires Reachable(w) && a < |w.log| && w.log[a].from == Other(p) && w.log[a].message in w.delivered
    ensures var s, m := StateOf(w, p), w.log[a].message;
            var done := Decrypt(s, m, draw);
            && done.Returns?
            && done.result == Err(ReplayError(s, m.header))
            && (done.state == s <==> s.dhRemote == Some(m.header.dh) || DrainRefuses(s, m.header))
  {
    hide Decrypt, DrainOldChain, PartyOk, DeliveredOk, Reachable;
    var h := ReachableHolds(w);
    PartyIsOk(w, h, p);
    assert Logged(h, w.log[a], h.places[a]);
    var (i, n) := h.places[a];
    NotDelivered(h, w.delivered, i, n);
    ReplayAt(h, p, StateOf(w, p), Inbox(w, p), i, n, draw);
  }

  /** A ciphertext of the session under another header than its own is never opened. */
  lemma TamperedIsRefused(w: World, p: Party, a: nat, m: Message, draw: Secret)
    requires Reachable(w) && a < |w.log| && m.ciphertext == w.log[a].message.ciphertext
    requires m.header != w.log[a].message.header
    ensures var done := Decrypt(StateOf(w, p), m, draw); done.Returns? ==> done.result.Err?
  {
    var h := ReachableHolds(w);
    hide PartyOk, DeliveredOk, Decrypt, Reachable;
    assert Logged(h, w.log[a], h.places[a]);
    OpenedIsAuthentic(StateOf(w, p), m, draw);
  }

  /** A message on the chain being read, forged or not, in any state: within the skip
      limit the keys from the reading position up to it are cached and the chain moves past
      it, whether or not it opens; otherwise nothing changes. */
  lemma KnownChainIsRead(s: State, m: Message, draw: Secret)
    requires s.dhRemote == Some(m.header.dh) && s.chainRecv.Some? && (m.header.dh, m.header.n) !in s.skipped
    ensures var n, chain, e := m.header.n, s.chainRecv.value, Decrypt(s, m, draw);
            && (n < s.nRecv ==> e == Returns(s, Err(Backwards(s.nRecv, n))))
            && (n > s.nRecv + MAX_SKIP ==> e == Returns(s, Err(TooManySkipped(n - s.nRecv))))
            && (s.nRecv <= n <= s.nRecv + MAX_SKIP ==>
                  && (e.Panics? <==> n >= U32_MAX)
                  && (n < U32_MAX ==>
                        && e.state == s.(nRecv := n + 1, chainRecv := Some(Advance(chain, n + 1 - s.nRecv)),
                                         skipped := e.state.skipped)
                        && (forall k: (PublicKey, nat) :: k in e.state.skipped <==>
                              k in s.skipped || (k.0 == m.header.dh && s.nRecv <= k.1 < n))
                        && (forall k: (PublicKey, nat) :: k in e.state.skipped ==>
                              e.state.skipped[k] == if k.0 == m.header.dh && s.nRecv <= k.1 < n
                                then MessageOf(Advance(chain, k.1 - s.nRecv)) else s.skipped[k])
                        && (e.result.Ok? <==>
                              && m.ciphertext.key == MessageOf(Advance(chain, n - s.nRecv))
                              && m.ciphertext.aad == m.header)
                        && (e.result.Err? ==> e.result.error == AuthenticationFailed)))
  {
    var n, chain := m.header.n, s.chainRecv.value;
    if s.nRecv <= n <= s.nRecv + MAX_SKIP { CacheKeysAt(s.skipped, m.header.dh, chain, s.nRecv, n); }
    hide CacheKeys;
  }

  /** A message whose key is cached: the key is gone afterwards, whether or not it opens. */
  lemma CachedKeyIsTaken(s: State, m: Message, draw: Secret)
    requires (m.header.dh, m.header.n) in s.skipped
    ensures var k, e := (m.header.dh, m.header.n), Decrypt(s, m, draw);
            && e.Returns? && e.state == s.(skipped := e.state.skipped) && e.state.skipped == s.skipped - {k}
            && (e.result.Ok? <==> m.ciphertext.key == s.skipped[k] && m.ciphertext.aad == m.header)
            && (e.result.Err? ==> e.result.error == AuthenticationFailed)
  {
    hide DrainOldChain, ReceiveOnChain, RatchetReceiveSide;
  }

  lemma StartIsReachable(sk: Key, spk: Secret)
    ensures Reachable(Start(sk, spk))
  {
    var events: seq<Event> := [];
    assert Run([Start(sk, spk)], events, sk, spk);
  }

  lemma StepReaches(w: World, event: Event, w': World)
    requires Reachable(w) && Step(w, event, w')
    ensures Reachable(w')
  {
    var worlds, events, sk, spk :| Run(worlds, events, sk, spk) && worlds[|worlds| - 1] == w;
    hide Step;
    assert Run(worlds + [w'], events + [event], sk, spk);
  }

  /** `p` sends an empty message and it arrives at once. */
  function Round(w: World, p: Party, draw: Secret): (w': World)
    requires var e := Encrypt(StateOf(w, p), [], draw);
             e.Returns? && e.result.Ok? && Decrypt(StateOf(w, Other(p)), e.result.value, draw + 1).Returns?
  {
    var e := Encrypt(StateOf(w, p), [], draw);
    var d := Decrypt(StateOf(w, Other(p)), e.result.value, draw + 1);
    var sent := WithState(WithState(w, p, e.state), Other(p), d.state);
    sent.(drawn := w.drawn + {draw, draw + 1}, log := w.log + [Sent(p, [], e.result.value)],
          delivered := w.delivered + {e.result.value})
  }

  lemma RoundReaches(w: World, p: Party, draw: Secret)
    requires Reachable(w) && {draw, draw + 1} !! w.drawn && Inbox(w, Other(p)) == {}
    requires var e := Encrypt(StateOf(w, p), [], draw);
             && e.Returns? && e.result.Ok?
             && var d := Decrypt(StateOf(w, Other(p)), e.result.value, draw + 1);
             d.Returns? && d.result.Ok?
    ensures Reachable(Round(w, p, draw))
  {
    hide Reachable, Encrypt, Decrypt;
    var q := Other(p);
    var e := Encrypt(StateOf(w, p), [], draw);
    var m := e.result.value;
    var sent := WithInbox(WithState(w, p, e.state), q, {m})
                 .(drawn := w.drawn + {draw}, log := w.log + [Sent(p, [], m)]);
    assert Step(w, Send(p, [], draw), sent);
    StepReaches(w, Send(p, [], draw), sent);
    var d := Decrypt(StateOf(w, q), m, draw + 1);
    assert StateOf(sent, q) == StateOf(w, q);
    assert w.drawn + {draw, draw + 1} == w.drawn + {draw} + {draw + 1};
    assert {m} - {m} == {};
    assert Step(sent, Deliver(q, m, draw + 1), Round(w, p, draw));
    StepReaches(sent, Deliver(q, m, draw + 1), Round(w, p, draw));
  }

  /** `p` has opened a chain that `q` has not heard of; `r` is the root key before it. */
  predicate Ahead(sp: State, sq: State, r: Key, x: Secret, y: Secret) {
    var dh := DiffieHellman(x, PublicKey(y));
    && sp.rootKey == RootOf(r, dh) && sp.chainSend == Some(ChainOf(r, dh)) && sp.nSend == 0
    && sp.dhSelf == Some(x) && sp.dhRemote == Some(PublicKey(y)) && sp.skipped == map[]
    && (sp.chainRecv.Some? ==> sp.nRecv == sq.nSend)
    && sq.rootKey == r && sq.dhSelf == Some(y) && sq.dhRemote != Some(PublicKey(x)) && sq.skipped == map[]
    && (sq.chainRecv.Some? ==> sq.nRecv == sp.prevChainLen)
  }

  /** The first message of a chain turns the receiver, which is ahead then. */
  lemma RoundTurns(w: World, p: Party, r: Key, x: Secret, y: Secret, draw: Secret)
    requires Reachable(w) && {draw, draw + 1} !! w.drawn && w.toInitiator == w.toResponder == {}
    requires Ahead(StateOf(w, p), StateOf(w, Other(p)), r, x, y) && draw + 1 != y
    ensures var e := Encrypt(StateOf(w, p), [], draw);
            e.Returns? && e.result.Ok? && Decrypt(StateOf(w, Other(p)), e.result.value, draw + 1).Returns?
    ensures var dh := DiffieHellman(x, PublicKey(y));
            var header := Header(PublicKey(x), StateOf(w, p).prevChainLen, 0);
            var w' := Round(w, p, draw);
            && Reachable(w') && w'.toInitiator == w'.toResponder == {} && w'.drawn == w.drawn + {draw, draw + 1}
            && w'.log == w.log + [Sent(p, [], Message(header, Sealed(MessageOf(ChainOf(r, dh)), [], header)))]
            && w'.delivered == w.delivered + {w'.log[|w.log|].message}
            && Ahead(StateOf(w', Other(p)), StateOf(w', p), RootOf(r, dh), draw + 1, x)
            && StateOf(w', p).chainSend == Some(NextOf(ChainOf(r, dh))) && StateOf(w', p).nSend == 1
            && StateOf(w', p).prevChainLen == StateOf(w, p).prevChainLen
            && StateOf(w', Other(p)).chainRecv == Some(NextOf(ChainOf(r, dh))) && StateOf(w', Other(p)).nRecv == 1
            && StateOf(w', Other(p)).prevChainLen == StateOf(w, Other(p)).nSend
  {
    var q := Other(p);
    var e := Encrypt(StateOf(w, p), [], draw);
    assert Decrypt(StateOf(w, q), e.result.value, draw + 1).Returns?;
    RoundReaches(w, p, draw);
  }

  lemma FirstRound() returns (w: World)
    ensures Reachable(w) && w.toInitiator == w.toResponder == {} && w.drawn == {0, 1, 2} && |w.log| == 1
        && w.initiator.nSend == 1
    ensures exists r :: Ahead(w.responder, w.initiator, r, 2, 1)
  {
    w := Start(Agreed(0), 0);
    StartIsReachable(Agreed(0), 0);
    RoundReaches(w, Initiator, 1);
    w := Round(w, Initiator, 1);
    assert Ahead(w.responder, w.initiator, RootOf(Agreed(0), SharedSecret(0, 1)), 2, 1);
  }

  /** Five messages to and fro, each the first of its chain; `chain` is that of
      the third message and `newest` that of the fifth. */
  lemma FiveRounds() returns (w: World, chain: Key, newest: Key)
    ensures Reachable(w) && w.toInitiator == w.toResponder == {} && w.drawn == {0, 1, 2, 3, 4, 5, 6, 7, 8, 9, 10}
    ensures exists r :: Ahead(w.responder, w.initiator, r, 10, 8)
    ensures w.initiator.chainSend == w.responder.chainRecv == Some(NextOf(newest))
    ensures w.initiator.nSend == w.responder.nRecv == w.initiator.prevChainLen == 1
    ensures |w.log| == 5 && w.log[2].from == Initiator && w.log[2].message in w.delivered
    ensures var header := Header(PublicKey(4), 1, 0);
            w.log[2].message == Message(header, Sealed(MessageOf(chain), [], header))
    ensures chain.ChainOf? && chain.ikm == SharedSecret(2, 4) && newest.ChainOf? && newest.ikm == SharedSecret(6, 8)
  {
    hide Encrypt, Decrypt, Reachable, Ahead, Round;
    w := FirstRound();
    var r :| Ahead(w.responder, w.initiator, r, 2, 1);
    RoundTurns(w, Responder, r, 2, 1, 3);
    w, r := Round(w, Responder, 3), RootOf(r, SharedSecret(1, 2));
    RoundTurns(w, Initiator, r, 4, 2, 5);
    w, chain, r := Round(w, Initiator, 5), ChainOf(r, SharedSecret(2, 4)), RootOf(r, SharedSecret(2, 4));
    RoundTurns(w, Responder, r, 6, 4, 7);
    w, r := Round(w, Responder, 7), RootOf(r, SharedSecret(4, 6));
    RoundTurns(w, Initiator, r, 8, 6, 9);
    w, newest := Round(w, Initiator, 9), ChainOf(r, SharedSecret(6, 8));
  }

  lemma OldKeyForNew(s: State, chain: Key, newest: Key)
    requires s.dhSelf == Some(10) && s.dhRemote == Some(PublicKey(8)) && s.skipped == map[]
    requires s.chainRecv == Some(NextOf(newest)) && s.nRecv == 1
    requires chain.ChainOf? && chain.ikm == SharedSecret(2, 4) && newest.ChainOf? && newest.ikm == SharedSecret(6, 8)
    ensures var (h, k) := (Header(PublicKey(4), 1, 0), Header(PublicKey(8), 1, 1));
            var (m, next) := (Message(h, Sealed(MessageOf(chain), [], h)),
                Message(k, Sealed(MessageOf(NextOf(newest)), [], k)));
            var done := Decrypt(s, m, 12);
            && done.Returns? && done.state.dhRemote == Some(PublicKey(4))
            && (var before := Decrypt(s, next, 13); before.Returns? && before.result == Ok([]))
            && (var after := Decrypt(done.state, next, 13); after.Returns? && after.result == Err(AuthenticationFailed))
  {
    var turned := RatchetReceiveSide(s, PublicKey(4), 12);
    assert turned.chainRecv.value.ikm == SharedSecret(4, 10);
    assert RatchetReceiveSide(turned, PublicKey(8), 13).chainRecv.value.ikm == SharedSecret(8, 12);
  }

  /** A replay that does harm: the initiator's second chain comes once more while its
      third is being read. The responder takes the old key for a new one, and cannot
      read the message in flight that it could read before. */
  lemma ReplayLosesAMessage() returns (w: World, a: nat, next: Message)
    ensures Reachable(w) && a < |w.log| && w.log[a].from == Initiator && w.log[a].message in w.delivered
    ensures next in w.toResponder && {12, 13} !! w.drawn
    ensures var done := Decrypt(w.responder, w.log[a].message, 12);
            && done.Returns? && done.state != w.responder
            && (var before := Decrypt(w.responder, next, 13); before.Returns? && before.result == Ok([]))
            && (var after := Decrypt(done.state, next, 13); after.Returns? && after.result == Err(AuthenticationFailed))
  {
    var v, chain, newest := FiveRounds();
    a := 2;
    var e := Encrypt(v.initiator, [], 11);
    next := e.result.value;
    w := v.(initiator := e.state, toResponder := {next}, drawn := v.drawn + {11},
            log := v.log + [Sent(Initiator, [], next)]);
    StepReaches(v, Send(Initiator, [], 11), w);
    OldKeyForNew(w.responder, chain, newest);
  }
}
