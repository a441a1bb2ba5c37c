/**
 One side of a double ratchet session: the state, `encrypt` and `decrypt`.

 The cryptography is symbolic. Keys are terms over free constructors, a
 Diffie-Hellman output is the unordered pair of the two secrets, and opening a
 ciphertext succeeds exactly for the key and header it was sealed with.
 */
module Ratchet {
  import opened Wrappers

  const MAX_SKIP: nat := 100

  /** A private key; `PublicKey(s)` is its public half. */
  type Secret = nat
  datatype PublicKey = PublicKey(secret: Secret)
  datatype SharedSecret = SharedSecret(low: Secret, high: Secret)

  datatype Key =
    | Agreed(session: nat)
    | RootOf(salt: Key, ikm: SharedSecret)
    | ChainOf(salt: Key, ikm: SharedSecret)
    | MessageOf(chain: Key)
    | NextOf(chain: Key)

  datatype Header = Header(dh: PublicKey, prevChainLen: nat, n: nat)
  datatype Ciphertext = Sealed(key: Key, plaintext: Bytes, aad: Header)
  datatype Message = Message(header: Header, ciphertext: Ciphertext)

  datatype RatchetError =
    | Backwards(from: nat, until: nat)
    | TooManySkipped(gap: nat)
    | AuthenticationFailed

  /** What a call does: it returns, leaving a new state, or it panics. */
  datatype Effect<T> =
    | Returns(state: State, result: Result<T, RatchetError>)
    | Panics

  /** The fields of one party. */
  datatype State = State(
    rootKey: Key,
    dhSelf: Option<Secret>,
    dhRemote: Option<PublicKey>,
    chainSend: Option<Key>,
    chainRecv: Option<Key>,
    nSend: nat,
    nRecv: nat,
    prevChainLen: nat,
    skipped: map<(PublicKey, nat), Key>)

  function DiffieHellman(own: Secret, remote: PublicKey): SharedSecret {
    if own <= remote.secret then SharedSecret(own, remote.secret) else SharedSecret(remote.secret, own)
  }

  function Open(key: Key, ciphertext: Ciphertext, aad: Header): Result<Bytes, RatchetError> {
    if ciphertext.key == key && ciphertext.aad == aad then Ok(ciphertext.plaintext) else Err(AuthenticationFailed)
  }

  /** The chain key `steps` links further down the chain. */
  function Advance(chain: Key, steps: nat): Key {
    if steps == 0 then chain else NextOf(Advance(chain, steps - 1))
  }

  function InitInitiator(sk: Key, remote: PublicKey): State {
    State(sk, None, Some(remote), None, None, 0, 0, 0, map[])
  }

  function InitResponder(sk: Key, spk: Secret): State {
    State(sk, Some(spk), None, None, None, 0, 0, 0, map[])
  }

  // ---------------------------------------------------------------- encrypt

  /** A fresh key pair and the sending chain it opens towards `remote`. */
  function OpenSendingChain(s: State, remote: PublicKey, draw: Secret): State {
    var dh := DiffieHellman(draw, remote);
    s.(rootKey := RootOf(s.rootKey, dh), dhSelf := Some(draw), prevChainLen := s.nSend,
       chainSend := Some(ChainOf(s.rootKey, dh)), nSend := 0)
  }

  function Encrypt(s: State, plaintext: Bytes, draw: Secret): Effect<Message> {
    if s.chainSend.None? && s.dhRemote.None? then Panics
    else
      var t := if s.chainSend.None? then OpenSendingChain(s, s.dhRemote.value, draw) else s;
      if t.nSend == U32_MAX || t.dhSelf.None? then Panics
      else
        var header := Header(PublicKey(t.dhSelf.value), t.prevChainLen, t.nSend);
        Returns(t.(chainSend := Some(NextOf(t.chainSend.value)), nSend := t.nSend + 1),
                Ok(Message(header, Sealed(MessageOf(t.chainSend.value), plaintext, header))))
  }

  // ---------------------------------------------------------------- decrypt

  /** `cache` with the message keys `from .. until` of the chain whose key at `from` is `chain`. */
  function CacheKeys(cache: map<(PublicKey, nat), Key>, remote: PublicKey, chain: Key, from: nat, until: nat)
    : map<(PublicKey, nat), Key>
    requires from <= until
    decreases until
  {
    if from == until then cache
    else
      CacheKeys(cache, remote, chain, from, until - 1)[
        (remote, until - 1) := MessageOf(Advance(chain, until - 1 - from))]
  }

  datatype Skip = Skipped(state: State, chain: Key) | Refused(error: RatchetError)

  function SkipTo(s: State, remote: PublicKey, chain: Key, until: nat): Skip {
    if until < s.nRecv then Refused(Backwards(s.nRecv, until))
    else if until - s.nRecv > MAX_SKIP then Refused(TooManySkipped(until - s.nRecv))
    else Skipped(s.(skipped := CacheKeys(s.skipped, remote, chain, s.nRecv, until), nRecv := until),
                 Advance(chain, until - s.nRecv))
  }

  /** The peer's new chain, agreed with the old key pair, then a new chain of our own. */
  function RatchetReceiveSide(s: State, remote: PublicKey, draw: Secret): State
    requires s.dhSelf.Some?
  {
    var dh := DiffieHellman(s.dhSelf.value, remote);
    OpenSendingChain(s.(dhRemote := Some(remote), rootKey := RootOf(s.rootKey, dh),
                        chainRecv := Some(ChainOf(s.rootKey, dh)), nRecv := 0),
                     remote, draw)
  }

  /** Take the key of message `n` from the current receiving chain and open with it. */
  function ReceiveOnChain(s: State, m: Message): Effect<Bytes> {
    if s.dhRemote.None? || s.chainRecv.None? then Panics
    else
      match SkipTo(s, s.dhRemote.value, s.chainRecv.value, m.header.n)
      case Refused(error) => Returns(s, Err(error))
      case Skipped(t, chain) =>
        if m.header.n >= U32_MAX then Panics
        else Returns(t.(chainRecv := Some(NextOf(chain)), nRecv := m.header.n + 1),
                     Open(MessageOf(chain), m.ciphertext, m.header))
  }

  /** Drain the chain the peer has left, if there was one. */
  function DrainOldChain(s: State, m: Message): Skip {
    if s.dhRemote.Some? && s.chainRecv.Some?
    then SkipTo(s, s.dhRemote.value, s.chainRecv.value, m.header.prevChainLen)
    else Skipped(s, s.rootKey)
  }

  function Decrypt(s: State, m: Message, draw: Secret): Effect<Bytes> {
    var k := (m.header.dh, m.header.n);
    if k in s.skipped then
      Returns(s.(skipped := s.skipped - {k}), Open(s.skipped[k], m.ciphertext, m.header))
    else if s.dhRemote == Some(m.header.dh) then
      ReceiveOnChain(s, m)
    else
      match DrainOldChain(s, m)
      case Refused(error) => Returns(s, Err(error))
      case Skipped(t, _) =>
        if t.dhSelf.None? then Panics
        else ReceiveOnChain(RatchetReceiveSide(t, m.header.dh, draw), m)
  }

  // ------------------------------------------------- the imperative session

  class RatchetState {
    var rootKey: Key
    var dhSelf: Option<Secret>
    var dhRemote: Option<PublicKey>
    var chainSend: Option<Key>
    var chainRecv: Option<Key>
    var nSend: nat
    var nRecv: nat
    var prevChainLen: nat
    var skipped: map<(PublicKey, nat), Key>

    function View(): State
      reads this
    {
      State(rootKey, dhSelf, dhRemote, chainSend, chainRecv, nSend, nRecv, prevChainLen, skipped)
    }

    constructor Initiator(sk: Key, remote: PublicKey)
      ensures View() == InitInitiator(sk, remote)
    {
      rootKey, dhSelf, dhRemote, chainSend, chainRecv := sk, None, Some(remote), None, None;
      nSend, nRecv, prevChainLen, skipped := 0, 0, 0, map[];
    }

    constructor Responder(sk: Key, spk: Secret)
      ensures View() == InitResponder(sk, spk)
    {
      rootKey, dhSelf, dhRemote, chainSend, chainRecv := sk, Some(spk), None, None, None;
      nSend, nRecv, prevChainLen, skipped := 0, 0, 0, map[];
    }

    method DhRatchetSendSide(remote: PublicKey, draw: Secret)
      modifies this
      ensures View() == OpenSendingChain(old(View()), remote, draw)
    {
      var dh := DiffieHellman(draw, remote);
      chainSend := Some(ChainOf(rootKey, dh));
      rootKey := RootOf(rootKey, dh);
      dhSelf := Some(draw);
      prevChainLen := nSend;
      nSend := 0;
    }

    /** None is a panic. */
    method EncryptMessage(plaintext: Bytes, draw: Secret) returns (message: Option<Message>)
      modifies this
      ensures message.None? <==> Encrypt(old(View()), plaintext, draw).Panics?
      ensures message.Some? ==> Encrypt(old(View()), plaintext, draw) == Returns(View(), Ok(message.value))
    {
      if chainSend.None? {
        if dhRemote.None? { return None; }
        DhRatchetSendSide(dhRemote.value, draw);
      }
      var ck := chainSend.value;
      var mk := MessageOf(ck);
      chainSend := Some(NextOf(ck));
      var n := nSend;
      if nSend == U32_MAX || dhSelf.None? { return None; }
      nSend := nSend + 1;
      var header := Header(PublicKey(dhSelf.value), prevChainLen, n);
      return Some(Message(header, Sealed(mk, plaintext, header)));
    }

    method DhRatchetRecvSide(remote: PublicKey, draw: Secret)
      requires dhSelf.Some?
      modifies this
      ensures View() == RatchetReceiveSide(old(View()), remote, draw)
    {
      var oldSecret := dhSelf.value;
      dhRemote := Some(remote);
      var dh := DiffieHellman(oldSecret, remote);
      chainRecv := Some(ChainOf(rootKey, dh));
      rootKey := RootOf(rootKey, dh);
      nRecv := 0;
      DhRatchetSendSide(remote, draw);
    }

    method SkipForward(remote: PublicKey, chain: Key, until: nat) returns (r: Result<Key, RatchetError>)
      modifies this
      ensures match SkipTo(old(View()), remote, chain, until)
              case Refused(e) => View() == old(View()) && r == Err(e)
              case Skipped(t, ck) => View() == t && r == Ok(ck)
    {
      var from := nRecv;
      if until < from { return Err(Backwards(from, until)); }
      if until - from > MAX_SKIP { return Err(TooManySkipped(until - from)); }
      var ck := chain;
      for n := from to until
        invariant ck == Advance(chain, n - from)
        invariant skipped == CacheKeys(old(skipped), remote, chain, from, n)
        invariant View() == old(View()).(skipped := skipped)
      {
        skipped := skipped[(remote, n) := MessageOf(ck)];
        ck := NextOf(ck);
      }
      nRecv := until;
      return Ok(ck);
    }

    /** None is a panic. */
    method DecryptMessage(m: Message, draw: Secret) returns (r: Option<Result<Bytes, RatchetError>>)
      modifies this
      ensures r.None? <==> Decrypt(old(View()), m, draw).Panics?
      ensures r.Some? ==> Decrypt(old(View()), m, draw) == Returns(View(), r.value)
    {
      var k := (m.header.dh, m.header.n);
      if k in skipped {
        var mk := skipped[k];
        skipped := skipped - {k};
        return Some(Open(mk, m.ciphertext, m.header));
      }
      if dhRemote != Some(m.header.dh) {
        if dhRemote.Some? && chainRecv.Some? {
          var drained := SkipForward(dhRemote.value, chainRecv.value, m.header.prevChainLen);
          if drained.Err? { return Some(Err(drained.error)); }
        }
        if dhSelf.None? { return None; }
        DhRatchetRecvSide(m.header.dh, draw);
      }
      if dhRemote.None? || chainRecv.None? { return None; }
      var chain := SkipForward(dhRemote.value, chainRecv.value, m.header.n);
      if chain.Err? { return Some(Err(chain.error)); }
      if m.header.n >= U32_MAX { return None; }
      chainRecv := Some(NextOf(chain.value));
      nRecv := m.header.n + 1;
      return Some(Open(MessageOf(chain.value), m.ciphertext, m.header));
    }
  }

  // ------------------------------------------------------------ memory bound

  lemma {:induction false} CacheKeysSize(cache: map<(PublicKey, nat), Key>, remote: PublicKey, chain: Key, from: nat,
      until: nat)
    requires from <= until
    ensures |CacheKeys(cache, remote, chain, from, until)| <= |cache| + (until - from)
    decreases until
  {
    if from < until {
      CacheKeysSize(cache, remote, chain, from, until - 1);
      var before := CacheKeys(cache, remote, chain, from, until - 1);
      assert CacheKeys(cache, remote, chain, from, until).Keys == before.Keys + {(remote, until - 1)};
    }
  }

  lemma SkipToAddsAtMost(s: State, remote: PublicKey, chain: Key, until: nat)
    ensures var r := SkipTo(s, remote, chain, until);
            r.Skipped? ==> |r.state.skipped| <= |s.skipped| + MAX_SKIP
  {
    if SkipTo(s, remote, chain, until).Skipped? {
      CacheKeysSize(s.skipped, remote, chain, s.nRecv, until);
    }
  }

  /** Whatever the peer sends, one `decrypt` caches at most two chains' worth of keys. */
  lemma DecryptCachesBoundedly(s: State, m: Message, draw: Secret)
    ensures var e := Decrypt(s, m, draw);
            e.Returns? ==> |e.state.skipped| <= |s.skipped| + 2 * MAX_SKIP
  {
    var k := (m.header.dh, m.header.n);
    if k in s.skipped {
      assert (s.skipped - {k}).Keys == s.skipped.Keys - {k};
    } else if s.dhRemote == Some(m.header.dh) {
      if s.chainRecv.Some? { SkipToAddsAtMost(s, s.dhRemote.value, s.chainRecv.value, m.header.n); }
    } else {
      if s.dhRemote.Some? && s.chainRecv.Some? {
        SkipToAddsAtMost(s, s.dhRemote.value, s.chainRecv.value, m.header.prevChainLen);
      }
      var d := DrainOldChain(s, m);
      if d.Skipped? && d.state.dhSelf.Some? {
        var t := RatchetReceiveSide(d.state, m.header.dh, draw);
        SkipToAddsAtMost(t, t.dhRemote.value, t.chainRecv.value, m.header.n);
      }
    }
  }

  // ---------------------------------------------------------- authentication

  /** Whatever is opened, in any state, was sealed as it is, under this very header. */
  lemma OpenedIsAuthentic(s: State, m: Message, draw: Secret)
    ensures var e := Decrypt(s, m, draw);
            e.Returns? && e.result.Ok? ==>
              m.ciphertext.aad == m.header && e.result.value == m.ciphertext.plaintext
  {
    hide SkipTo, OpenSendingChain;
  }
}
