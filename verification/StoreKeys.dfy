/** The key layout of the local message store. */
module StoreKeys {
  import opened Wrappers
  import opened Decimal
  import opened PrefixScan
  import ByteOrder

  const SLASH: byte := 47
  const PREFIX_MESSAGE: Bytes := [109, 47] // "m/"
  const PREFIX_PENDING: Bytes := [112, 47] // "p/"
  const KEY_SYNC_CURSOR: Bytes := [99, 47, 115, 121, 110, 99, 95, 99, 117, 114, 115, 111, 114] // "c/sync_cursor"
  const KEY_CLIENT_SEQ: Bytes := [99, 47, 99, 108, 105, 101, 110, 116, 95, 115, 101, 113] // "c/client_seq"
  const ID_DIGITS: nat := 20

  datatype Key = MessageOf(peer: u64, id: u64) | PendingOf(id: u64) | SyncCursor | ClientSeq

  function HistoryPrefix(peer: u64): Bytes {
    PREFIX_MESSAGE + Pad(peer, 1) + [SLASH]
  }

  function KeyBytes(key: Key): Bytes {
    match key
    case MessageOf(peer, id) => HistoryPrefix(peer) + Pad(id, ID_DIGITS)
    case PendingOf(id) => PREFIX_PENDING + Pad(id, ID_DIGITS)
    case SyncCursor => KEY_SYNC_CURSOR
    case ClientSeq => KEY_CLIENT_SEQ
  }

  /** "m/7/" and twenty digits, "p/" and twenty digits. */
  lemma KeyLayout(id: u64)
    ensures KeyBytes(MessageOf(7, id)) == [109, 47, 55, 47] + Pad(id, ID_DIGITS)
    ensures KeyBytes(PendingOf(id)) == [112, 47] + Pad(id, ID_DIGITS)
  {
    assert Digits(7, 1) == [55] by { assert Digits(0, 0) == []; }
    assert Pad(7, 1) == [55];
    hide Pad, Digits;
  }

  lemma {:induction false} Pow10Adds(a: nat, b: nat)
    ensures Pow10(a + b) == Pow10(a) * Pow10(b)
    decreases b
  {
    if b > 0 {
      Pow10Adds(a, b - 1);
      assert Pow10(a + b) == 10 * Pow10(a + b - 1);
      assert Pow10(a) * (10 * Pow10(b - 1)) == 10 * (Pow10(a) * Pow10(b - 1));
    }
  }

  lemma IdsFit()
    ensures U64_MAX < Pow10(ID_DIGITS)
  {
    assert Pow10(5) == 100000;
    Pow10Adds(5, 5);
    Pow10Adds(10, 10);
  }

  /** An id is written in exactly twenty digits. */
  lemma IdDigits(id: u64)
    ensures Pad(id, ID_DIGITS) == Digits(id, ID_DIGITS) && |Pad(id, ID_DIGITS)| == ID_DIGITS
  {
    IdsFit();
    LengthFits(id, ID_DIGITS);
  }

  lemma NumberHasNoSlash(n: nat, w: nat)
    ensures SLASH !in Pad(n, w) && Value(Pad(n, w)) == n && |Pad(n, w)| >= 1
  {
    PadReads(n, w);
  }

  /** Text up to the first slash is determined by what it starts. */
  lemma FirstSlash(a: Bytes, b: Bytes, rest: Bytes)
    requires SLASH !in a && SLASH !in b && a + [SLASH] <= b + [SLASH] + rest
    ensures a == b
  {
    var long := b + [SLASH] + rest;
    assert (a + [SLASH])[|a|] == SLASH == long[|a|];
    assert long[|b|] == SLASH;
    assert forall i :: 0 <= i < |a| ==> a[i] == (a + [SLASH])[i] == long[i] == b[i];
  }

  lemma SamePrefix(x: Bytes, a: Bytes, b: Bytes)
    ensures x + a <= x + b <==> a <= b
  {
    assert (x + a)[|x|..] == a && (x + b)[|x|..] == b;
    if x + a <= x + b {
      assert (x + b)[..|x + a|] == x + a;
      assert b[..|a|] == (x + b)[|x|..|x + a|] == (x + a)[|x|..];
    }
    if a <= b { assert (x + b)[..|x + a|] == x + b[..|a|]; }
  }

  lemma PeerCaptures(peer: u64, other: u64, rest: Bytes)
    ensures HistoryPrefix(peer) <= HistoryPrefix(other) + rest <==> peer == other
  {
    hide Pad, Value;
    NumberHasNoSlash(peer, 1);
    NumberHasNoSlash(other, 1);
    var a, b := Pad(peer, 1), Pad(other, 1);
    assert HistoryPrefix(peer) == PREFIX_MESSAGE + (a + [SLASH]);
    assert HistoryPrefix(other) + rest == PREFIX_MESSAGE + (b + [SLASH] + rest);
    SamePrefix(PREFIX_MESSAGE, a + [SLASH], b + [SLASH] + rest);
    if HistoryPrefix(peer) <= HistoryPrefix(other) + rest {
      FirstSlash(a, b, rest);
    }
  }

  /** No peer's prefix captures another peer's keys, nor any other key. */
  lemma PrefixCaptures(peer: u64, key: Key)
    ensures HistoryPrefix(peer) <= KeyBytes(key) <==> key.MessageOf? && key.peer == peer
  {
    hide Pad;
    if key.MessageOf? {
      PeerCaptures(peer, key.peer, Pad(key.id, ID_DIGITS));
    } else {
      assert HistoryPrefix(peer)[0] == 109;
    }
  }

  lemma PendingCaptures(key: Key)
    ensures PREFIX_PENDING <= KeyBytes(key) <==> key.PendingOf?
  {
    hide Pad;
    if !key.PendingOf? { assert KeyBytes(key)[0] != 112; }
  }

  /** Distinct keys have distinct bytes. */
  lemma KeysDiffer(a: Key, b: Key)
    requires KeyBytes(a) == KeyBytes(b)
    ensures a == b
  {
    hide Pad, Value;
    if a.MessageOf? {
      PrefixCaptures(a.peer, b);
      NumberHasNoSlash(a.id, ID_DIGITS);
      NumberHasNoSlash(b.id, ID_DIGITS);
      var n := |HistoryPrefix(a.peer)|;
      assert KeyBytes(a)[n..] == Pad(a.id, ID_DIGITS) && KeyBytes(b)[n..] == Pad(b.id, ID_DIGITS);
    } else if a.PendingOf? {
      PendingCaptures(b);
      NumberHasNoSlash(a.id, ID_DIGITS);
      NumberHasNoSlash(b.id, ID_DIGITS);
      assert KeyBytes(a)[2..] == Pad(a.id, ID_DIGITS) && KeyBytes(b)[2..] == Pad(b.id, ID_DIGITS);
    } else {
      assert KeyBytes(a)[0] == 99;
    }
  }

  /** Keys of one table sort as bytes like their ids sort as numbers. */
  lemma KeysKeepOrder(peer: u64, i: u64, j: u64)
    ensures ByteOrder.Less(KeyBytes(MessageOf(peer, i)), KeyBytes(MessageOf(peer, j))) <==> i < j
    ensures ByteOrder.Less(KeyBytes(PendingOf(i)), KeyBytes(PendingOf(j))) <==> i < j
  {
    hide ByteOrder.Less, Pad, Digits, Pow10;
    IdsFit();
    IdDigits(i);
    IdDigits(j);
    DigitsKeepOrder(i, j, ID_DIGITS);
    ByteOrder.LessUnderPrefix(HistoryPrefix(peer), Pad(i, ID_DIGITS), Pad(j, ID_DIGITS));
    ByteOrder.LessUnderPrefix(PREFIX_PENDING, Pad(i, ID_DIGITS), Pad(j, ID_DIGITS));
  }

  /** Every prefix the store scans ends in a slash, so its scan is exact. */
  lemma PrefixesAreExact(peer: u64)
    ensures Exact(HistoryPrefix(peer)) && Exact(PREFIX_PENDING)
  {
    assert HistoryPrefix(peer)[|HistoryPrefix(peer)| - 1] == SLASH;
  }

  lemma PeerIsShort(peer: u64)
    ensures |Pad(peer, 1)| <= 20
  {
    hide Digits;
    IdsFit();
    LengthFits(peer, ID_DIGITS);
  }

  lemma KeysAreShort(key: Key)
    ensures |KeyBytes(key)| <= 43
  {
    hide Pad, Pow10;
    match key
    case MessageOf(peer, id) =>
      IdDigits(id);
      PeerIsShort(peer);
    case PendingOf(id) => IdDigits(id);
    case _ =>
  }

  // --------------------------------------------------------------- fixed-width values

  /** `to_be_bytes` of a number below `256^width`. */
  function BigEndian(n: nat, width: nat): (b: Bytes)
    ensures |b| == width
  {
    if width == 0 then [] else BigEndian(n / 256, width - 1) + [n % 256]
  }

  function FromBigEndian(b: Bytes): nat {
    if b == [] then 0 else
      var low: nat := b[|b| - 1];
      256 * FromBigEndian(b[..|b| - 1]) + low
  }

  function Pow256(k: nat): nat {
    if k == 0 then 1 else 256 * Pow256(k - 1)
  }

  lemma {:induction false} BigEndianRoundTrip(n: nat, width: nat)
    requires n < Pow256(width)
    ensures FromBigEndian(BigEndian(n, width)) == n
    decreases width
  {
    if width > 0 {
      BigEndianRoundTrip(n / 256, width - 1);
      assert BigEndian(n, width)[..width - 1] == BigEndian(n / 256, width - 1);
    }
  }

  function EncodeU64Value(n: u64): Bytes {
    BigEndian(n, 8)
  }

  lemma U64ValueRoundTrip(n: u64)
    ensures FromBigEndian(EncodeU64Value(n)) == n && EncodeU64Value(n)[7] == n % 256
  {
    assert Pow256(4) == 0x1_0000_0000;
    assert Pow256(8) == 0x1_0000_0000_0000_0000;
    BigEndianRoundTrip(n, 8);
  }
}
