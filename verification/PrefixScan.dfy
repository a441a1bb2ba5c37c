/** The key range that a prefix scan reads, and when it is the prefix itself. */
module PrefixScan {
  import opened Wrappers
  import opened ByteOrder

  /** Add one to the last byte, carrying to the left; a carry zeroes the byte. */
  function Increment(prefix: Bytes): (Bytes, bool) {
    if prefix == [] then ([], true)
    else
      var front, last := prefix[..|prefix| - 1], prefix[|prefix| - 1];
      if last == 255 then (Increment(front).0 + [0], Increment(front).1)
      else (front + [last + 1], false)
  }

  lemma {:induction false} IncrementLength(prefix: Bytes)
    ensures |Increment(prefix).0| == |prefix|
  {
    if prefix != [] { IncrementLength(prefix[..|prefix| - 1]); }
  }

  /** The upper bound of the range: none when the carry runs off the front. */
  function Upper(prefix: Bytes): Option<Bytes> {
    if Increment(prefix).1 then None else Some(Increment(prefix).0)
  }

  method UpperBound(prefix: Bytes) returns (upper: Option<Bytes>)
    ensures upper == Upper(prefix)
  {
    var bytes := prefix;
    var carry := true;
    var i := |prefix|;
    assert prefix[..i] == prefix && Increment(prefix).0 + bytes[i..] == Increment(prefix).0;
    while i > 0
      invariant 0 <= i <= |prefix| == |bytes| && carry
      invariant bytes[..i] == prefix[..i]
      invariant Increment(prefix) == (Increment(prefix[..i]).0 + bytes[i..], Increment(prefix[..i]).1)
      decreases i
    {
      i := i - 1;
      var front := prefix[..i + 1];
      assert front[..i] == prefix[..i] && front[i] == bytes[i];
      IncrementLength(prefix[..i]);
      if bytes[i] == 255 {
        bytes := bytes[i := 0];
        assert Increment(front) == (Increment(prefix[..i]).0 + [0], Increment(prefix[..i]).1);
        assert (Increment(prefix[..i]).0 + [0]) + bytes[i + 1..] == Increment(prefix[..i]).0 + bytes[i..];
      } else {
        bytes := bytes[i := bytes[i] + 1];
        assert Increment(prefix).0 == (prefix[..i] + [bytes[i]]) + bytes[i + 1..] == bytes;
        return Some(bytes);
      }
    }
    return None;
  }

  predicate InRange(key: Bytes, prefix: Bytes) {
    AtMost(prefix, key) && (Upper(prefix).None? || Less(key, Upper(prefix).value))
  }

  predicate Agree(a: Bytes, b: Bytes, n: nat) {
    n <= |a| && n <= |b| && forall j :: 0 <= j < n ==> a[j] == b[j]
  }

  predicate FilledFrom(b: Bytes, i: nat, v: byte) {
    forall j :: i <= j < |b| ==> b[j] == v
  }

  predicate AllFF(b: Bytes) {
    FilledFrom(b, 0, 255)
  }

  /** The prefixes for which the range is exact: empty, all 0xFF, or not ending in 0xFF. */
  predicate Exact(prefix: Bytes) {
    AllFF(prefix) || prefix[|prefix| - 1] != 255
  }

  /** `up` is `prefix` with byte `i` grown by one and zeroes after it, where
      only 0xFFs stand after byte `i` in the prefix. */
  predicate Raises(prefix: Bytes, up: Bytes, i: nat) {
    && i < |prefix| && prefix[i] != 255 && FilledFrom(prefix, i + 1, 255)
    && i < |up| && Agree(prefix, up, i) && up[i] as int == prefix[i] as int + 1 && FilledFrom(up, i + 1, 0)
  }

  /** A key the range takes in by mistake: raised like the bound, but with fewer zeroes. */
  predicate Stray(key: Bytes, prefix: Bytes) {
    |key| < |prefix| && exists i :: 0 <= i < |prefix| && Raises(prefix, key, i)
  }

  // ---------------------------------------------------- what the range holds

  /** The first place where two strings part. */
  function Fork(a: Bytes, b: Bytes): (i: nat)
    ensures Agree(a, b, i)
    ensures i < |a| && i < |b| ==> a[i] != b[i]
  {
    if a == [] || b == [] || a[0] != b[0] then 0 else Fork(a[1..], b[1..]) + 1
  }

  lemma ForkIs(a: Bytes, b: Bytes, i: nat)
    requires Agree(a, b, i) && (i == |a| || i == |b| || a[i] != b[i])
    ensures Fork(a, b) == i
  {}

  /** Order is decided where the strings part. */
  lemma {:induction false} OrderAtFork(a: Bytes, b: Bytes)
    ensures var i := Fork(a, b); Less(a, b) <==> i < |b| && (i == |a| || a[i] < b[i])
  {
    if a != [] && b != [] && a[0] == b[0] { OrderAtFork(a[1..], b[1..]); }
  }

  lemma AtMostAtFork(prefix: Bytes, key: Bytes)
    ensures AtMost(prefix, key) <==> var i := Fork(prefix, key); i == |prefix| || (i < |key| && prefix[i] < key[i])
    ensures prefix <= key <==> Fork(prefix, key) == |prefix|
  {
    OrderAtFork(prefix, key);
    if prefix <= key { ForkIs(prefix, key, |prefix|); }
    if Fork(prefix, key) == |prefix| {
      assert forall j :: 0 <= j < |prefix| ==> prefix[j] == key[j];
    }
  }

  lemma {:induction false} IncrementShape(prefix: Bytes)
    ensures |Increment(prefix).0| == |prefix|
    ensures Increment(prefix).1 <==> AllFF(prefix)
    ensures !Increment(prefix).1 ==> exists i :: 0 <= i < |prefix| && Raises(prefix, Increment(prefix).0, i)
  {
    if prefix != [] {
      var n := |prefix| - 1;
      var front := prefix[..n];
      IncrementShape(front);
      if prefix[n] != 255 {
        assert Raises(prefix, Increment(prefix).0, n);
      } else if !Increment(front).1 {
        var i :| 0 <= i < |front| && Raises(front, Increment(front).0, i);
        assert Raises(prefix, Increment(prefix).0, i);
      } else {
        assert forall j :: 0 <= j < n ==> prefix[j] == front[j];
      }
    }
  }

  lemma BelowTheBound(key: Bytes, prefix: Bytes, up: Bytes, i: nat)
    requires Raises(prefix, up, i) && |up| == |prefix|
    ensures AtMost(prefix, key) && Less(key, up) <==> prefix <= key || Stray(key, prefix)
  {
    var f, g := Fork(prefix, key), Fork(key, up);
    AtMostAtFork(prefix, key);
    OrderAtFork(key, up);
    if prefix <= key {
      ForkIs(key, up, i);
    } else if AtMost(prefix, key) && Less(key, up) {
      assert f < |prefix| && f < |key| && prefix[f] < key[f] && f <= i;
      if f == i && key[i] == up[i] {
        assert g > i;
        assert Raises(prefix, key, i);
      }
    }
  }

  /** The range holds the keys with the prefix and the stray ones, and nothing else. */
  lemma RangeIsPrefixOrStray(key: Bytes, prefix: Bytes)
    ensures InRange(key, prefix) <==> prefix <= key || Stray(key, prefix)
  {
    IncrementShape(prefix);
    AtMostAtFork(prefix, key);
    if AllFF(prefix) {
      assert !Stray(key, prefix);
    } else {
      var i :| 0 <= i < |prefix| && Raises(prefix, Increment(prefix).0, i);
      BelowTheBound(key, prefix, Increment(prefix).0, i);
    }
  }

  /** Whatever the keys, the range is the prefix exactly for the prefixes `Exact` names. */
  lemma RangeIsExactIff(prefix: Bytes)
    ensures (forall key :: InRange(key, prefix) <==> prefix <= key) <==> Exact(prefix)
  {
    forall key ensures InRange(key, prefix) <==> prefix <= key || Stray(key, prefix) {
      RangeIsPrefixOrStray(key, prefix);
    }
    if !Exact(prefix) {
      IncrementShape(prefix);
      var i :| 0 <= i < |prefix| && Raises(prefix, Increment(prefix).0, i);
      var key := prefix[..i] + [prefix[i] + 1];
      assert Raises(prefix, key, i);
      assert Stray(key, prefix) && InRange(key, prefix);
    }
  }
}
