/** Byte strings in lexicographic order, as an ordered map iterates them. */
module ByteOrder {
  import opened Wrappers

  predicate Less(a: Bytes, b: Bytes) {
    b != [] && (a == [] || a[0] < b[0] || (a[0] == b[0] && Less(a[1..], b[1..])))
  }

  predicate AtMost(a: Bytes, b: Bytes) {
    a == b || Less(a, b)
  }

  lemma {:induction false} LessIsStrict(a: Bytes)
    ensures !Less(a, a)
  {
    if a != [] { LessIsStrict(a[1..]); }
  }

  lemma {:induction false} LessIsTotal(a: Bytes, b: Bytes)
    ensures a == b || Less(a, b) || Less(b, a)
  {
    if a != [] && b != [] && a[0] == b[0] {
      LessIsTotal(a[1..], b[1..]);
      assert a[1..] == b[1..] ==> a == [a[0]] + a[1..] == b;
    }
  }

  lemma {:induction false} LessIsTransitive(a: Bytes, b: Bytes, c: Bytes)
    requires Less(a, b) && Less(b, c)
    ensures Less(a, c)
  {
    if a != [] && a[0] == b[0] == c[0] { LessIsTransitive(a[1..], b[1..], c[1..]); }
  }

  ghost predicate Ascending(keys: seq<Bytes>) {
    forall i, j :: 0 <= i < j < |keys| ==> Less(keys[i], keys[j])
  }

  /** The least key of a non-empty set. */
  ghost predicate IsLeast(k: Bytes, keys: set<Bytes>) {
    k in keys && forall m :: m in keys ==> AtMost(k, m)
  }

  method Least(keys: set<Bytes>) returns (k: Bytes)
    requires keys != {}
    ensures IsLeast(k, keys)
  {
    k :| k in keys;
    var rest := keys - {k};
    while rest != {}
      invariant rest <= keys && k in keys
      invariant forall m :: m in keys && m !in rest ==> AtMost(k, m)
      decreases |rest|
    {
      var m :| m in rest;
      LessIsTotal(k, m);
      if Less(m, k) {
        forall x | x in keys && x !in rest ensures AtMost(m, x) {
          if k != x { LessIsTransitive(m, k, x); }
        }
        k := m;
      }
      rest := rest - {m};
    }
  }

  /** The keys of an ordered map, in its iteration order. */
  method Sort(keys: set<Bytes>) returns (sorted: seq<Bytes>)
    ensures Ascending(sorted) && (forall k :: k in sorted <==> k in keys)
  {
    sorted := [];
    var rest := keys;
    while rest != {}
      invariant rest <= keys && Ascending(sorted)
      invariant forall k :: k in sorted <==> k in keys && k !in rest
      invariant forall k, m :: k in sorted && m in rest ==> Less(k, m)
      decreases |rest|
    {
      var k := Least(rest);
      forall m | m in rest && m != k ensures Less(k, m) {}
      sorted := sorted + [k];
      rest := rest - {k};
    }
  }

  lemma HasFirst(a: seq<Bytes>)
    requires a != []
    ensures exists k :: k in a
  {
    assert a[0] in a;
  }

  lemma Rest(a: seq<Bytes>, k: Bytes)
    requires Ascending(a) && a != []
    ensures k in a[1..] <==> k in a && k != a[0]
  {
    LessIsStrict(a[0]);
    assert a == [a[0]] + a[1..];
  }

  /** A set of keys has only one ascending listing. */
  lemma {:induction false} AscendingIsUnique(a: seq<Bytes>, b: seq<Bytes>)
    requires Ascending(a) && Ascending(b) && forall k :: k in a <==> k in b
    ensures a == b
    decreases |a|
  {
    if a != [] { HasFirst(a); }
    if b != [] { HasFirst(b); }
    if a != [] && b != [] {
      assert a[0] in b && b[0] in a;
      if a[0] != b[0] {
        LessIsStrict(a[0]);
        LessIsTransitive(a[0], b[0], a[0]);
      }
      var x, y := a[1..], b[1..];
      forall k ensures k in x <==> k in y {
        Rest(a, k);
        Rest(b, k);
      }
      AscendingIsUnique(x, y);
      assert a == [a[0]] + x && b == [b[0]] + y;
    }
  }

  // ------------------------------------------------------------ prefix ranges

  /** Comparing past a common prefix. */
  lemma {:induction false} LessUnderPrefix(p: Bytes, a: Bytes, b: Bytes)
    ensures Less(p + a, p + b) <==> Less(a, b)
  {
    if p == [] {
      assert p + a == a && p + b == b;
    } else {
      assert (p + a)[1..] == p[1..] + a && (p + b)[1..] == p[1..] + b;
      LessUnderPrefix(p[1..], a, b);
    }
  }
}
