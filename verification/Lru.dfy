/** The least-recently-used cache: a linked list threaded through a slab, with a
    free list and a key index, against the sequence of its entries. */
module Lru {
  import opened Wrappers

  // ------------------------------------------------------------------- the model

  ghost predicate Distinct<K(!new), V(!new)>(s: seq<(K, V)>) {
    forall i, j :: 0 <= i < j < |s| ==> s[i].0 != s[j].0
  }

  function Lookup<K(==), V>(s: seq<(K, V)>, k: K): Option<V> {
    if s == [] then None else if s[0].0 == k then Some(s[0].1) else Lookup(s[1..], k)
  }

  function Without<K(==), V>(s: seq<(K, V)>, k: K): (r: seq<(K, V)>)
    ensures |r| <= |s|
  {
    if s == [] then [] else if s[0].0 == k then s[1..] else [s[0]] + Without(s[1..], k)
  }

  /** The entries, most recently used first, after a look at `k`. */
  function Touched<K(==), V>(s: seq<(K, V)>, k: K): seq<(K, V)> {
    match Lookup(s, k)
    case None => s
    case Some(v) => [(k, v)] + Without(s, k)
  }

  function Truncated<K, V>(s: seq<(K, V)>, capacity: nat): seq<(K, V)> {
    if |s| <= capacity then s else s[..capacity]
  }

  /** The entries after a put, however many there is room for. */
  function WithPut<K(==), V>(s: seq<(K, V)>, k: K, v: V, capacity: nat): seq<(K, V)> {
    if Lookup(s, k).Some? then [(k, v)] + Without(s, k) else Truncated([(k, v)] + s, capacity)
  }

  /** What a put pushes out. */
  function Evicted<K(==), V>(s: seq<(K, V)>, k: K, v: V, capacity: nat): Option<(K, V)> {
    var all := [(k, v)] + s;
    if Lookup(s, k).Some? || |all| <= capacity then None else Some(all[|all| - 1])
  }

  lemma {:induction false} LookupAt<K(!new), V(!new)>(s: seq<(K, V)>, p: nat)
    requires Distinct(s) && p < |s|
    ensures Lookup(s, s[p].0) == Some(s[p].1) && Without(s, s[p].0) == s[..p] + s[p + 1..]
    decreases |s|
  {
    if p > 0 {
      LookupAt(s[1..], p - 1);
      assert s[1..][p - 1] == s[p] && s[0].0 != s[p].0;
      assert s[1..][..p - 1] == s[1..p] && s[1..][p..] == s[p + 1..];
    }
  }

  lemma {:induction false} LookupMissing<K(!new), V(!new)>(s: seq<(K, V)>, k: K)
    ensures Lookup(s, k).None? <==> forall i :: 0 <= i < |s| ==> s[i].0 != k
    ensures Lookup(s, k).None? ==> Without(s, k) == s
    decreases |s|
  {
    if s != [] && s[0].0 != k {
      LookupMissing(s[1..], k);
      assert forall i :: 1 <= i < |s| ==> s[i] == s[1..][i - 1];
    }
  }

  lemma {:induction false} LookupIn<K(!new), V(!new)>(s: seq<(K, V)>, k: K)
    ensures Lookup(s, k).Some? ==> (k, Lookup(s, k).value) in s
  {
    if s != [] && s[0].0 != k {
      LookupIn(s[1..], k);
      assert s == [s[0]] + s[1..];
    } else if s != [] {
      assert s[0] == (s[0].0, s[0].1);
    }
  }

  lemma WithoutMembers<K(!new), V(!new)>(s: seq<(K, V)>, k: K)
    requires Distinct(s)
    ensures forall e :: e in Without(s, k) <==> e in s && e.0 != k
  {
    hide Without, Lookup;
    LookupMissing(s, k);
    if Lookup(s, k).Some? {
      var p :| 0 <= p < |s| && s[p].0 == k;
      LookupAt(s, p);
      assert s == s[..p] + [s[p]] + s[p + 1..];
    }
  }

  lemma LookupOnly<K(!new), V(!new)>(s: seq<(K, V)>, k: K)
    requires Distinct(s) && Lookup(s, k).Some?
    ensures forall e :: e in s && e.0 == k ==> e == (k, Lookup(s, k).value)
  {
    forall e | e in s && e.0 == k ensures e == (k, Lookup(s, k).value) {
      var p :| 0 <= p < |s| && s[p] == e;
      LookupAt(s, p);
    }
  }

  lemma TouchedMembers<K(!new), V(!new)>(s: seq<(K, V)>, k: K)
    requires Distinct(s)
    ensures forall e :: e in Touched(s, k) <==> e in s
  {
    hide Without, Lookup, Distinct;
    LookupIn(s, k);
    WithoutMembers(s, k);
    if Lookup(s, k).Some? { LookupOnly(s, k); }
  }

  lemma WithPutMembers<K(!new), V(!new)>(s: seq<(K, V)>, k: K, v: V, capacity: nat)
    requires Distinct(s)
    ensures forall e :: e in WithPut(s, k, v, capacity) ==> e == (k, v) || e in s
  {
    hide Without, Lookup, Distinct;
    WithoutMembers(s, k);
  }

  lemma DistinctParts<K(!new), V(!new)>(s: seq<(K, V)>, p: nat, e: (K, V))
    requires Distinct(s) && p < |s| && e.0 == s[p].0
    ensures Distinct([e] + (s[..p] + s[p + 1..]))
  {}

  lemma DistinctWithout<K(!new), V(!new)>(s: seq<(K, V)>, k: K, v: V)
    requires Distinct(s)
    ensures Distinct([(k, v)] + Without(s, k))
  {
    hide Without, Lookup;
    LookupMissing(s, k);
    if Lookup(s, k).Some? {
      var p :| 0 <= p < |s| && s[p].0 == k;
      LookupAt(s, p);
      DistinctParts(s, p, (k, v));
    }
  }

  /** Looks and puts keep the keys apart and the number of entries bounded. */
  lemma ModelKeeps<K(!new), V(!new)>(s: seq<(K, V)>, k: K, v: V, capacity: nat)
    requires Distinct(s) && |s| <= capacity
    ensures Distinct(Touched(s, k)) && |Touched(s, k)| == |s|
    ensures Distinct(WithPut(s, k, v, capacity)) && |WithPut(s, k, v, capacity)| <= capacity
    ensures Evicted(s, k, v, capacity).Some? <==> Lookup(s, k).None? && |s| == capacity
  {
    LookupMissing(s, k);
    DistinctWithout(s, k, v);
    if Lookup(s, k).Some? {
      DistinctWithout(s, k, Lookup(s, k).value);
      var p :| 0 <= p < |s| && s[p].0 == k;
      LookupAt(s, p);
    }
  }

  lemma TakeAllButLast<T>(s: seq<T>, n: nat)
    requires |s| == n + 1
    ensures s[..n] + [s[n]] == s
  {}

  /** A put loses nothing and invents nothing: what it pushes out is the last of the
      entries with the new one in front, and all others stay, in their order. */
  lemma NothingIsLost<K(!new), V(!new)>(s: seq<(K, V)>, k: K, v: V, capacity: nat)
    requires |s| <= capacity
    ensures var out := Evicted(s, k, v, capacity);
            && (out.Some? ==> WithPut(s, k, v, capacity) + [out.value] == [(k, v)] + s)
            && (out.None? ==> WithPut(s, k, v, capacity) == [(k, v)] + Without(s, k))
  {
    hide Lookup, Without;
    LookupMissing(s, k);
    if Evicted(s, k, v, capacity).Some? { TakeAllButLast([(k, v)] + s, capacity); }
  }

  /** Every key ever put, with its last value, latest first. */
  function Latest<K(==), V>(ops: seq<(K, V)>): seq<(K, V)> {
    if ops == [] then [] else [ops[|ops| - 1]] + Without(Latest(ops[..|ops| - 1]), ops[|ops| - 1].0)
  }

  datatype CacheOp<K, V> =
    | Look(key: K)
    | Store(key: K, value: V)

  /** The entries after looks and puts. */
  function Held<K(==), V>(ops: seq<CacheOp<K, V>>, capacity: nat): seq<(K, V)> {
    if ops == [] then [] else
      var before := Held(ops[..|ops| - 1], capacity);
      match ops[|ops| - 1]
      case Look(k) => Touched(before, k)
      case Store(k, v) => WithPut(before, k, v, capacity)
  }

  /** The puts and the looks that found something, in order, with what was put or found. */
  function Uses<K(==), V>(ops: seq<CacheOp<K, V>>, capacity: nat): seq<(K, V)> {
    if ops == [] then [] else
      var front := ops[..|ops| - 1];
      match ops[|ops| - 1]
      case Look(k) =>
        (match Lookup(Held(front, capacity), k)
         case None => Uses(front, capacity)
         case Some(v) => Uses(front, capacity) + [(k, v)])
      case Store(k, v) => Uses(front, capacity) + [(k, v)]
  }

  function LastStored<K(==), V>(ops: seq<CacheOp<K, V>>, k: K): Option<V> {
    if ops == [] then None
    else if ops[|ops| - 1].Store? && ops[|ops| - 1].key == k then Some(ops[|ops| - 1].value)
    else LastStored(ops[..|ops| - 1], k)
  }

  ghost function KeysOf<K(!new), V(!new)>(s: seq<(K, V)>): set<K> {
    set e | e in s :: e.0
  }

  lemma DropThenTake<T>(t: seq<T>, p: nat, n: nat, x: T)
    requires p < n <= |t|
    ensures [x] + (t[..n][..p] + t[..n][p + 1..]) == ([x] + (t[..p] + t[p + 1..]))[..n]
  {}

  lemma TakeThenDrop<T>(t: seq<T>, p: nat, n: nat, x: T)
    requires n <= p < |t|
    ensures ([x] + t[..n])[..n] == ([x] + (t[..p] + t[p + 1..]))[..n]
  {}

  lemma TakeTwice<T>(t: seq<T>, n: nat, x: T)
    requires n <= |t|
    ensures ([x] + t[..n])[..n] == ([x] + t)[..n]
  {}

  lemma PutIsTruncated<K(!new), V(!new)>(t: seq<(K, V)>, k: K, v: V, capacity: nat)
    requires Distinct(t)
    ensures WithPut(Truncated(t, capacity), k, v, capacity) == Truncated([(k, v)] + Without(t, k), capacity)
  {
    hide Lookup, Without;
    var s := Truncated(t, capacity);
    LookupMissing(s, k);
    LookupMissing(t, k);
    if Lookup(t, k).None? {
      if |t| >= capacity { TakeTwice(t, capacity, (k, v)); }
    } else {
      var p :| 0 <= p < |t| && t[p].0 == k;
      LookupAt(t, p);
      if p < |s| {
        assert s[p].0 == k;
        LookupAt(s, p);
        if |t| > capacity { DropThenTake(t, p, capacity, (k, v)); }
      } else {
        assert Lookup(s, k).None?;
        TakeThenDrop(t, p, capacity, (k, v));
      }
    }
  }

  /** After any looks and puts the cache holds the `capacity` keys used most
      recently, in that order; a look that finds its key is a use. */
  lemma {:induction false} RunKeepsTheLatest<K(!new), V(!new)>(ops: seq<CacheOp<K, V>>, capacity: nat)
    ensures Distinct(Latest(Uses(ops, capacity)))
    ensures Held(ops, capacity) == Truncated(Latest(Uses(ops, capacity)), capacity)
  {
    if ops != [] {
      var front, last := ops[..|ops| - 1], ops[|ops| - 1];
      RunKeepsTheLatest(front, capacity);
      var u := Uses(front, capacity);
      if last.Store? || Lookup(Held(front, capacity), last.key).Some? {
        var v := if last.Store? then last.value else Lookup(Held(front, capacity), last.key).value;
        assert (u + [(last.key, v)])[..|u|] == u;
        DistinctWithout(Latest(u), last.key, v);
        PutIsTruncated(Latest(u), last.key, v, capacity);
      }
    }
  }

  lemma PastHead<K(!new), V(!new)>(t: seq<(K, V)>, p: nat, e: (K, V)) returns (q: nat)
    requires Distinct(t) && p < |t| && e.0 != t[p].0
    ensures var r := [e] + Without(t, e.0); q < |r| && r[q] == t[p] && KeysOf(r[..q]) == KeysOf(t[..p]) + {e.0}
  {
    hide Lookup, Without;
    LookupMissing(t, e.0);
    var r := [e] + Without(t, e.0);
    if Lookup(t, e.0).None? {
      q := p + 1;
      assert r[..q] == [e] + t[..p];
    } else {
      var x :| 0 <= x < |t| && t[x].0 == e.0;
      LookupAt(t, x);
      if x < p {
        q := p;
        assert r[..q] == [e] + t[..x] + t[x + 1..p];
        assert t[..p] == t[..x] + [t[x]] + t[x + 1..p];
      } else {
        q := p + 1;
        assert r[..q] == [e] + t[..p];
      }
    }
  }

  lemma {:induction false} LatestDistinct<K(!new), V(!new)>(u: seq<(K, V)>)
    ensures Distinct(Latest(u)) && KeysOf(Latest(u)) == KeysOf(u)
  {
    if u != [] {
      var front, last := u[..|u| - 1], u[|u| - 1];
      LatestDistinct(front);
      DistinctWithout(Latest(front), last.0, last.1);
      WithoutMembers(Latest(front), last.0);
      assert last == (last.0, last.1) && u == front + [last];
      hide Without, Distinct;
      assert Latest(u) == [last] + Without(Latest(front), last.0);
      forall k ensures k in KeysOf(Latest(u)) <==> k in KeysOf(u) {
        if k in KeysOf(front) && k != last.0 {
          var e :| e in Latest(front) && e.0 == k;
          assert e in Latest(u);
        }
      }
    }
  }

  /** Before an entry come the keys used since. */
  lemma {:induction false} LatestAt<K(!new), V(!new)>(u: seq<(K, V)>, i: nat) returns (p: nat)
    requires i < |u| && Distinct(Latest(u)) && u[i].0 !in KeysOf(u[i + 1..])
    ensures p < |Latest(u)| && Latest(u)[p] == u[i] && KeysOf(Latest(u)[..p]) == KeysOf(u[i + 1..])
  {
    var front, last := u[..|u| - 1], u[|u| - 1];
    if i == |u| - 1 {
      p := 0;
    } else {
      assert u[i + 1..] == front[i + 1..] + [last];
      assert last in u[i + 1..];
      LatestDistinct(front);
      var q := LatestAt(front, i);
      p := PastHead(Latest(front), q, last);
    }
  }

  lemma {:induction false} KeysCount<K(!new), V(!new)>(s: seq<(K, V)>)
    requires Distinct(s)
    ensures |KeysOf(s)| == |s|
  {
    if s != [] {
      var front, last := s[..|s| - 1], s[|s| - 1];
      KeysCount(front);
      assert s == front + [last];
      assert KeysOf(s) == KeysOf(front) + {last.0};
    }
  }

  /** A key is held, with the value of its last use, exactly when fewer than
      `capacity` other keys were used since; a key that was never used is not. */
  lemma HeldIff<K(!new), V(!new)>(ops: seq<CacheOp<K, V>>, capacity: nat, k: K)
    ensures var u, found := Uses(ops, capacity), Lookup(Held(ops, capacity), k);
      && (k !in KeysOf(u) ==> found == None)
      && (forall i :: 0 <= i < |u| && u[i].0 == k && k !in KeysOf(u[i + 1..]) ==>
        found == if |KeysOf(u[i + 1..])| < capacity then Some(u[i].1) else None)
  {
    var u, held := Uses(ops, capacity), Held(ops, capacity);
    hide Lookup, Without, Latest, Uses, Held;
    RunKeepsTheLatest(ops, capacity);
    LatestDistinct(u);
    LookupMissing(held, k);
    forall i | 0 <= i < |u| && u[i].0 == k && k !in KeysOf(u[i + 1..])
      ensures Lookup(held, k) == if |KeysOf(u[i + 1..])| < capacity then Some(u[i].1) else None
    {
      var p := LatestAt(u, i);
      KeysCount(Latest(u)[..p]);
      if p < capacity {
        LookupAt(held, p);
      } else {
        forall q | 0 <= q < |held| ensures held[q].0 != k {
          assert Latest(u)[q].0 != Latest(u)[p].0;
        }
      }
    }
    forall q | 0 <= q < |held| ensures held[q].0 in KeysOf(u) {
      assert Latest(u)[q] in Latest(u);
    }
  }

  /** What is held is what was put last. */
  lemma {:induction false} HeldIsLastStored<K(!new), V(!new)>(ops: seq<CacheOp<K, V>>, capacity: nat, e: (K, V))
    requires e in Held(ops, capacity)
    ensures LastStored(ops, e.0) == Some(e.1)
  {
    var front, last := ops[..|ops| - 1], ops[|ops| - 1];
    var before := Held(front, capacity);
    RunKeepsTheLatest(front, capacity);
    hide Uses, Latest;
    if last.Look? {
      TouchedMembers(before, last.key);
      HeldIsLastStored(front, capacity, e);
    } else {
      WithPutMembers(before, last.key, last.value, capacity);
      RunKeepsTheLatest(ops, capacity);
      if e.0 != last.key {
        HeldIsLastStored(front, capacity, e);
      } else {
        assert Held(ops, capacity)[0] == (last.key, last.value);
      }
    }
  }

  /** Use `i` was the last of `e`'s key, and every other key held was used after it. */
  ghost predicate IsOldest<K(!new), V(!new)>(u: seq<(K, V)>, i: nat, e: (K, V), held: seq<(K, V)>) {
    && i < |u| && u[i] == e && e.0 !in KeysOf(u[i + 1..])
    && forall other :: other in held && other.0 != e.0 ==> other.0 in KeysOf(u[i + 1..])
  }

  lemma {:induction false} LastUse<K(!new), V(!new)>(u: seq<(K, V)>, k: K) returns (i: nat)
    requires k in KeysOf(u)
    ensures i < |u| && u[i].0 == k && k !in KeysOf(u[i + 1..])
  {
    var n := |u| - 1;
    assert u == u[..n] + [u[n]];
    if u[n].0 == k {
      i := n;
    } else {
      i := LastUse(u[..n], k);
      assert u[i + 1..] == u[..n][i + 1..] + [u[n]];
    }
  }

  /** What a put gives back is the key used longest ago of all held, with its last value;
      without room for any it is the entry just put. */
  lemma EvictedIsOldest<K(!new), V(!new)>(ops: seq<CacheOp<K, V>>, capacity: nat, k: K, v: V)
    requires Evicted(Held(ops, capacity), k, v, capacity).Some?
    ensures var e := Evicted(Held(ops, capacity), k, v, capacity).value;
            if capacity == 0 then e == (k, v)
            else
              && e in Held(ops, capacity) && LastStored(ops, e.0) == Some(e.1)
              && exists i :: 0 <= i < |Uses(ops, capacity)| && IsOldest(Uses(ops, capacity), i, e, Held(ops, capacity))
  {
    var u, held := Uses(ops, capacity), Held(ops, capacity);
    hide Lookup, Without, Latest, Uses, Held, LastStored;
    RunKeepsTheLatest(ops, capacity);
    LatestDistinct(u);
    if capacity > 0 {
      var p := |held| - 1;
      var e := held[p];
      HeldIsLastStored(ops, capacity, e);
      assert Latest(u)[p] == e && e in Latest(u);
      var i := LastUse(u, e.0);
      var q := LatestAt(u, i);
      assert Latest(u)[q].0 == Latest(u)[p].0;
      assert IsOldest(u, i, e, held);
    }
  }

  // -------------------------------------------------------------------- the slab

  datatype Slot<K, V> = Slot(key: K, value: V, prev: Option<nat>, next: Option<nat>)

  function At(order: seq<nat>, i: int): Option<nat> {
    if 0 <= i < |order| then Some(order[i]) else None
  }

  ghost predicate NoRepeats(order: seq<nat>) {
    forall i, j :: 0 <= i < j < |order| ==> order[i] != order[j]
  }

  predicate LinkedAt<K, V>(slots: seq<Option<Slot<K, V>>>, order: seq<nat>, i: nat)
    requires i < |order|
  {
    && order[i] < |slots| && slots[order[i]].Some?
    && slots[order[i]].value.prev == At(order, i - 1)
    && slots[order[i]].value.next == At(order, i + 1)
  }

  /** The list runs through the slots named by `order`, in both directions. */
  ghost predicate Linked<K(!new), V(!new)>(slots: seq<Option<Slot<K, V>>>, order: seq<nat>, head: Option<nat>,
      tail: Option<nat>) {
    && NoRepeats(order)
    && (forall i :: 0 <= i < |order| ==> LinkedAt(slots, order, i))
    && head == At(order, 0) && tail == At(order, |order| - 1)
  }

  /** The entries in the slab, whatever the links. */
  function Payload<K, V>(slots: seq<Option<Slot<K, V>>>): (p: seq<Option<(K, V)>>)
    ensures |p| == |slots|
  {
    seq(|slots|, i requires 0 <= i < |slots| => if slots[i].None? then None
        else Some((slots[i].value.key, slots[i].value.value)))
  }

  function WithNext<K, V>(slots: seq<Option<Slot<K, V>>>, i: nat, next: Option<nat>): (r: seq<Option<Slot<K, V>>>)
    requires i < |slots| && slots[i].Some?
    ensures Payload(r) == Payload(slots)
  {
    slots[i := Some(slots[i].value.(next := next))]
  }

  function WithPrev<K, V>(slots: seq<Option<Slot<K, V>>>, i: nat, prev: Option<nat>): (r: seq<Option<Slot<K, V>>>)
    requires i < |slots| && slots[i].Some?
    ensures Payload(r) == Payload(slots)
  {
    slots[i := Some(slots[i].value.(prev := prev))]
  }

  function Dropped(order: seq<nat>, p: nat): seq<nat>
    requires p < |order|
  {
    order[..p] + order[p + 1..]
  }

  predicate Occupied<K, V>(slots: seq<Option<Slot<K, V>>>, x: nat) {
    x < |slots| && slots[x].Some?
  }

  /** The neighbours of entry `p` point past it; nobody else changed. */
  ghost predicate Bypassed<K(!new), V(!new)>(a: seq<Option<Slot<K, V>>>, b: seq<Option<Slot<K, V>>>, order: seq<nat>,
      p: nat)
    requires p < |order|
  {
    && |a| == |b|
    && (p > 0 ==>
          Occupied(a, order[p - 1]) && b[order[p - 1]] == Some(a[order[p - 1]].value.(next := At(order, p + 1))))
    && (p + 1 < |order| ==>
          Occupied(a, order[p + 1]) && b[order[p + 1]] == Some(a[order[p + 1]].value.(prev := At(order, p - 1))))
    && (forall x :: 0 <= x < |a| && Some(x) !in [At(order, p - 1), At(order, p), At(order, p + 1)] ==> b[x] == a[x])
  }

  /** What the list says around entry `p`. */
  lemma Around<K(!new), V(!new)>(slots: seq<Option<Slot<K, V>>>, order: seq<nat>, head: Option<nat>,
      tail: Option<nat>, p: nat)
    requires Linked(slots, order, head, tail) && p < |order|
    ensures Occupied(slots, order[p]) && slots[order[p]].value.prev == At(order, p - 1)
        && slots[order[p]].value.next == At(order, p + 1)
    ensures p > 0 ==> Occupied(slots, order[p - 1]) && order[p - 1] != order[p]
    ensures p + 1 < |order| ==> Occupied(slots, order[p + 1]) && order[p + 1] != order[p]
    ensures 0 < p < |order| - 1 ==> order[p - 1] != order[p + 1]
    ensures head == At(order, 0) && tail == At(order, |order| - 1)
  {
    assert LinkedAt(slots, order, p);
    if p > 0 { assert LinkedAt(slots, order, p - 1); }
    if p + 1 < |order| { assert LinkedAt(slots, order, p + 1); }
  }

  lemma DroppedLink<K(!new), V(!new)>(a: seq<Option<Slot<K, V>>>, b: seq<Option<Slot<K, V>>>, order: seq<nat>, p: nat,
      i: nat)
    requires p < |order| && NoRepeats(order) && forall i :: 0 <= i < |order| ==> LinkedAt(a, order, i)
    requires Bypassed(a, b, order, p) && i < |order| - 1
    ensures LinkedAt(b, Dropped(order, p), i)
  {
    var j := if i < p then i else i + 1;
    assert LinkedAt(a, order, j) && Dropped(order, p)[i] == order[j] && order[j] != order[p];
  }

  lemma DroppedLinks<K(!new), V(!new)>(a: seq<Option<Slot<K, V>>>, b: seq<Option<Slot<K, V>>>, order: seq<nat>,
      head: Option<nat>, tail: Option<nat>, p: nat)
    requires Linked(a, order, head, tail) && p < |order| && Bypassed(a, b, order, p)
    ensures NoRepeats(Dropped(order, p))
    ensures |Dropped(order, p)| == |order| - 1 && forall i :: 0 <= i < |order| - 1 ==> LinkedAt(b, Dropped(order, p), i)
    ensures At(Dropped(order, p), 0) == if p == 0 then At(order, 1) else At(order, 0)
    ensures At(Dropped(order, p), |order| - 2) == if p == |order| - 1 then At(order, p - 1) else At(order, |order| - 1)
  {
    forall i | 0 <= i < |order| - 1 ensures LinkedAt(b, Dropped(order, p), i) {
      DroppedLink(a, b, order, p, i);
    }
  }

  lemma NowLinked<K(!new), V(!new)>(slots: seq<Option<Slot<K, V>>>, order: seq<nat>, head: Option<nat>,
      tail: Option<nat>)
    requires NoRepeats(order) && (forall i :: 0 <= i < |order| ==> LinkedAt(slots, order, i))
    requires head == At(order, 0) && tail == At(order, |order| - 1)
    ensures Linked(slots, order, head, tail)
  {}

  /** The entries in list order. */
  function Entries<K, V>(p: seq<Option<(K, V)>>, order: seq<nat>): (s: seq<(K, V)>)
    requires forall x :: x in order ==> x < |p| && p[x].Some?
    ensures |s| == |order|
  {
    seq(|order|, i requires 0 <= i < |order| => assert order[i] in order; p[order[i]].value)
  }

  /** The index finds every entry, and nothing else. */
  ghost predicate Indexed<K(!new), V(!new)>(p: seq<Option<(K, V)>>, order: seq<nat>, index: map<K, nat>) {
    && (forall x :: x in order ==> x < |p| && p[x].Some? && p[x].value.0 in index && index[p[x].value.0] == x)
    && (forall k :: k in index ==> index[k] in order && index[k] < |p| && p[index[k]].Some? && p[index[k]].value.0 == k)
    && |index| == |order|
  }

  /** Every slot is on the list or on the free list, never on both. */
  ghost predicate Sorted<K(!new), V(!new)>(p: seq<Option<(K, V)>>, order: seq<nat>, free: seq<nat>) {
    && NoRepeats(free)
    && (forall x :: x in free || x in order ==> x < |p|)
    && (forall x :: 0 <= x < |p| ==> (x in order <==> p[x].Some?) && (x in free <==> p[x].None?))
    && |free| + |order| == |p|
  }

  lemma PositionOf(order: seq<nat>, x: nat) returns (p: nat)
    requires x in order
    ensures p < |order| && order[p] == x
  {
    p :| p < |order| && order[p] == x;
  }

  lemma EntriesAt<K(!new), V(!new)>(p: seq<Option<(K, V)>>, order: seq<nat>, index: map<K, nat>, k: K)
    requires Indexed(p, order, index) && NoRepeats(order)
    ensures Distinct(Entries(p, order))
    ensures k in index <==> Lookup(Entries(p, order), k).Some?
    ensures k in index ==> Lookup(Entries(p, order), k) == Some(p[index[k]].value.1)
  {
    var s := Entries(p, order);
    assert forall i :: 0 <= i < |order| ==> order[i] in order;
    LookupMissing(s, k);
    if k in index {
      var j := PositionOf(order, index[k]);
      LookupAt(s, j);
    }
  }

  lemma EntriesSplit<K(!new), V(!new)>(p: seq<Option<(K, V)>>, order: seq<nat>, j: nat)
    requires (forall x :: x in order ==> x < |p| && p[x].Some?) && j < |order|
    requires forall x :: x in Dropped(order, j) ==> x < |p| && p[x].Some?
    ensures Entries(p, Dropped(order, j)) == Entries(p, order)[..j] + Entries(p, order)[j + 1..]
  {}

  lemma DroppedMembers(order: seq<nat>, j: nat)
    requires NoRepeats(order) && j < |order|
    ensures forall x :: x in Dropped(order, j) <==> x in order && x != order[j]
  {
    assert order == order[..j] + [order[j]] + order[j + 1..];
  }

  /** Taking one entry out of the list. */
  lemma EntriesDropped<K(!new), V(!new)>(p: seq<Option<(K, V)>>, order: seq<nat>, index: map<K, nat>, j: nat)
    requires Indexed(p, order, index) && NoRepeats(order) && j < |order|
    ensures order[j] in order && (forall x :: x in Dropped(order, j) <==> x in order && x != order[j])
    ensures Entries(p, Dropped(order, j)) == Without(Entries(p, order), p[order[j]].value.0)
  {
    assert order[j] in order;
    var s := Entries(p, order);
    assert s[j] == p[order[j]].value;
    DroppedMembers(order, j);
    EntriesAt(p, order, index, p[order[j]].value.0);
    hide Without, Entries, Dropped, Lookup;
    EntriesSplit(p, order, j);
    LookupAt(s, j);
  }

  /** The order of the list does not matter to the index and the free list. */
  lemma Reordered<K(!new), V(!new)>(p: seq<Option<(K, V)>>, a: seq<nat>, b: seq<nat>, index: map<K, nat>,
      free: seq<nat>)
    requires Indexed(p, a, index) && Sorted(p, a, free)
    requires |a| == |b| && forall x :: x in a <==> x in b
    ensures Indexed(p, b, index) && Sorted(p, b, free)
  {}

  lemma DroppedLength(order: seq<nat>, j: nat)
    requires j < |order|
    ensures |Dropped(order, j)| == |order| - 1
  {}

  /** Putting one in front. */
  lemma EntriesPushed<K(!new), V(!new)>(p: seq<Option<(K, V)>>, x: nat, order: seq<nat>)
    requires forall y :: y in [x] + order ==> y < |p| && p[y].Some?
    ensures (forall y :: y in order ==> y in [x] + order) && x in [x] + order
    ensures Entries(p, [x] + order) == [p[x].value] + Entries(p, order)
  {
    assert forall y :: y in order ==> y in [x] + order;
    assert x in [x] + order;
  }

  /** A new value for a key that is there. */
  lemma EntriesSet<K(!new), V(!new)>(p: seq<Option<(K, V)>>, order: seq<nat>, index: map<K, nat>, free: seq<nat>,
      j: nat, v: V)
    requires Indexed(p, order, index) && Sorted(p, order, free) && NoRepeats(order) && j < |order|
    ensures order[j] < |p| && p[order[j]].Some?
    ensures var k := p[order[j]].value.0; var q := p[order[j] := Some((k, v))];
            && Indexed(q, order, index) && Sorted(q, order, free)
            && Without(Entries(q, order), k) == Without(Entries(p, order), k)
  {
    assert order[j] in order;
    var k := p[order[j]].value.0;
    var q := p[order[j] := Some((k, v))];
    var s, t := Entries(p, order), Entries(q, order);
    EntriesAt(p, order, index, k);
    EntriesAt(q, order, index, k);
    assert s[j].0 == k && t[j].0 == k;
    LookupAt(s, j);
    LookupAt(t, j);
    assert s[..j] == t[..j] && s[j + 1..] == t[j + 1..];
  }

  /** A new key in a slot `x` that was free, or is new. */
  lemma EntriesInserted<K(!new), V(!new)>(p: seq<Option<(K, V)>>, q: seq<Option<(K, V)>>, x: nat, order: seq<nat>,
      index: map<K, nat>, k: K, v: V)
    requires Indexed(p, order, index) && k !in index && x !in order
    requires x < |q| && q[x] == Some((k, v)) && |q| >= |p| && forall y :: 0 <= y < |p| && y != x ==> q[y] == p[y]
    ensures Indexed(q, [x] + order, index[k := x]) && Entries(q, [x] + order) == [(k, v)] + Entries(p, order)
  {
    EntriesPushed(q, x, order);
    assert Entries(q, order) == Entries(p, order) by {
      forall i | 0 <= i < |order| ensures Entries(q, order)[i] == Entries(p, order)[i] { assert order[i] in order; }
    }
  }

  lemma SlotTaken<K(!new), V(!new)>(p: seq<Option<(K, V)>>, order: seq<nat>, free: seq<nat>, e: (K, V))
    requires Sorted(p, order, free) && free != []
    ensures var x := free[|free| - 1];
            x !in order && x < |p| && p[x].None? && Sorted(p[x := Some(e)], [x] + order, free[..|free| - 1])
  {
    var x := free[|free| - 1];
    assert x in free;
    DroppedMembers(free, |free| - 1);
    assert Dropped(free, |free| - 1) == free[..|free| - 1];
  }

  lemma SlotAdded<K(!new), V(!new)>(p: seq<Option<(K, V)>>, order: seq<nat>, e: (K, V))
    requires Sorted(p, order, [])
    ensures |p| !in order && Sorted(p + [Some(e)], [|p|] + order, [])
  {
    forall x | 0 <= x < |p| + 1 ensures x in [|p|] + order <==> (p + [Some(e)])[x].Some? {
      if x < |p| { assert (p + [Some(e)])[x] == p[x]; }
    }
  }

  lemma SlotFreed<K(!new), V(!new)>(p: seq<Option<(K, V)>>, order: seq<nat>, free: seq<nat>, j: nat)
    requires Sorted(p, order, free) && NoRepeats(order) && j < |order|
    ensures order[j] < |p| && Sorted(p[order[j] := None], Dropped(order, j), free + [order[j]])
  {
    assert order[j] in order;
    DroppedMembers(order, j);
  }

  lemma IndexShrinks<K(!new), V(!new)>(p: seq<Option<(K, V)>>, order: seq<nat>, rest: seq<nat>, index: map<K, nat>,
      x: nat)
    requires Indexed(p, order, index) && x in order && |rest| == |order| - 1 && forall y :: y in rest <==>
        y in order && y != x
    ensures x < |p| && p[x].Some? && p[x].value.0 in index && Indexed(p[x := None], rest, index - {p[x].value.0})
  {
    var k := p[x].value.0;
    assert (index - {k}).Keys == index.Keys - {k};
  }

  /** Taking an entry out gives its slot to the free list. */
  lemma EntriesRemoved<K(!new), V(!new)>(p: seq<Option<(K, V)>>, order: seq<nat>, index: map<K, nat>, j: nat)
    requires Indexed(p, order, index) && NoRepeats(order) && j < |order|
    ensures order[j] < |p| && p[order[j]].Some? && p[order[j]].value == Entries(p, order)[j]
    ensures var x := order[j]; var k := p[x].value.0; var rest := Dropped(order, j);
            && k in index && Indexed(p[x := None], rest, index - {k})
            && Entries(p[x := None], rest) == Without(Entries(p, order), k)
  {
    var x, rest := order[j], Dropped(order, j);
    EntriesDropped(p, order, index, j);
    DroppedLength(order, j);
    assert Entries(p, order)[j] == p[x].value;
    hide Without, Dropped;
    IndexShrinks(p, order, rest, index, x);
    assert Entries(p[x := None], rest) == Entries(p, rest) by {
      forall i | 0 <= i < |rest| ensures Entries(p[x := None], rest)[i] == Entries(p, rest)[i] {
        assert rest[i] in rest;
      }
    }
  }

  /** Everything that changes with the list when the entry of `k` goes. */
  lemma Removal<K(!new), V(!new)>(p: seq<Option<(K, V)>>, order: seq<nat>, index: map<K, nat>, free: seq<nat>,
                                  head: Option<nat>, tail: Option<nat>, slots: seq<Option<Slot<K, V>>>, k: K)
    returns (j: nat)
    requires Indexed(p, order, index) && Sorted(p, order, free) && Linked(slots, order, head, tail)
        && p == Payload(slots) && k in index
    ensures j < |order| && order[j] == index[k] && index[k] < |p| && p[index[k]].Some? && p[index[k]].value.0 == k
    ensures |Dropped(order, j)| == |order| - 1 && index[k] !in Dropped(order, j)
    ensures var x, rest := index[k], Dropped(order, j);
            && Indexed(p[x := None], rest, index - {k}) && Sorted(p[x := None], rest, free + [x])
            && Entries(p[x := None], rest) == Without(Entries(p, order), k)
            && Lookup(Entries(p, order), k) == Some(p[x].value.1)
  {
    j := PositionOf(order, index[k]);
    assert order[j] < |p| && p[order[j]].Some? && p[order[j]].value.0 == k;
    hide Entries, Without, Lookup, Dropped, LinkedAt;
    EntriesAt(p, order, index, k);
    EntriesRemoved(p, order, index, j);
    SlotFreed(p, order, free, j);
    DroppedMembers(order, j);
    DroppedLength(order, j);
  }

  /** The list when the entry of `k` has moved to the front; an entry there already stays. */
  lemma Moved<K(!new), V(!new)>(p: seq<Option<(K, V)>>, order: seq<nat>, index: map<K, nat>, free: seq<nat>,
                                head: Option<nat>, tail: Option<nat>, slots: seq<Option<Slot<K, V>>>, k: K)
    returns (j: nat)
    requires Indexed(p, order, index) && Sorted(p, order, free) && Linked(slots, order, head, tail)
        && p == Payload(slots) && k in index
    ensures j < |order| && order[j] == index[k] && index[k] < |p| && p[index[k]].Some? && index[k] !in Dropped(order, j)
    ensures var moved := [index[k]] + Dropped(order, j);
            && |moved| == |order| && Indexed(p, moved, index) && Sorted(p, moved, free)
            && Entries(p, moved) == Touched(Entries(p, order), k)
            && (head == Some(index[k]) ==> moved == order)
  {
    j := PositionOf(order, index[k]);
    assert order[j] < |p| && p[order[j]].Some? && p[order[j]].value.0 == k;
    if head == Some(index[k]) { assert order[0] == order[j] && j == 0; }
    hide Entries, Without, Lookup, LinkedAt;
    var moved := [index[k]] + Dropped(order, j);
    assert j == 0 ==> moved == order;
    EntriesAt(p, order, index, k);
    EntriesDropped(p, order, index, j);
    EntriesPushed(p, index[k], Dropped(order, j));
    Reordered(p, order, moved, index, free);
  }

  /** A slot that is not on the list can change without the list noticing. */
  lemma LinkedElsewhere<K(!new), V(!new)>(a: seq<Option<Slot<K, V>>>, b: seq<Option<Slot<K, V>>>, order: seq<nat>,
      head: Option<nat>, tail: Option<nat>, x: nat)
    requires Linked(a, order, head, tail) && x !in order
    requires |a| <= |b| && forall y :: 0 <= y < |a| && y != x ==> b[y] == a[y]
    ensures Linked(b, order, head, tail)
  {
    forall i | 0 <= i < |order| ensures LinkedAt(b, order, i) {
      assert LinkedAt(a, order, i) && order[i] in order;
    }
  }

  class LruCache<K(==, !new), V(!new)> {
    var slots: seq<Option<Slot<K, V>>>
    var free: seq<nat>
    var index: map<K, nat>
    var head: Option<nat>
    var tail: Option<nat>
    const capacity: nat
    /** The occupied slots in list order. */
    ghost var order: seq<nat>

    method Unlink(idx: nat, ghost p: nat)
      requires Linked(slots, order, head, tail) && p < |order| && order[p] == idx
      modifies `slots, `head, `tail, `order
      ensures order == Dropped(old(order), p) && Linked(slots, order, head, tail)
      ensures Payload(slots) == old(Payload(slots))
    {
      DroppedLength(order, p);
      hide Payload, Dropped, Linked;
      Around(slots, order, head, tail, p);
      var prev, next := slots[idx].value.prev, slots[idx].value.next;
      if prev.Some? {
        slots := WithNext(slots, prev.value, next);
      } else {
        head := next;
      }
      if next.Some? {
        slots := WithPrev(slots, next.value, prev);
      } else {
        tail := prev;
      }
      slots := WithPrev(slots, idx, None);
      slots := WithNext(slots, idx, None);
      order := Dropped(order, p);
      assert Bypassed(old(slots), slots, old(order), p);
      DroppedLinks(old(slots), slots, old(order), old(head), old(tail), p);
      assert head == At(order, 0) && tail == At(order, |order| - 1);
      NowLinked(slots, order, head, tail);
    }

    method PushFront(idx: nat)
      requires Linked(slots, order, head, tail) && idx < |slots| && slots[idx].Some? && idx !in order
      modifies `slots, `head, `tail, `order
      ensures order == [idx] + old(order) && Linked(slots, order, head, tail)
      ensures Payload(slots) == old(Payload(slots))
    {
      if order != [] { assert LinkedAt(slots, order, 0); }
      slots := WithPrev(slots, idx, None);
      slots := WithNext(slots, idx, head);
      if head.Some? {
        slots := WithPrev(slots, head.value, Some(idx));
      }
      head := Some(idx);
      if tail.None? {
        tail := Some(idx);
      }
      order := [idx] + order;
      forall i | 0 <= i < |order| ensures LinkedAt(slots, order, i) {
        if i > 0 { assert LinkedAt(old(slots), old(order), i - 1); }
      }
    }

    ghost predicate Shape()
      reads this
    {
      && Linked(slots, order, head, tail)
      && Indexed(Payload(slots), order, index)
      && Sorted(Payload(slots), order, free)
    }

    ghost predicate Valid()
      reads this
    {
      Shape() && |order| <= capacity && |slots| <= capacity + 1
    }

    /** The entries, most recently used first. */
    ghost function Contents(): (s: seq<(K, V)>)
      reads this
      requires Shape()
    {
      Entries(Payload(slots), order)
    }

    constructor (capacity: nat)
      ensures Valid() && Contents() == [] && this.capacity == capacity
    {
      slots, free, index, head, tail, order := [], [], map[], None, None, [];
      this.capacity := capacity;
    }

    method MoveToFront(idx: nat, ghost k: K)
      requires Shape() && k in index && index[k] == idx
      modifies `slots, `head, `tail, `order
      ensures Shape() && |order| == |old(order)| && Payload(slots) == old(Payload(slots))
      ensures Contents() == Touched(old(Contents()), k)
    {
      hide Entries, Lookup, Without, Dropped, Indexed, Sorted, NoRepeats, Linked;
      ghost var p := Moved(Payload(slots), order, index, free, head, tail, slots, k);
      if head == Some(idx) { return; }
      Unlink(idx, p);
      assert Payload(slots)[idx].Some?;
      PushFront(idx);
    }

    method Get(k: K) returns (r: Option<V>)
      requires Valid()
      modifies this
      ensures Valid() && r == Lookup(old(Contents()), k) && Contents() == Touched(old(Contents()), k)
    {
      EntriesAt(Payload(slots), order, index, k);
      if k !in index { return None; }
      var idx := index[k];
      assert Payload(slots)[idx] == Some((slots[idx].value.key, slots[idx].value.value));
      hide Linked, Entries, Lookup, Without, Sorted;
      MoveToFront(idx, k);
      assert Payload(slots)[idx] == Some((slots[idx].value.key, slots[idx].value.value));
      r := Some(slots[idx].value.value);
    }

    /** Fill a free slot, or a new one. */
    method Take(k: K, v: V) returns (idx: nat)
      requires Shape() && k !in index
      modifies `slots, `free
      ensures Linked(slots, order, head, tail) && idx < |slots| && slots[idx].Some? && idx !in order
      ensures Indexed(Payload(slots), [idx] + order, index[k := idx]) && Sorted(Payload(slots), [idx] + order, free)
      ensures Entries(Payload(slots), [idx] + order) == [(k, v)] + old(Contents())
      ensures |slots| == if old(free) == [] then |old(slots)| + 1 else |old(slots)|
      ensures old(free) == [] ==> |old(slots)| == |order|
    {
      hide Linked, Sorted, Indexed, Entries;
      ghost var p := Payload(slots);
      var slot := Some(Slot(k, v, None, None));
      if free != [] {
        idx := free[|free| - 1];
        SlotTaken(p, order, free, (k, v));
        LinkedElsewhere(slots, slots[idx := slot], order, head, tail, idx);
        free := free[..|free| - 1];
        slots := slots[idx := slot];
        assert Payload(slots) == p[idx := Some((k, v))];
      } else {
        idx := |slots|;
        SlotAdded(p, order, (k, v));
        LinkedElsewhere(slots, slots + [slot], order, head, tail, idx);
        slots := slots + [slot];
        assert Payload(slots) == p + [Some((k, v))];
      }
      EntriesInserted(p, Payload(slots), idx, order, index, k, v);
    }

    /** Unlink a slot, free it and forget its key. */
    method Release(idx: nat, k: K) returns (e: (K, V))
      requires Shape() && k in index && index[k] == idx
      modifies this
      ensures Shape() && Contents() == Without(old(Contents()), k) && |order| == |old(order)| - 1
      ensures |slots| == |old(slots)| && e.0 == k && Lookup(old(Contents()), k) == Some(e.1)
    {
      ghost var before := Payload(slots);
      ghost var p := Removal(before, order, index, free, head, tail, slots, k);
      hide Indexed, Sorted, Entries, Without, Lookup, Dropped, Linked;
      index := index - {k};
      Unlink(idx, p);
      assert Payload(slots)[idx] == before[idx];
      e := (slots[idx].value.key, slots[idx].value.value);
      LinkedElsewhere(slots, slots[idx := None], order, head, tail, idx);
      slots := slots[idx := None];
      assert Payload(slots) == before[idx := None];
      free := free + [idx];
    }

    method SetValue(idx: nat, k: K, v: V)
      requires Shape() && k in index && index[k] == idx
      modifies `slots
      ensures Shape() && |slots| == |old(slots)|
      ensures Touched(Contents(), k) == [(k, v)] + Without(old(Contents()), k)
    {
      ghost var p := PositionOf(order, idx);
      ghost var before := Payload(slots);
      EntriesSet(before, order, index, free, p, v);
      EntriesAt(before[idx := Some((k, v))], order, index, k);
      hide Entries, Without, Lookup, Indexed, Sorted;
      assert before[idx].Some?;
      slots := slots[idx := Some(slots[idx].value.(value := v))];
      assert Payload(slots) == before[idx := Some((k, v))];
      forall i | 0 <= i < |order| ensures LinkedAt(slots, order, i) {
        assert LinkedAt(old(slots), order, i);
      }
    }

    /** The key of the last entry on the list. */
    lemma TailIsLast()
      requires Shape() && order != []
      ensures tail == Some(order[|order| - 1]) && tail.value < |slots| && slots[tail.value].Some?
      ensures var k := slots[tail.value].value.key;
              && k in index && index[k] == tail.value
              && Without(Contents(), k) == Contents()[..|order| - 1]
              && Contents()[|order| - 1].0 == k
              && Lookup(Contents(), k) == Some(Contents()[|order| - 1].1)
    {
      var n := |order|;
      assert LinkedAt(slots, order, n - 1) && order[n - 1] in order;
      var k := slots[order[n - 1]].value.key;
      EntriesAt(Payload(slots), order, index, k);
      LookupAt(Contents(), n - 1);
      assert Contents()[n..] == [];
    }

    method EvictTail() returns (out: Option<(K, V)>)
      requires Shape()
      modifies this
      ensures Shape() && |slots| == |old(slots)|
      ensures old(order) == [] ==> out == None && Contents() == []
      ensures old(order) != [] ==> Contents() == old(Contents())[..|old(order)| - 1]
      ensures old(order) != [] ==> out == Some(old(Contents())[|old(order)| - 1])
    {
      if tail.None? {
        assert order == [];
        return None;
      }
      TailIsLast();
      hide LinkedAt, Entries, Indexed, Sorted, Payload, Lookup, Without;
      var idx := tail.value;
      var k := slots[idx].value.key;
      var e := Release(idx, k);
      out := Some(e);
    }

    method Insert(k: K, v: V)
      requires Shape() && k !in index
      modifies this
      ensures Shape() && Contents() == [(k, v)] + old(Contents()) && |index| == |order| == |old(order)| + 1
      ensures |slots| == |old(slots)| || |slots| == |order|
    {
      hide LinkedAt, Entries, Payload;
      var idx := Take(k, v);
      assert |index[k := idx]| == |[idx] + order| == |order| + 1;
      hide Sorted, Indexed;
      PushFront(idx);
      index := index[k := idx];
    }

    lemma IndexFinds(k: K)
      requires Shape()
      ensures k in index <==> Lookup(Contents(), k).Some?
      ensures |Contents()| == |order| == |index|
      ensures |slots| >= |order|
    {
      EntriesAt(Payload(slots), order, index, k);
    }

    method Put(k: K, v: V) returns (out: Option<(K, V)>)
      requires Valid()
      modifies this
      ensures Valid() && Contents() == WithPut(old(Contents()), k, v, capacity)
          && out == Evicted(old(Contents()), k, v, capacity)
    {
      hide Shape, Contents, Lookup, Without;
      IndexFinds(k);
      if k in index {
        SetValue(index[k], k, v);
        MoveToFront(index[k], k);
        return None;
      }
      Insert(k, v);
      IndexFinds(k);
      if |index| > capacity {
        out := EvictTail();
        IndexFinds(k);
      } else {
        out := None;
      }
    }

    lemma KeysAreDistinct()
      requires Shape()
      ensures Distinct(Contents())
    {
      assert forall i :: 0 <= i < |order| ==> order[i] in order;
    }

    method Remove(k: K) returns (r: Option<V>)
      requires Valid()
      modifies this
      ensures Valid() && Contents() == Without(old(Contents()), k) && r == Lookup(old(Contents()), k)
    {
      hide Shape, Contents, Lookup, Without;
      IndexFinds(k);
      LookupMissing(Contents(), k);
      if k !in index { return None; }
      var e := Release(index[k], k);
      r := Some(e.1);
    }

    method Clear()
      requires Valid()
      modifies this
      ensures Valid() && Contents() == [] && slots == []
    {
      slots, free, index, head, tail, order := [], [], map[], None, None, [];
    }

    /** Walk the list from the front. */
    method MruOrder() returns (keys: seq<K>)
      requires Valid()
      ensures |keys| == |Contents()| && forall i :: 0 <= i < |keys| ==> keys[i] == Contents()[i].0
    {
      keys := [];
      var cur := head;
      while cur.Some?
        invariant |keys| <= |order| && cur == At(order, |keys|)
        invariant forall i :: 0 <= i < |keys| ==> keys[i] == Contents()[i].0
        decreases |order| - |keys|
      {
        assert LinkedAt(slots, order, |keys|);
        var slot := slots[cur.value].value;
        keys := keys + [slot.key];
        cur := slot.next;
      }
    }
  }
}
