/** Slash-separated paths. */
module Paths {
  import opened Wrappers

  const SLASH: byte := 47

  predicate IsName(name: Bytes) {
    name != [] && SLASH !in name
  }

  predicate AreNames(names: seq<Bytes>) {
    forall n :: n in names ==> IsName(n)
  }

  /** The non-empty parts of a path, the first one continuing `cur`. */
  function Parts(path: Bytes, cur: Bytes): seq<Bytes> {
    if path == [] then (if cur == [] then [] else [cur])
    else if path[0] == SLASH then (if cur == [] then [] else [cur]) + Parts(path[1..], [])
    else Parts(path[1..], cur + [path[0]])
  }

  function Components(path: Bytes): seq<Bytes> {
    Parts(path, [])
  }

  lemma {:induction false} PartsAreNames(path: Bytes, cur: Bytes)
    requires SLASH !in cur
    ensures AreNames(Parts(path, cur))
    decreases |path|
  {
    if path != [] { PartsAreNames(path[1..], if path[0] == SLASH then [] else cur + [path[0]]); }
  }

  lemma ComponentsAreNames(path: Bytes)
    ensures AreNames(Components(path))
  {
    PartsAreNames(path, []);
  }

  /** The one way to write a path without empty parts. */
  function Join(names: seq<Bytes>): Bytes {
    if names == [] then [] else [SLASH] + names[0] + Join(names[1..])
  }

  function Canonical(names: seq<Bytes>): Bytes {
    if names == [] then [SLASH] else Join(names)
  }

  predicate IsCanonical(path: Bytes) {
    path == Canonical(Components(path))
  }

  lemma {:induction false} PartsOfName(name: Bytes, rest: Bytes, cur: Bytes)
    requires SLASH !in name
    ensures Parts(name + rest, cur) == Parts(rest, cur + name)
    decreases |name|
  {
    if name == [] {
      assert name + rest == rest && cur + name == cur;
    } else {
      assert (name + rest)[1..] == name[1..] + rest;
      PartsOfName(name[1..], rest, cur + [name[0]]);
      assert (cur + [name[0]]) + name[1..] == cur + name;
    }
  }

  lemma {:induction false} PartsOfJoin(names: seq<Bytes>, cur: Bytes)
    requires AreNames(names)
    ensures Parts(Join(names), cur) == (if cur == [] then [] else [cur]) + names
    decreases |names|
  {
    if names != [] { assert names[0] in names; }
    if names == [] {
      assert (if cur == [] then [] else [cur]) + names == (if cur == [] then [] else [cur]);
    } else {
      var rest := names[0] + Join(names[1..]);
      assert Join(names) == [SLASH] + rest && Join(names)[1..] == rest;
      assert Parts(Join(names), cur) == (if cur == [] then [] else [cur]) + Parts(rest, []);
      PartsOfName(names[0], Join(names[1..]), []);
      assert [] + names[0] == names[0];
      PartsOfJoin(names[1..], names[0]);
      assert [names[0]] + names[1..] == names;
    }
  }

  /** Names written as a path and split again. */
  lemma ComponentsOfCanonical(names: seq<Bytes>)
    requires AreNames(names)
    ensures Components(Canonical(names)) == names && IsCanonical(Canonical(names))
  {
    PartsOfJoin(names, []);
    assert [] + names == names;
    if names == [] { assert Parts([SLASH], []) == [] + Parts([], []); }
  }

  lemma {:induction false} PartsAround(a: Bytes, b: Bytes, cur: Bytes)
    ensures Parts(a + [SLASH] + b, cur) == Parts(a, cur) + Parts(b, [])
    decreases |a|
  {
    var path := a + [SLASH] + b;
    if a == [] {
      assert path[1..] == b;
    } else {
      assert path[1..] == a[1..] + [SLASH] + b;
      PartsAround(a[1..], b, if a[0] == SLASH then [] else cur + [a[0]]);
    }
  }

  /** How any path splits: a slash separates the parts before it from those behind, a
      text without slash is one part, and none at all is no part. */
  lemma ComponentsSplit(a: Bytes, b: Bytes)
    ensures Components(a + [SLASH] + b) == Components(a) + Components(b)
    ensures SLASH !in a ==> Components(a) == if a == [] then [] else [a]
  {
    PartsAround(a, b, []);
    if SLASH !in a {
      PartsOfName(a, [], []);
      assert a + [] == a && [] + a == a;
    }
  }

  // ----------------------------------------------------------------- the parent

  /** What `rsplit_once` leaves in front of the last slash. */
  function BeforeLastSlash(path: Bytes): Option<Bytes> {
    if path == [] then None
    else if path[|path| - 1] == SLASH then Some(path[..|path| - 1])
    else BeforeLastSlash(path[..|path| - 1])
  }

  function ParentString(path: Bytes): Bytes {
    match BeforeLastSlash(path)
    case None => [SLASH]
    case Some(dir) => if dir == [] then [SLASH] else dir
  }

  lemma {:induction false} LastSlashBeforeName(front: Bytes, name: Bytes)
    requires SLASH !in name
    ensures BeforeLastSlash(front + [SLASH] + name) == Some(front)
    decreases |name|
  {
    var path := front + [SLASH] + name;
    if name == [] {
      assert path[..|path| - 1] == front;
    } else {
      var shorter := name[..|name| - 1];
      assert path[..|path| - 1] == front + [SLASH] + shorter;
      LastSlashBeforeName(front, shorter);
    }
  }

  lemma {:induction false} NoSlashBefore(path: Bytes)
    requires SLASH !in path
    ensures BeforeLastSlash(path) == None
  {
    if path != [] { NoSlashBefore(path[..|path| - 1]); }
  }

  /** The textual parent of any path: what stands before the last slash, or the root. */
  lemma ParentStringIs(front: Bytes, name: Bytes)
    requires SLASH !in name
    ensures ParentString(front + [SLASH] + name) == if front == [] then [SLASH] else front
    ensures ParentString(name) == [SLASH]
  {
    LastSlashBeforeName(front, name);
    NoSlashBefore(name);
  }

  lemma {:induction false} JoinSnoc(names: seq<Bytes>, name: Bytes)
    ensures Join(names + [name]) == Join(names) + [SLASH] + name
    decreases |names|
  {
    if names == [] {
      assert [name][1..] == [];
    } else {
      assert (names + [name])[1..] == names[1..] + [name];
      JoinSnoc(names[1..], name);
    }
  }

  /** On canonical paths the textual parent names the parent directory. */
  lemma ParentOfCanonical(names: seq<Bytes>)
    requires AreNames(names) && names != []
    ensures ParentString(Canonical(names)) == Canonical(names[..|names| - 1])
  {
    var front, last := names[..|names| - 1], names[|names| - 1];
    assert last in names && names == front + [last];
    JoinSnoc(front, last);
    LastSlashBeforeName(Join(front), last);
    assert front == [] <==> Join(front) == [];
  }
}
