/** Directory listings cached beside the tree they came from. */
module DirCache {
  import opened Wrappers
  import opened Paths
  import opened Lru
  import opened MemFileSystem
  import ByteOrder

  type Listings = seq<(Bytes, seq<DirEntry>)>

  /** `out` is what reading `path` gives now. */
  ghost predicate IsFresh(nodes: Nodes, path: Bytes, out: seq<DirEntry>) {
    && Components(path) in View(nodes) && View(nodes)[Components(path)] == Dir
    && IsListing(nodes, Walk(nodes, Components(path)).value, out)
  }

  ghost predicate Coherent(nodes: Nodes, cached: Listings) {
    forall e :: e in cached ==> IsFresh(nodes, e.0, e.1)
  }

  predicate AllCanonical(cached: Listings) {
    forall e :: e in cached ==> IsCanonical(e.0)
  }

  function Front(names: seq<Bytes>): seq<Bytes>
    requires names != []
  {
    names[..|names| - 1]
  }

  /** No cached path names the parent directory of `path` in other letters than
      the ones that are invalidated. */
  predicate AliasFree(cached: Listings, path: Bytes) {
    Components(path) != [] ==> forall e :: e in cached && Components(e.0) == Front(Components(path)) ==>
        e.0 == ParentString(path)
  }

  function Names(out: seq<DirEntry>): (names: seq<Bytes>)
    ensures |names| == |out|
  {
    seq(|out|, i requires 0 <= i < |out| => out[i].name)
  }

  lemma NamesAscend(out: seq<DirEntry>)
    requires forall i, j :: 0 <= i < j < |out| ==> ByteOrder.Less(out[i].name, out[j].name)
    ensures ByteOrder.Ascending(Names(out))
  {
    hide ByteOrder.Less;
  }

  lemma SameNames(nodes: Nodes, d: nat, a: seq<DirEntry>, b: seq<DirEntry>)
    requires IsListing(nodes, d, a) && IsListing(nodes, d, b)
    ensures forall n :: n in Names(a) ==> n in Names(b)
  {
    forall n | n in Names(a) ensures n in Names(b) {
      var i :| 0 <= i < |a| && Names(a)[i] == n;
      assert a[i] in a && IsChild(nodes, d, n, a[i].ino);
      var e :| e in b && e.name == n && e.ino == a[i].ino;
      var j :| 0 <= j < |b| && b[j] == e;
      assert Names(b)[j] == n;
    }
  }

  /** A directory has one listing. */
  lemma ListingIsUnique(nodes: Nodes, d: nat, a: seq<DirEntry>, b: seq<DirEntry>)
    requires IsListing(nodes, d, a) && IsListing(nodes, d, b)
    ensures a == b
  {
    hide ByteOrder.Less;
    SameNames(nodes, d, a, b);
    SameNames(nodes, d, b, a);
    NamesAscend(a);
    NamesAscend(b);
    forall n ensures n in Names(a) <==> n in Names(b) {}
    ByteOrder.AscendingIsUnique(Names(a), Names(b));
    forall i | 0 <= i < |a| ensures a[i] == b[i] {
      assert Names(a)[i] == Names(b)[i] && a[i] in a && b[i] in b;
      assert IsChild(nodes, d, a[i].name, a[i].ino) && IsChild(nodes, d, a[i].name, b[i].ino);
    }
  }

  // ------------------------------------------------- what a mutation leaves fresh

  /** The two trees differ, seen from outside, at most at `c`. */
  ghost predicate DifferAt(a: Nodes, b: Nodes, c: seq<Bytes>) {
    && SameElsewhere(a, b, c)
    && forall q :: q != c ==> (q in View(a) <==> q in View(b)) && (q in View(a) ==> View(b)[q] == View(a)[q])
  }

  /** Nothing about `c` that its parent's listing shows has changed. */
  ghost predicate ShownAlike(a: Nodes, b: Nodes, c: seq<Bytes>) {
    && (c in View(a) <==> c in View(b))
    && (c in View(a) ==> Walk(a, c) == Walk(b, c) && (View(a)[c] == Dir <==> View(b)[c] == Dir))
  }

  /** A child of directory `p`, in both trees. */
  lemma SameChild(a: Nodes, na: nat, b: Nodes, nb: nat, c: seq<Bytes>, p: seq<Bytes>, n: Bytes)
    requires Tree(a, na) && Tree(b, nb) && DifferAt(a, b, c) && p != c && Walk(a, p).Ok?
    requires p + [n] != c || ShownAlike(a, b, c)
    ensures Walk(b, p) == Walk(a, p)
    ensures var d := Walk(a, p).value; forall i :: IsChild(a, d, n, i) <==> IsChild(b, d, n, i)
    ensures var d := Walk(a, p).value; forall i :: IsChild(a, d, n, i) ==> i in a && i in b && a[i].kind == b[i].kind
  {
    ChildrenOnPath(a, na, p, n);
    ChildrenOnPath(b, nb, p, n);
    hide Tree, StepInto, Walk, View;
    var d := Walk(a, p).value;
  }

  lemma ListingStays(a: Nodes, b: Nodes, d: nat, out: seq<DirEntry>)
    requires forall n, i :: IsChild(a, d, n, i) <==> IsChild(b, d, n, i)
    requires forall n, i :: IsChild(a, d, n, i) ==> i in a && i in b && a[i].kind == b[i].kind
    requires IsListing(a, d, out)
    ensures IsListing(b, d, out)
  {
    hide IsChild, ByteOrder.Less;
  }

  lemma SameChildAt(a: Nodes, na: nat, b: Nodes, nb: nat, c: seq<Bytes>, p: seq<Bytes>, n: Bytes)
    requires Tree(a, na) && Tree(b, nb) && DifferAt(a, b, c) && p != c && Walk(a, p).Ok?
    requires c == [] || p != Front(c) || ShownAlike(a, b, c)
    ensures Walk(b, p) == Walk(a, p)
    ensures var d := Walk(a, p).value; forall i :: IsChild(a, d, n, i) <==> IsChild(b, d, n, i)
    ensures var d := Walk(a, p).value; forall i :: IsChild(a, d, n, i) ==> i in a && i in b && a[i].kind == b[i].kind
  {
    if p + [n] == c { assert c[..|c| - 1] == p; }
    hide Tree, Walk, View, ShownAlike, IsChild;
    SameChild(a, na, b, nb, c, p, n);
  }

  lemma FreshStays(a: Nodes, na: nat, b: Nodes, nb: nat, c: seq<Bytes>, path: Bytes, out: seq<DirEntry>)
    requires Tree(a, na) && Tree(b, nb) && DifferAt(a, b, c) && IsFresh(a, path, out)
    requires Components(path) != c
    requires c == [] || Components(path) != Front(c) || ShownAlike(a, b, c)
    ensures IsFresh(b, path, out)
  {
    var p := Components(path);
    assert Walk(a, p).Ok?;
    hide Tree, Walk, View, IsListing, IsChild, ShownAlike, Components;
    forall n, i ensures IsChild(a, Walk(a, p).value, n, i) <==> IsChild(b, Walk(a, p).value, n, i) {
      SameChildAt(a, na, b, nb, c, p, n);
    }
    forall n, i | IsChild(a, Walk(a, p).value, n, i) ensures i in a && i in b && a[i].kind == b[i].kind {
      SameChildAt(a, na, b, nb, c, p, n);
    }
    SameChildAt(a, na, b, nb, c, p, []);
    ListingStays(a, b, Walk(a, p).value, out);
  }

  lemma InViewResolves(nodes: Nodes, p: seq<Bytes>)
    ensures p in View(nodes) ==> Walk(nodes, p).Ok?
  {}

  /** The parent's old listing is wrong once an entry has come or gone. */
  lemma FreshGoesStale(a: Nodes, na: nat, b: Nodes, nb: nat, c: seq<Bytes>, path: Bytes, out: seq<DirEntry>)
    requires Tree(a, na) && Tree(b, nb) && DifferAt(a, b, c) && IsFresh(a, path, out)
    requires c != [] && Components(path) == Front(c) && !(c in View(a) <==> c in View(b))
    ensures !IsFresh(b, path, out)
  {
    var p, n := Front(c), c[|c| - 1];
    hide Tree, Walk, View, IsListing, Components, ParentString;
    assert p + [n] == c;
    InViewResolves(a, p);
    InViewResolves(b, p);
    ListingShowsView(a, na, p, out, n);
    if IsFresh(b, path, out) {
      ListingShowsView(b, nb, p, out, n);
    }
  }

  /** Invalidating the textual parent keeps the rest of the cache right, exactly
      when no other cached path is an alias of that directory. */
  lemma InvalidationIff(a: Nodes, na: nat, b: Nodes, nb: nat, path: Bytes, cached: Listings)
    requires Tree(a, na) && Tree(b, nb) && DifferAt(a, b, Components(path)) && Coherent(a, cached) && Distinct(cached)
    requires Components(path) != [] && !(Components(path) in View(a) && View(a)[Components(path)] == Dir)
    requires !(Components(path) in View(a) <==> Components(path) in View(b))
    ensures Coherent(b, Without(cached, ParentString(path))) <==> AliasFree(cached, path)
  {
    hide Tree, Walk, View, IsListing, DifferAt, Without, Distinct, Components;
    var c := Components(path);
    WithoutMembers(cached, ParentString(path));
    forall e | e in cached ensures IsFresh(b, e.0, e.1) <==> Components(e.0) != Front(c) {
      if Components(e.0) == Front(c) {
        FreshGoesStale(a, na, b, nb, c, e.0, e.1);
      } else {
        FreshStays(a, na, b, nb, c, e.0, e.1);
      }
    }
    hide IsFresh;
    if Coherent(b, Without(cached, ParentString(path))) {
      forall e | e in cached && Components(e.0) == Front(c) ensures e.0 == ParentString(path) {
        assert e in Without(cached, ParentString(path)) <==> e.0 != ParentString(path);
      }
    }
  }

  /** Overwriting a file shows in no listing. */
  lemma OverwriteIsUnseen(a: Nodes, na: nat, b: Nodes, nb: nat, path: Bytes, cached: Listings, k: Bytes)
    requires Tree(a, na) && Tree(b, nb) && DifferAt(a, b, Components(path)) && Coherent(a, cached) && Distinct(cached)
    requires ShownAlike(a, b, Components(path)) && !(Components(path) in View(a) && View(a)[Components(path)] == Dir)
    ensures Coherent(b, Without(cached, k))
  {
    hide Tree, Walk, View, IsListing, DifferAt, Without, Distinct, Components, ShownAlike;
    WithoutMembers(cached, k);
    forall e | e in cached ensures IsFresh(b, e.0, e.1) {
      FreshStays(a, na, b, nb, Components(path), e.0, e.1);
    }
  }

  /** Canonical paths have no aliases. */
  lemma CanonicalHasNoAlias(cached: Listings, path: Bytes)
    requires AllCanonical(cached) && IsCanonical(path)
    ensures AliasFree(cached, path)
  {
    var c := Components(path);
    ComponentsAreNames(path);
    hide Components, ParentString, Canonical;
    if c != [] {
      ParentOfCanonical(c);
    }
  }

  lemma AddedDiffers(a: Nodes, b: Nodes, c: seq<Bytes>, e: Entry)
    requires View(b) == View(a)[c := e] && SameElsewhere(a, b, c)
    ensures DifferAt(a, b, c) && c in View(b) && View(b)[c] == e
  {
    hide View, Walk;
  }

  lemma RemovedDiffers(a: Nodes, b: Nodes, c: seq<Bytes>)
    requires View(b) == View(a) - {c} && SameElsewhere(a, b, c)
    ensures DifferAt(a, b, c) && c !in View(b)
  {
    hide View, Walk;
  }

  lemma CanonicalStays(cached: Listings, k: Bytes)
    requires AllCanonical(cached) && Distinct(cached)
    ensures AllCanonical(Without(cached, k))
  {
    hide IsCanonical, Without;
    WithoutMembers(cached, k);
  }

  lemma ReadKeeps(nodes: Nodes, cached: Listings, path: Bytes, out: seq<DirEntry>, capacity: nat)
    requires Coherent(nodes, cached) && Distinct(cached)
    ensures Coherent(nodes, Touched(cached, path))
    ensures Lookup(cached, path).Some? ==> IsFresh(nodes, path, Lookup(cached, path).value)
    ensures IsFresh(nodes, path, out) ==> Coherent(nodes, WithPut(cached, path, out, capacity))
    ensures AllCanonical(cached) ==> AllCanonical(Touched(cached, path))
    ensures AllCanonical(cached) && IsCanonical(path) ==> AllCanonical(WithPut(cached, path, out, capacity))
  {
    hide IsFresh, Lookup, Touched, WithPut, Distinct, IsCanonical;
    LookupIn(cached, path);
    TouchedMembers(cached, path);
    WithPutMembers(cached, path, out, capacity);
  }

  // ---------------------------------------------------------------- the pair

  datatype FsOp =
    | OpReadDir(path: Bytes)
    | OpMkdir(path: Bytes)
    | OpWriteFile(path: Bytes, data: Bytes)
    | OpRemoveFile(path: Bytes)

  datatype FsAnswer =
    | Listed(listing: Result<seq<DirEntry>, FsError>)
    | Inode(ino: Result<nat, FsError>)
    | Removed(done: Result<bool, FsError>)

  /** An operation answers, and changes the tree, as one without a cache does. */
  ghost predicate AnswersLike(op: FsOp, a: Nodes, m: nat, b: Nodes, n: nat, answer: FsAnswer) {
    match op
    case OpReadDir(path) => answer.Listed? && b == a && n == m && ReadsAs(a, path, answer.listing)
    case OpMkdir(path) => answer.Inode? && Makes(a, m, path, b, n, answer.ino)
    case OpWriteFile(path, data) => answer.Inode? && Writes(a, m, path, data, b, n, answer.ino)
    case OpRemoveFile(path) => answer.Removed? && Removes(a, m, path, b, n, answer.done)
  }

  /** There is one answer to a read. */
  lemma ReadIsUnique(nodes: Nodes, path: Bytes, a: Result<seq<DirEntry>, FsError>, b: Result<seq<DirEntry>, FsError>)
    requires ReadsAs(nodes, path, a) && ReadsAs(nodes, path, b)
    ensures a == b
  {
    hide Components, View, Walk, IsListing;
    if a.Ok? { ListingIsUnique(nodes, Walk(nodes, Components(path)).value, a.value, b.value); }
  }

  lemma FreshIsRead(nodes: Nodes, path: Bytes, hit: seq<DirEntry>)
    requires IsFresh(nodes, path, hit)
    ensures ReadsAs(nodes, path, Ok(hit))
  {
    hide Walk, IsListing, Components;
  }

  lemma ReadIsFresh(nodes: Nodes, path: Bytes, out: seq<DirEntry>)
    requires ReadsAs(nodes, path, Ok(out))
    ensures IsFresh(nodes, path, out)
  {
    hide View, Walk, IsListing, Components;
  }

  lemma MadeIsNew(nodes: Nodes, path: Bytes)
    ensures WhyNot(View(nodes), Components(path)).None? ==> Components(path) != []
  {}

  /** A tree and the listings cached from it; nothing else touches either. */
  class CachedFs {
    const fs: MemFs
    const cache: LruCache<Bytes, seq<DirEntry>>

    ghost predicate Valid()
      reads this, fs, cache
    {
      fs.Valid() && cache.Valid()
    }

    /** Every cached listing is what the tree would answer now. */
    ghost predicate IsCoherent()
      reads this, fs, cache
      requires Valid()
    {
      Coherent(fs.nodes, cache.Contents())
    }

    /** Coherent, with canonical paths only. */
    ghost predicate Good()
      reads this, fs, cache
    {
      Valid() && IsCoherent() && AllCanonical(cache.Contents())
    }

    constructor (fs: MemFs, capacity: nat)
      requires fs.Valid()
      ensures Good() && this.fs == fs && fresh(cache) && cache.capacity == capacity && cache.Contents() == []
    {
      this.fs := fs;
      cache := new LruCache(capacity);
    }

    /** The cached listing if there is one; while the cache is coherent, exactly
        the answer of the tree. */
    method ReadDir(path: Bytes) returns (r: Result<seq<DirEntry>, FsError>)
      requires Valid()
      modifies cache
      ensures Valid() && (old(IsCoherent()) ==> IsCoherent())
      ensures old(IsCoherent()) ==> ReadsAs(fs.nodes, path, r)
      ensures old(Good()) && IsCanonical(path) ==> Good()
      ensures var hit := Lookup(old(cache.Contents()), path); hit.Some? ==> r == Ok(hit.value)
      ensures Lookup(old(cache.Contents()), path).Some? || r.Err? ==>
          cache.Contents() == Touched(old(cache.Contents()), path)
      ensures Lookup(old(cache.Contents()), path).None? && r.Ok? ==>
                cache.Contents() == WithPut(old(cache.Contents()), path, r.value, cache.capacity)
    {
      hide Tree, View, Walk, IsListing, Lookup, WithPut, Evicted, Components, Coherent, AllCanonical, Distinct,
          ReadsAs, IsFresh, IsCanonical;
      cache.KeysAreDistinct();
      ghost var before := cache.Contents();
      if Coherent(fs.nodes, before) { ReadKeeps(fs.nodes, before, path, [], cache.capacity); }
      var hit := cache.Get(path);
      if hit.Some? {
        if Coherent(fs.nodes, before) { FreshIsRead(fs.nodes, path, hit.value); }
        return Ok(hit.value);
      }
      assert cache.Contents() == before;
      r := fs.ReadDir(path);
      if r.Ok? {
        ReadIsFresh(fs.nodes, path, r.value);
        if Coherent(fs.nodes, before) { ReadKeeps(fs.nodes, before, path, r.value, cache.capacity); }
        var _ := cache.Put(path, r.value);
      }
    }

    method InvalidateParentOf(path: Bytes)
      requires cache.Valid()
      modifies cache
      ensures cache.Valid() && cache.Contents() == Without(old(cache.Contents()), ParentString(path))
    {
      var _ := cache.Remove(ParentString(path));
    }

    method Mkdir(path: Bytes) returns (r: Result<nat, FsError>)
      requires Valid()
      modifies fs, cache
      ensures Valid() && Makes(old(fs.nodes), old(fs.nextIno), path, fs.nodes, fs.nextIno, r)
      ensures r.Err? ==> cache.Contents() == old(cache.Contents())
      ensures r.Ok? ==> cache.Contents() == Without(old(cache.Contents()), ParentString(path))
      ensures old(IsCoherent()) ==> (IsCoherent() <==> r.Err? || AliasFree(old(cache.Contents()), path))
      ensures old(Good()) && IsCanonical(path) ==> Good()
    {
      cache.KeysAreDistinct();
      hide Tree, View, Walk, WhyNot, SameElsewhere, Without, Components, Coherent, AllCanonical, AliasFree,
          Distinct;
      ghost var a, na, before := fs.nodes, fs.nextIno, cache.Contents();
      r := fs.Mkdir(path);
      if r.Ok? {
        MadeIsNew(a, path);
        AddedDiffers(a, fs.nodes, Components(path), Dir);
        if Coherent(a, before) { InvalidationIff(a, na, fs.nodes, fs.nextIno, path, before); }
        if AllCanonical(before) { CanonicalStays(before, ParentString(path)); }
        if AllCanonical(before) && IsCanonical(path) { CanonicalHasNoAlias(before, path); }
        InvalidateParentOf(path);
      }
    }

    method WriteFile(path: Bytes, data: Bytes) returns (r: Result<nat, FsError>)
      requires Valid()
      modifies fs, cache
      ensures Valid() && Writes(old(fs.nodes), old(fs.nextIno), path, data, fs.nodes, fs.nextIno, r)
      ensures r.Err? ==> cache.Contents() == old(cache.Contents())
      ensures r.Ok? ==> cache.Contents() == Without(old(cache.Contents()), ParentString(path))
      ensures old(IsCoherent()) ==>
                (IsCoherent() <==>
                  r.Err? || Components(path) in View(old(fs.nodes)) || AliasFree(old(cache.Contents()), path))
      ensures old(Good()) && IsCanonical(path) ==> Good()
    {
      cache.KeysAreDistinct();
      hide Tree, View, Walk, WhyNot, SameElsewhere, Without, Components, Coherent, AllCanonical, AliasFree,
          Distinct;
      ghost var a, na, before := fs.nodes, fs.nextIno, cache.Contents();
      r := fs.WriteFile(path, data);
      if r.Ok? {
        MadeIsNew(a, path);
        AddedDiffers(a, fs.nodes, Components(path), FileOf(data));
        if Coherent(a, before) {
          if Components(path) in View(a) {
            OverwriteIsUnseen(a, na, fs.nodes, fs.nextIno, path, before, ParentString(path));
          } else {
            InvalidationIff(a, na, fs.nodes, fs.nextIno, path, before);
          }
        }
        if AllCanonical(before) { CanonicalStays(before, ParentString(path)); }
        if AllCanonical(before) && IsCanonical(path) { CanonicalHasNoAlias(before, path); }
        InvalidateParentOf(path);
      }
    }

    method RemoveFile(path: Bytes) returns (r: Result<bool, FsError>)
      requires Valid()
      modifies fs, cache
      ensures Valid() && Removes(old(fs.nodes), old(fs.nextIno), path, fs.nodes, fs.nextIno, r)
      ensures r.Err? ==> cache.Contents() == old(cache.Contents())
      ensures r.Ok? ==> cache.Contents() == Without(old(cache.Contents()), ParentString(path))
      ensures old(IsCoherent()) ==> (IsCoherent() <==> r.Err? || AliasFree(old(cache.Contents()), path))
      ensures old(Good()) && IsCanonical(path) ==> Good()
    {
      cache.KeysAreDistinct();
      hide Tree, View, Walk, WhyNot, SameElsewhere, Without, Components, Coherent, AllCanonical, AliasFree,
          Distinct;
      ghost var a, na, before := fs.nodes, fs.nextIno, cache.Contents();
      r := fs.RemoveFile(path);
      if r.Ok? {
        MadeIsNew(a, path);
        RemovedDiffers(a, fs.nodes, Components(path));
        if Coherent(a, before) { InvalidationIff(a, na, fs.nodes, fs.nextIno, path, before); }
        if AllCanonical(before) { CanonicalStays(before, ParentString(path)); }
        if AllCanonical(before) && IsCanonical(path) { CanonicalHasNoAlias(before, path); }
        InvalidateParentOf(path);
      }
    }

    lemma ValidWhenGood()
      requires Good()
      ensures Valid()
    {}

    method Perform(op: FsOp) returns (answer: FsAnswer)
      requires Good() && IsCanonical(op.path)
      modifies fs, cache
      ensures Good() && AnswersLike(op, old(fs.nodes), old(fs.nextIno), fs.nodes, fs.nextIno, answer)
    {
      ValidWhenGood();
      hide Good, IsCanonical, ReadsAs, Makes, Writes, Removes, Lookup;
      match op {
        case OpReadDir(path) =>
          var r := ReadDir(path);
          return Listed(r);
        case OpMkdir(path) =>
          var r := Mkdir(path);
          return Inode(r);
        case OpWriteFile(path, data) =>
          var r := WriteFile(path, data);
          return Inode(r);
        case OpRemoveFile(path) =>
          var r := RemoveFile(path);
          return Removed(r);
      }
    }

    /** Any run on canonical paths answers as a tree without a cache does; `trees` are
        the trees it goes through, each with its next inode. */
    method Run(ops: seq<FsOp>) returns (answers: seq<FsAnswer>, ghost trees: seq<(Nodes, nat)>)
      requires Good() && forall op :: op in ops ==> IsCanonical(op.path)
      modifies fs, cache
      ensures Good() && |answers| == |ops| && |trees| == |ops| + 1
      ensures trees[0] == old((fs.nodes, fs.nextIno)) && trees[|ops|] == (fs.nodes, fs.nextIno)
      ensures forall i :: 0 <= i < |ops| ==>
                AnswersLike(ops[i], trees[i].0, trees[i].1, trees[i + 1].0, trees[i + 1].1, answers[i])
    {
      hide Good, IsCanonical, AnswersLike;
      answers, trees := [], [(fs.nodes, fs.nextIno)];
      for i := 0 to |ops|
        invariant Good() && |answers| == i && |trees| == i + 1
        invariant trees[0] == old((fs.nodes, fs.nextIno)) && trees[i] == (fs.nodes, fs.nextIno)
        invariant forall k :: 0 <= k < i ==>
                    AnswersLike(ops[k], trees[k].0, trees[k].1, trees[k + 1].0, trees[k + 1].1, answers[k])
      {
        assert ops[i] in ops;
        var answer := Perform(ops[i]);
        answers, trees := answers + [answer], trees + [(fs.nodes, fs.nextIno)];
      }
    }

    method InvalidateAll()
      requires Valid()
      modifies cache
      ensures Good() && cache.Contents() == []
    {
      cache.Clear();
    }
  }

  lemma NoComponents()
    ensures Components([]) == []
  {}

  lemma OneName()
    ensures Components([]) == [] && Components([SLASH, 97]) == [[97]] && ParentString([SLASH, 97]) == [SLASH]
  {
    var name: Bytes := [97];
    var one: seq<Bytes> := [name];
    assert one[1..] == [] && one[..0] == [];
    assert one[0] == name && Join(one[1..]) == [];
    assert Join(one) == [SLASH] + name + [];
    assert Canonical(one) == [SLASH, 97];
    hide Parts, Join, BeforeLastSlash;
    ComponentsOfCanonical(one);
    ComponentsOfCanonical([]);
    ParentOfCanonical(one);
    NoComponents();
  }

  lemma RootAlias(nodes: Nodes)
    requires View(nodes) == imap[[] := Dir]
    ensures Components([]) == [] && Components([SLASH, 97]) == [[97]] && ParentString([SLASH, 97]) == [SLASH]
    ensures WhyNot(View(nodes), [[97]]).None? && [[97]] !in View(nodes)
  {
    OneName();
    hide Components, ParentString, StepInto;
    var one: seq<Bytes> := [[97]];
    assert one[..0] == [];
    assert Walk(nodes, []) == Ok(ROOT) && [] in View(nodes);
  }

  lemma OneStale(nodes: Nodes, out: seq<DirEntry>)
    requires Components([]) == [] && Components([SLASH, 97]) == [[97]] && ParentString([SLASH, 97]) == [SLASH]
    ensures !AliasFree([([], out)], [SLASH, 97])
    ensures !Coherent(nodes, [([], out)]) ==> !IsFresh(nodes, [], out)
  {
    hide IsFresh, Components, ParentString;
    var e: (Bytes, seq<DirEntry>) := ([], out);
    assert e in [([], out)];
  }

  lemma StillThere(out: seq<DirEntry>, capacity: nat)
    requires capacity >= 1
    ensures var s: Listings := []; Lookup(s, []).None? && WithPut(s, [], out, capacity) == [([], out)]
    ensures var s: Listings := [([], out)];
            Without(s, [SLASH]) == s && Lookup(s, []) == Some(out) && s[0] in s
  {}

  /** Reading the root as an empty path leaves a listing that a new "/a" does not invalidate. */
  method StaleAlias(capacity: nat) returns (shown: Result<seq<DirEntry>, FsError>, actual: Result<seq<DirEntry>,
      FsError>)
    requires capacity >= 1
    ensures shown.Ok? && actual.Ok? && shown != actual
  {
    hide View, Walk, WhyNot, Components, ParentString, IsFresh, Lookup, Without, SameElsewhere, AliasFree,
        Coherent, AllCanonical, IsListing, WithPut;
    var fs := new MemFs();
    var c := new CachedFs(fs, capacity);
    RootAlias(c.fs.nodes);
    var first := c.ReadDir([]);
    StillThere(first.value, capacity);
    var made := c.Mkdir([SLASH, 97]);
    OneStale(c.fs.nodes, first.value);
    shown := c.ReadDir([]);
    actual := c.fs.ReadDir([]);
    assert IsFresh(c.fs.nodes, [], actual.value) by { ReadIsFresh(c.fs.nodes, [], actual.value); }
  }
}
