/** The in-memory file system: a table of numbered nodes, read as a map from paths. */
module MemFileSystem {
  import opened Wrappers
  import opened Paths
  import ByteOrder

  datatype Kind = File | Directory

  datatype Node = Node(kind: Kind, children: map<Bytes, nat>, data: Bytes)

  datatype FsError = NotFound | NotADirectory | IsADirectory | AlreadyExists | InvalidPath | InodeGone

  datatype DirEntry = DirEntry(name: Bytes, ino: nat, kind: Kind)

  type Nodes = map<nat, Node>

  const ROOT: nat := 1

  /** One component of a walk. */
  function StepInto(nodes: Nodes, cur: nat, name: Bytes): Result<nat, FsError> {
    if cur !in nodes then Err(InodeGone)
    else if nodes[cur].kind.File? then Err(NotADirectory)
    else if name in nodes[cur].children then Ok(nodes[cur].children[name])
    else Err(NotFound)
  }

  /** The node a path leads to. */
  function Walk(nodes: Nodes, names: seq<Bytes>): Result<nat, FsError> {
    if names == [] then Ok(ROOT)
    else
      match Walk(nodes, names[..|names| - 1])
      case Err(e) => Err(e)
      case Ok(cur) => StepInto(nodes, cur, names[|names| - 1])
  }

  predicate IsChild(nodes: Nodes, d: nat, name: Bytes, c: nat) {
    d in nodes && name in nodes[d].children && nodes[d].children[name] == c
  }

  ghost predicate Shapes(nodes: Nodes, next: nat) {
    && ROOT in nodes && nodes[ROOT].kind.Directory?
    && (forall i :: i in nodes ==> ROOT <= i < next)
    && (forall i :: i in nodes && nodes[i].kind.File? ==> nodes[i].children == map[])
    && (forall i :: i in nodes && nodes[i].kind.Directory? ==> nodes[i].data == [])
  }

  /** Children exist, are younger than their directory and have proper names. */
  ghost predicate Downward(nodes: Nodes) {
    forall d, n, c :: IsChild(nodes, d, n, c) ==> c in nodes && d < c && IsName(n)
  }

  ghost predicate OneParent(nodes: Nodes) {
    forall d, n, e, m, c :: IsChild(nodes, d, n, c) && IsChild(nodes, e, m, c) ==> d == e && n == m
  }

  ghost predicate NoOrphans(nodes: Nodes) {
    forall c :: c in nodes && c != ROOT ==> exists d, n :: IsChild(nodes, d, n, c)
  }

  /** A tree: every node but the root is the child of exactly one older node under one name. */
  ghost predicate Tree(nodes: Nodes, next: nat) {
    Shapes(nodes, next) && Downward(nodes) && OneParent(nodes) && NoOrphans(nodes)
  }

  /** A walk in a tree never loses a node. */
  lemma {:induction false} WalkStaysInside(nodes: Nodes, next: nat, names: seq<Bytes>)
    requires Tree(nodes, next)
    ensures Walk(nodes, names).Ok? ==> Walk(nodes, names).value in nodes
    ensures Walk(nodes, names) != Err(InodeGone)
  {
    hide OneParent, NoOrphans;
    if names != [] {
      var front, last := names[..|names| - 1], names[|names| - 1];
      WalkStaysInside(nodes, next, front);
      if Walk(nodes, names).Ok? {
        assert IsChild(nodes, Walk(nodes, front).value, last, Walk(nodes, names).value);
      }
    }
  }

  lemma LastStep(nodes: Nodes, next: nat, p: seq<Bytes>)
    requires Tree(nodes, next) && Walk(nodes, p).Ok? && p != []
    ensures Walk(nodes, p[..|p| - 1]).Ok?
    ensures IsChild(nodes, Walk(nodes, p[..|p| - 1]).value, p[|p| - 1], Walk(nodes, p).value)
    ensures Walk(nodes, p).value in nodes && Walk(nodes, p[..|p| - 1]).value < Walk(nodes, p).value
        && Walk(nodes, p).value != ROOT
    ensures IsName(p[|p| - 1])
  {
    hide OneParent, NoOrphans;
    WalkStaysInside(nodes, next, p);
    var d := Walk(nodes, p[..|p| - 1]).value;
    assert IsChild(nodes, d, p[|p| - 1], Walk(nodes, p).value);
    assert d in nodes && ROOT <= d;
  }

  lemma SameParent(nodes: Nodes, d: nat, n: Bytes, e: nat, m: Bytes, c: nat)
    requires OneParent(nodes) && IsChild(nodes, d, n, c) && IsChild(nodes, e, m, c)
    ensures d == e && n == m
  {}

  /** Distinct paths lead to distinct nodes. */
  lemma {:induction false} PathsAreDistinct(nodes: Nodes, next: nat, p: seq<Bytes>, q: seq<Bytes>)
    requires Tree(nodes, next) && Walk(nodes, p).Ok? && Walk(nodes, q) == Walk(nodes, p)
    ensures p == q
    decreases |p|
  {
    hide OneParent, NoOrphans, Downward, Shapes, IsChild, IsName;
    if p != [] { LastStep(nodes, next, p); }
    if q != [] { LastStep(nodes, next, q); }
    if p != [] && q != [] {
      var a, b := p[..|p| - 1], q[..|q| - 1];
      SameParent(nodes, Walk(nodes, a).value, p[|p| - 1], Walk(nodes, b).value, q[|q| - 1], Walk(nodes, p).value);
      PathsAreDistinct(nodes, next, a, b);
      assert p == a + [p[|p| - 1]] && q == b + [q[|q| - 1]];
    }
  }

  /** Every node has a path. */
  lemma {:induction false} EveryNodeHasPath(nodes: Nodes, next: nat, i: nat) returns (names: seq<Bytes>)
    requires Tree(nodes, next) && i in nodes
    ensures Walk(nodes, names) == Ok(i) && AreNames(names)
    decreases i
  {
    if i == ROOT { return []; }
    var d, n :| IsChild(nodes, d, n, i);
    var front := EveryNodeHasPath(nodes, next, d);
    names := front + [n];
    assert names[..|front|] == front;
  }

  // ------------------------------------------------------------------- the view

  datatype Entry = Dir | FileOf(data: Bytes)

  function EntryOf(n: Node): Entry {
    if n.kind.Directory? then Dir else FileOf(n.data)
  }

  /** What the file system looks like from outside. */
  ghost function View(nodes: Nodes): imap<seq<Bytes>, Entry> {
    imap p | Walk(nodes, p).Ok? && Walk(nodes, p).value in nodes :: EntryOf(nodes[Walk(nodes, p).value])
  }

  /** Every path but `c` leads where it led. */
  ghost predicate SameElsewhere(a: Nodes, b: Nodes, c: seq<Bytes>) {
    forall p :: p != c ==> (Walk(a, p).Ok? <==> Walk(b, p).Ok?) && (Walk(a, p).Ok? ==> Walk(b, p) == Walk(a, p))
  }

  // ------------------------------------------------------------ adding a node

  function WithChild(nodes: Nodes, d: nat, name: Bytes, c: nat, node: Node): Nodes
    requires d in nodes
  {
    nodes[c := node][d := nodes[d].(children := nodes[d].children[name := c])]
  }

  /** `parent` is a directory at `front` without an entry `name`. */
  ghost predicate Vacant(nodes: Nodes, front: seq<Bytes>, parent: nat, name: Bytes) {
    && Walk(nodes, front) == Ok(parent) && parent in nodes && nodes[parent].kind.Directory?
    && name !in nodes[parent].children
  }

  /** `after` has one more node, the child `name` of `parent`. */
  ghost predicate Grown(nodes: Nodes, after: Nodes, parent: nat, name: Bytes, c: nat) {
    && (forall i :: i in after <==> i in nodes || i == c)
    && (forall d, n, i :: IsChild(after, d, n, i) <==> IsChild(nodes, d, n, i) || (d == parent && n == name && i == c))
  }

  lemma AddGrows(nodes: Nodes, next: nat, front: seq<Bytes>, parent: nat, name: Bytes, node: Node)
    requires Shapes(nodes, next) && Vacant(nodes, front, parent, name)
    requires node.children == map[] && (node.kind.Directory? ==> node.data == [])
    ensures Grown(nodes, WithChild(nodes, parent, name, next, node), parent, name, next)
    ensures Shapes(WithChild(nodes, parent, name, next, node), next + 1)
    ensures parent in nodes && parent < next && next !in nodes
  {}

  lemma GrownDownward(nodes: Nodes, after: Nodes, parent: nat, name: Bytes, c: nat)
    requires Downward(nodes) && Grown(nodes, after, parent, name, c) && parent < c && IsName(name)
    ensures Downward(after)
  {
    hide IsChild, IsName;
  }

  lemma GrownOneParent(nodes: Nodes, after: Nodes, parent: nat, name: Bytes, c: nat)
    requires Downward(nodes) && OneParent(nodes) && Grown(nodes, after, parent, name, c) && c !in nodes
    ensures OneParent(after)
  {
    hide IsChild, IsName;
    forall d, n, e, m, i | IsChild(after, d, n, i) && IsChild(after, e, m, i) ensures d == e && n == m {
      if i != c { SameParent(nodes, d, n, e, m, i); }
    }
  }

  lemma GrownNoOrphans(nodes: Nodes, after: Nodes, parent: nat, name: Bytes, c: nat)
    requires NoOrphans(nodes) && Grown(nodes, after, parent, name, c)
    ensures NoOrphans(after)
  {
    hide IsChild;
    forall i | i in after && i != ROOT ensures exists d, n :: IsChild(after, d, n, i) {
      if i == c {
        assert IsChild(after, parent, name, c);
      } else {
        var d, n :| IsChild(nodes, d, n, i);
        assert IsChild(after, d, n, i);
      }
    }
  }

  lemma AddKeepsTree(nodes: Nodes, next: nat, front: seq<Bytes>, parent: nat, name: Bytes, node: Node)
    requires Tree(nodes, next) && Vacant(nodes, front, parent, name) && IsName(name)
    requires node.children == map[] && (node.kind.Directory? ==> node.data == [])
    ensures Tree(WithChild(nodes, parent, name, next, node), next + 1)
  {
    hide Shapes, Downward, OneParent, NoOrphans, Grown, IsName, WithChild;
    var after := WithChild(nodes, parent, name, next, node);
    AddGrows(nodes, next, front, parent, name, node);
    GrownDownward(nodes, after, parent, name, next);
    GrownOneParent(nodes, after, parent, name, next);
    GrownNoOrphans(nodes, after, parent, name, next);
  }

  lemma AddStep(nodes: Nodes, next: nat, front: seq<Bytes>, parent: nat, name: Bytes, node: Node, cur: nat, x: Bytes)
    requires Shapes(nodes, next) && Vacant(nodes, front, parent, name) && node.children == map[]
    ensures var after := WithChild(nodes, parent, name, next, node);
            && (cur in nodes ==> StepInto(after, cur, x) == if cur == parent && x == name then Ok(next)
                else StepInto(nodes, cur, x))
            && StepInto(after, next, x).Err?
    ensures StepInto(nodes, parent, name).Err?
  {}

  lemma {:induction false} AddWalk(nodes: Nodes, next: nat, front: seq<Bytes>, parent: nat, name: Bytes, node: Node,
      p: seq<Bytes>)
    requires Tree(nodes, next) && Vacant(nodes, front, parent, name) && node.children == map[]
    ensures var after := WithChild(nodes, parent, name, next, node);
            if Walk(nodes, p).Ok? then Walk(after, p) == Walk(nodes, p)
            else if p == front + [name] then Walk(after, p) == Ok(next)
            else Walk(after, p).Err?
    decreases |p|
  {
    hide OneParent, NoOrphans, Downward, Shapes, StepInto, WithChild;
    if p != [] {
      var q, x := p[..|p| - 1], p[|p| - 1];
      assert p == q + [x] && (p == front + [name] <==>
          q == front && x == name) by { assert (front + [name])[..|front|] == front; }
      AddWalk(nodes, next, front, parent, name, node, q);
      WalkStaysInside(nodes, next, q);
      AddStep(nodes, next, front, parent, name, node, if Walk(nodes, q).Ok? then Walk(nodes, q).value else ROOT, x);
      if Walk(nodes, q) == Ok(parent) {
        PathsAreDistinct(nodes, next, q, front);
      }
    }
  }

  lemma AddSame(nodes: Nodes, next: nat, front: seq<Bytes>, parent: nat, name: Bytes, node: Node)
    requires Tree(nodes, next) && Vacant(nodes, front, parent, name) && node.children == map[]
    ensures var after := WithChild(nodes, parent, name, next, node);
            && Walk(after, front + [name]) == Ok(next) && Walk(nodes, front + [name]).Err?
            && SameElsewhere(nodes, after, front + [name])
  {
    var after, c := WithChild(nodes, parent, name, next, node), front + [name];
    assert c[..|front|] == front;
    assert Walk(nodes, c).Err?;
    hide Tree, StepInto, WithChild, Walk;
    AddWalk(nodes, next, front, parent, name, node, c);
    forall p ensures p != c ==> (Walk(nodes, p).Ok? <==> Walk(after, p).Ok?) && (Walk(nodes, p).Ok? ==>
        Walk(after, p) == Walk(nodes, p)) {
      AddWalk(nodes, next, front, parent, name, node, p);
    }
  }

  lemma AllInside(nodes: Nodes, next: nat)
    requires Tree(nodes, next)
    ensures forall p :: Walk(nodes, p).Ok? ==> Walk(nodes, p).value in nodes
  {
    forall p ensures Walk(nodes, p).Ok? ==> Walk(nodes, p).value in nodes { WalkStaysInside(nodes, next, p); }
  }

  /** A change at one path only, seen from outside. */
  lemma ViewAt(a: Nodes, b: Nodes, c: seq<Bytes>, i: nat)
    requires SameElsewhere(a, b, c) && Walk(b, c) == Ok(i) && i in b
    requires forall p :: Walk(a, p).Ok? ==> Walk(a, p).value in a
    requires forall p :: p != c && Walk(a, p).Ok? ==>
        Walk(a, p).value in b && EntryOf(b[Walk(a, p).value]) == EntryOf(a[Walk(a, p).value])
    ensures View(b) == View(a)[c := EntryOf(b[i])]
  {
    hide Walk, EntryOf;
  }

  /** Adding a node puts its path on the view and leaves everything else where it was. */
  lemma AddView(nodes: Nodes, next: nat, front: seq<Bytes>, parent: nat, name: Bytes, node: Node)
    requires Tree(nodes, next) && Vacant(nodes, front, parent, name) && node.children == map[]
    ensures var after := WithChild(nodes, parent, name, next, node);
            && View(after) == View(nodes)[front + [name] := EntryOf(node)]
            && Walk(after, front + [name]) == Ok(next) && Walk(nodes, front + [name]).Err?
            && SameElsewhere(nodes, after, front + [name])
  {
    var after, c := WithChild(nodes, parent, name, next, node), front + [name];
    forall i | i in nodes ensures i in after && EntryOf(after[i]) == EntryOf(nodes[i]) {}
    assert next in after && EntryOf(after[next]) == EntryOf(node);
    AddSame(nodes, next, front, parent, name, node);
    AllInside(nodes, next);
    hide Tree, StepInto, WithChild, Walk, Vacant, View, EntryOf;
    ViewAt(nodes, after, c, next);
  }

  lemma ViewWithout(a: Nodes, b: Nodes, c: seq<Bytes>)
    requires SameElsewhere(a, b, c) && Walk(b, c).Err?
    requires forall p :: Walk(a, p).Ok? ==> Walk(a, p).value in a
    requires forall p :: p != c && Walk(a, p).Ok? ==>
        Walk(a, p).value in b && EntryOf(b[Walk(a, p).value]) == EntryOf(a[Walk(a, p).value])
    ensures View(b) == View(a) - {c}
  {
    hide Walk, EntryOf;
  }

  // ------------------------------------------------------- overwriting a file

  function WithData(nodes: Nodes, c: nat, data: Bytes): Nodes
    requires c in nodes
  {
    nodes[c := nodes[c].(data := data)]
  }

  /** Trees that only differ in file contents. */
  lemma SameChildrenSameTree(nodes: Nodes, after: Nodes, next: nat)
    requires Tree(nodes, next) && Shapes(after, next)
    requires (forall i :: i in after <==> i in nodes) && forall d, n, i :: IsChild(after, d, n, i) <==>
        IsChild(nodes, d, n, i)
    ensures Tree(after, next)
  {
    hide IsChild, IsName, Shapes;
  }

  lemma OverwriteKeepsTree(nodes: Nodes, next: nat, c: nat, data: Bytes)
    requires Tree(nodes, next) && c in nodes && nodes[c].kind.File?
    ensures Tree(WithData(nodes, c, data), next)
  {
    hide Downward, OneParent, NoOrphans;
    var after := WithData(nodes, c, data);
    assert forall d, n, i :: IsChild(after, d, n, i) <==> IsChild(nodes, d, n, i);
    SameChildrenSameTree(nodes, after, next);
  }

  lemma {:induction false} OverwriteWalk(nodes: Nodes, c: nat, data: Bytes, p: seq<Bytes>)
    requires c in nodes
    ensures Walk(WithData(nodes, c, data), p) == Walk(nodes, p)
  {
    if p != [] { OverwriteWalk(nodes, c, data, p[..|p| - 1]); }
  }

  lemma OverwriteView(nodes: Nodes, next: nat, names: seq<Bytes>, c: nat, data: Bytes)
    requires Tree(nodes, next) && Walk(nodes, names) == Ok(c) && c in nodes && nodes[c].kind.File?
    ensures var after := WithData(nodes, c, data);
            && View(after) == View(nodes)[names := FileOf(data)]
            && forall p :: Walk(after, p) == Walk(nodes, p)
  {
    var after := WithData(nodes, c, data);
    AllInside(nodes, next);
    assert forall i :: i in nodes && i != c ==> i in after && after[i] == nodes[i];
    assert c in after && EntryOf(after[c]) == FileOf(data);
    hide Tree, StepInto, Walk, View, EntryOf, WithData;
    forall p ensures Walk(after, p) == Walk(nodes, p) { OverwriteWalk(nodes, c, data, p); }
    forall p | Walk(nodes, p) == Ok(c) ensures p == names { PathsAreDistinct(nodes, next, p, names); }
    ViewAt(nodes, after, names, c);
  }

  // ---------------------------------------------------------- removing a file

  function WithoutFile(nodes: Nodes, d: nat, name: Bytes, c: nat): Nodes
    requires d in nodes
  {
    nodes[d := nodes[d].(children := nodes[d].children - {name})] - {c}
  }

  /** A file at `front` + `name`. */
  ghost predicate FileAt(nodes: Nodes, front: seq<Bytes>, parent: nat, name: Bytes, c: nat) {
    Walk(nodes, front) == Ok(parent) && IsChild(nodes, parent, name, c) && nodes[parent].kind.Directory? && c in nodes
        && nodes[c].kind.File?
  }

  ghost predicate Shrunk(nodes: Nodes, after: Nodes, parent: nat, name: Bytes, c: nat) {
    && (forall i :: i in after <==> i in nodes && i != c)
    && (forall d, n, i :: IsChild(after, d, n, i) <==> IsChild(nodes, d, n, i) && !(d == parent && n == name))
  }

  lemma RemoveShrinks(nodes: Nodes, next: nat, front: seq<Bytes>, parent: nat, name: Bytes, c: nat)
    requires Shapes(nodes, next) && FileAt(nodes, front, parent, name, c)
    ensures Shrunk(nodes, WithoutFile(nodes, parent, name, c), parent, name, c)
    ensures Shapes(WithoutFile(nodes, parent, name, c), next) || c == ROOT
  {}

  lemma ShrunkOneParent(nodes: Nodes, after: Nodes, parent: nat, name: Bytes, c: nat)
    requires OneParent(nodes) && Shrunk(nodes, after, parent, name, c) && IsChild(nodes, parent, name, c)
    ensures OneParent(after) && (Downward(nodes) ==> Downward(after))
  {
    hide IsChild, IsName;
    forall d, n, i | IsChild(after, d, n, i) ensures i != c {
      if i == c { SameParent(nodes, d, n, parent, name, c); }
    }
    assert forall d, n, i :: IsChild(after, d, n, i) ==> IsChild(nodes, d, n, i);
  }

  lemma ShrunkNoOrphans(nodes: Nodes, after: Nodes, parent: nat, name: Bytes, c: nat)
    requires NoOrphans(nodes) && Shrunk(nodes, after, parent, name, c) && IsChild(nodes, parent, name, c)
    ensures NoOrphans(after)
  {
    forall i | i in after && i != ROOT ensures exists d, n :: IsChild(after, d, n, i) {
      var d, n :| IsChild(nodes, d, n, i);
      assert IsChild(after, d, n, i);
    }
  }

  lemma RemoveKeepsTree(nodes: Nodes, next: nat, front: seq<Bytes>, parent: nat, name: Bytes, c: nat)
    requires Tree(nodes, next) && FileAt(nodes, front, parent, name, c)
    ensures Tree(WithoutFile(nodes, parent, name, c), next)
  {
    assert c != ROOT;
    hide Shapes, Downward, OneParent, NoOrphans, Shrunk, IsName, WithoutFile, IsChild;
    var after := WithoutFile(nodes, parent, name, c);
    RemoveShrinks(nodes, next, front, parent, name, c);
    ShrunkOneParent(nodes, after, parent, name, c);
    ShrunkNoOrphans(nodes, after, parent, name, c);
  }

  lemma RemoveStep(nodes: Nodes, next: nat, front: seq<Bytes>, parent: nat, name: Bytes, c: nat, cur: nat, x: Bytes)
    requires Tree(nodes, next) && FileAt(nodes, front, parent, name, c)
    ensures var after := WithoutFile(nodes, parent, name, c);
            && (cur in nodes && cur != c ==>
                  if cur == parent && x == name then StepInto(after, cur, x).Err?
                      else StepInto(after, cur, x) == StepInto(nodes, cur, x))
            && StepInto(nodes, c, x).Err?
  {}

  lemma WalkSnoc(nodes: Nodes, q: seq<Bytes>, x: Bytes)
    ensures Walk(nodes, q).Err? ==> Walk(nodes, q + [x]) == Walk(nodes, q)
    ensures Walk(nodes, q).Ok? ==> Walk(nodes, q + [x]) == StepInto(nodes, Walk(nodes, q).value, x)
  {
    assert (q + [x])[..|q|] == q;
  }

  lemma FileWalk(nodes: Nodes, front: seq<Bytes>, parent: nat, name: Bytes, c: nat)
    requires FileAt(nodes, front, parent, name, c)
    ensures parent in nodes && parent != c && Walk(nodes, front) == Ok(parent) && Walk(nodes, front + [name]) == Ok(c)
  {
    WalkSnoc(nodes, front, name);
  }

  lemma SnocEquals(q: seq<Bytes>, x: Bytes, front: seq<Bytes>, name: Bytes)
    ensures q + [x] == front + [name] <==> q == front && x == name
  {
    assert (q + [x])[..|q|] == q && (front + [name])[..|front|] == front;
    assert (q + [x])[|q|] == x && (front + [name])[|front|] == name;
  }

  /** `p` resolves in `after` as in `nodes`, unless it is the removed `path`. */
  ghost predicate ResolvesWithout(nodes: Nodes, after: Nodes, path: seq<Bytes>, p: seq<Bytes>) {
    if p == path || Walk(nodes, p).Err? then Walk(after, p).Err? else Walk(after, p) == Walk(nodes, p)
  }

  lemma RemoveOnward(nodes: Nodes, next: nat, front: seq<Bytes>, parent: nat, name: Bytes, c: nat, q: seq<Bytes>,
      x: Bytes)
    requires Tree(nodes, next) && FileAt(nodes, front, parent, name, c)
    requires ResolvesWithout(nodes, WithoutFile(nodes, parent, name, c), front + [name], q)
    ensures ResolvesWithout(nodes, WithoutFile(nodes, parent, name, c), front + [name], q + [x])
  {
    var after := WithoutFile(nodes, parent, name, c);
    hide Tree, StepInto, WithoutFile, FileAt, Walk;
    FileWalk(nodes, front, parent, name, c);
    SnocEquals(q, x, front, name);
    WalkStaysInside(nodes, next, q);
    WalkSnoc(nodes, q, x);
    WalkSnoc(after, q, x);
    if Walk(nodes, q).Ok? {
      RemoveStep(nodes, next, front, parent, name, c, Walk(nodes, q).value, x);
      if Walk(nodes, q) == Ok(parent) {
        PathsAreDistinct(nodes, next, q, front);
      } else if Walk(nodes, q) == Ok(c) {
        PathsAreDistinct(nodes, next, q, front + [name]);
      }
    }
  }

  lemma RootStays(nodes: Nodes, after: Nodes, path: seq<Bytes>)
    requires path != []
    ensures ResolvesWithout(nodes, after, path, [])
  {}

  lemma {:induction false} RemoveWalk(nodes: Nodes, next: nat, front: seq<Bytes>, parent: nat, name: Bytes, c: nat,
      p: seq<Bytes>)
    requires Tree(nodes, next) && FileAt(nodes, front, parent, name, c)
    ensures ResolvesWithout(nodes, WithoutFile(nodes, parent, name, c), front + [name], p)
    decreases |p|
  {
    hide Tree, StepInto, WithoutFile, FileAt, Walk, ResolvesWithout, IsChild;
    FileWalk(nodes, front, parent, name, c);
    if p == [] {
      RootStays(nodes, WithoutFile(nodes, parent, name, c), front + [name]);
    } else {
      RemoveWalk(nodes, next, front, parent, name, c, p[..|p| - 1]);
      RemoveOnward(nodes, next, front, parent, name, c, p[..|p| - 1], p[|p| - 1]);
      assert p == p[..|p| - 1] + [p[|p| - 1]];
    }
  }

  lemma RemoveSame(nodes: Nodes, next: nat, front: seq<Bytes>, parent: nat, name: Bytes, c: nat)
    requires Tree(nodes, next) && FileAt(nodes, front, parent, name, c)
    ensures var after := WithoutFile(nodes, parent, name, c);
            && Walk(after, front + [name]).Err? && Walk(nodes, front + [name]) == Ok(c)
            && SameElsewhere(nodes, after, front + [name])
  {
    var after, path := WithoutFile(nodes, parent, name, c), front + [name];
    assert path[..|front|] == front;
    assert Walk(nodes, path) == Ok(c);
    hide Tree, StepInto, WithoutFile, Walk, FileAt;
    forall p ensures p != path ==> (Walk(nodes, p).Ok? <==> Walk(after, p).Ok?) && (Walk(nodes, p).Ok? ==>
        Walk(after, p) == Walk(nodes, p)) {
      RemoveWalk(nodes, next, front, parent, name, c, p);
    }
    RemoveWalk(nodes, next, front, parent, name, c, path);
  }

  lemma RemoveView(nodes: Nodes, next: nat, front: seq<Bytes>, parent: nat, name: Bytes, c: nat)
    requires Tree(nodes, next) && FileAt(nodes, front, parent, name, c)
    ensures var after := WithoutFile(nodes, parent, name, c);
            && View(after) == View(nodes) - {front + [name]}
            && Walk(after, front + [name]).Err? && Walk(nodes, front + [name]) == Ok(c)
            && SameElsewhere(nodes, after, front + [name])
  {
    var after, path := WithoutFile(nodes, parent, name, c), front + [name];
    RemoveSame(nodes, next, front, parent, name, c);
    AllInside(nodes, next);
    forall i | i in nodes && i != c ensures i in after && EntryOf(after[i]) == EntryOf(nodes[i]) {}
    hide Tree, StepInto, WithoutFile, Walk, FileAt, View, EntryOf;
    forall p | Walk(nodes, p) == Ok(c) ensures p == path { PathsAreDistinct(nodes, next, p, path); }
    ViewWithout(nodes, after, path);
  }

  // ------------------------------------------------------------ the operations

  lemma {:induction false} WalkFails(nodes: Nodes, names: seq<Bytes>, i: nat)
    requires i <= |names| && Walk(nodes, names[..i]).Err?
    ensures Walk(nodes, names) == Walk(nodes, names[..i])
    decreases |names|
  {
    if i == |names| {
      assert names[..i] == names;
    } else {
      var front := names[..|names| - 1];
      assert front[..i] == names[..i];
      WalkFails(nodes, front, i);
    }
  }

  /** A file stands where the path goes on. */
  ghost predicate ThroughFile(v: imap<seq<Bytes>, Entry>, c: seq<Bytes>) {
    exists j :: 0 <= j < |c| && c[..j] in v && v[c[..j]] != Dir
  }

  lemma ThroughFileNext(v: imap<seq<Bytes>, Entry>, c: seq<Bytes>)
    requires c != []
    ensures var q := c[..|c| - 1]; ThroughFile(v, c) <==> ThroughFile(v, q) || (q in v && v[q] != Dir)
  {
    var q := c[..|c| - 1];
    assert forall j :: 0 <= j <= |q| ==> q[..j] == c[..j];
    assert q[..|q|] == q;
    if ThroughFile(v, q) {
      var j :| 0 <= j < |q| && q[..j] in v && v[q[..j]] != Dir;
      assert c[..j] in v;
    }
  }

  lemma ViewAtWalk(nodes: Nodes, next: nat, p: seq<Bytes>)
    requires Tree(nodes, next)
    ensures p in View(nodes) <==> Walk(nodes, p).Ok?
    ensures Walk(nodes, p).Ok? ==>
              Walk(nodes, p).value in nodes && View(nodes)[p] == EntryOf(nodes[Walk(nodes, p).value])
  {
    WalkStaysInside(nodes, next, p);
  }

  /** Why a path leads nowhere, from outside: something on the way is a file, or nothing
      on the way is and the path is not there. */
  lemma {:induction false} WalkFailsIff(nodes: Nodes, next: nat, c: seq<Bytes>)
    requires Tree(nodes, next)
    ensures Walk(nodes, c) == Err(NotADirectory) <==> ThroughFile(View(nodes), c)
    ensures Walk(nodes, c) == Err(NotFound) <==> c !in View(nodes) && !ThroughFile(View(nodes), c)
    decreases |c|
  {
    ViewAtWalk(nodes, next, c);
    WalkStaysInside(nodes, next, c);
    hide Tree, View;
    if c != [] {
      var q := c[..|c| - 1];
      hide ThroughFile;
      WalkFailsIff(nodes, next, q);
      ViewAtWalk(nodes, next, q);
      ThroughFileNext(View(nodes), c);
    }
  }

  /** Why nothing can be made, written or removed at a path, from outside. */
  ghost function WhyNot(v: imap<seq<Bytes>, Entry>, c: seq<Bytes>): Option<FsError> {
    if c == [] then Some(InvalidPath)
    else if ThroughFile(v, c) then Some(NotADirectory)
    else if c[..|c| - 1] !in v then Some(NotFound)
    else None
  }

  lemma NoParent(v: imap<seq<Bytes>, Entry>, c: seq<Bytes>)
    requires c == []
    ensures WhyNot(v, c) == Some(InvalidPath)
  {}

  /** That is what a walk to the parent finds. */
  lemma ParentFailsIff(nodes: Nodes, next: nat, c: seq<Bytes>)
    requires Tree(nodes, next) && c != []
    ensures var up := Walk(nodes, c[..|c| - 1]);
            && (up.Err? ==> WhyNot(View(nodes), c) == Some(up.error))
            && (up.Ok? ==>
                  up.value in nodes
                  && WhyNot(View(nodes), c) == if nodes[up.value].kind.File? then Some(NotADirectory) else None)
  {
    var q := c[..|c| - 1];
    WalkFailsIff(nodes, next, q);
    WalkStaysInside(nodes, next, q);
    ViewAtWalk(nodes, next, q);
    ThroughFileNext(View(nodes), c);
    hide Tree, View, ThroughFile;
  }

  /** The entries of directory `d`, by ascending name. */
  ghost predicate IsListing(nodes: Nodes, d: nat, out: seq<DirEntry>)
  {
    && (forall i, j :: 0 <= i < j < |out| ==> ByteOrder.Less(out[i].name, out[j].name))
    && (forall e :: e in out ==> IsChild(nodes, d, e.name, e.ino) && e.ino in nodes && e.kind == nodes[e.ino].kind)
    && (forall n, c :: IsChild(nodes, d, n, c) ==> exists e :: e in out && e.name == n && e.ino == c)
  }

  lemma ChildrenOnPath(nodes: Nodes, next: nat, names: seq<Bytes>, name: Bytes)
    requires Tree(nodes, next) && Walk(nodes, names).Ok?
    ensures var d := Walk(nodes, names).value;
            && d in nodes && (nodes[d].kind.File? ==> nodes[d].children == map[])
            && (name in nodes[d].children <==> Walk(nodes, names + [name]).Ok?)
            && (name in nodes[d].children ==>
                  && Walk(nodes, names + [name]) == Ok(nodes[d].children[name])
                  && nodes[d].children[name] in nodes && IsName(name))
            && (names + [name] in View(nodes) <==> name in nodes[d].children)
            && (name in nodes[d].children ==> View(nodes)[names + [name]] == EntryOf(nodes[nodes[d].children[name]]))
  {
    WalkStaysInside(nodes, next, names);
    assert (names + [name])[..|names|] == names;
    var d := Walk(nodes, names).value;
    if name in nodes[d].children { assert IsChild(nodes, d, name, nodes[d].children[name]); }
  }

  /** A listing shows the view one level down: every child once, with its kind and node. */
  lemma ListingShowsView(nodes: Nodes, next: nat, names: seq<Bytes>, out: seq<DirEntry>, name: Bytes)
    requires Tree(nodes, next) && Walk(nodes, names).Ok? && IsListing(nodes, Walk(nodes, names).value, out)
    ensures (exists e :: e in out && e.name == name) <==> names + [name] in View(nodes)
    ensures forall e :: e in out && e.name == name ==>
              Walk(nodes, names + [name]) == Ok(e.ino) && (e.kind.Directory? <==> View(nodes)[names + [name]] == Dir)
  {
    ChildrenOnPath(nodes, next, names, name);
    hide Tree, StepInto, Walk;
    var d := Walk(nodes, names).value;
    if name in nodes[d].children { assert IsChild(nodes, d, name, nodes[d].children[name]); }
  }

  lemma {:induction false} OnlyRoot(nodes: Nodes, p: seq<Bytes>)
    requires nodes == map[ROOT := Node(Directory, map[], [])] && p != []
    ensures Walk(nodes, p).Err?
  {
    if |p| > 1 { OnlyRoot(nodes, p[..|p| - 1]); }
  }

  lemma ChildrenAreNodes(nodes: Nodes, next: nat, d: nat)
    requires Tree(nodes, next) && d in nodes
    ensures forall n :: n in nodes[d].children ==> nodes[d].children[n] in nodes
  {
    forall n | n in nodes[d].children ensures nodes[d].children[n] in nodes {
      assert IsChild(nodes, d, n, nodes[d].children[n]);
    }
  }

  method List(nodes: Nodes, d: nat) returns (out: seq<DirEntry>)
    requires d in nodes && forall n :: n in nodes[d].children ==> nodes[d].children[n] in nodes
    ensures IsListing(nodes, d, out)
  {
    hide ByteOrder.Less;
    var children := nodes[d].children;
    var names := ByteOrder.Sort(children.Keys);
    out := [];
    for i := 0 to |names|
      invariant |out| == i
      invariant forall j :: 0 <= j < i ==>
                  && names[j] in children
                  && out[j] == DirEntry(names[j], children[names[j]], nodes[children[names[j]]].kind)
    {
      assert names[i] in children.Keys;
      out := out + [DirEntry(names[i], children[names[i]], nodes[children[names[i]]].kind)];
    }
    forall n, c | IsChild(nodes, d, n, c) ensures exists e :: e in out && e.name == n && e.ino == c {
      assert n in children.Keys;
      var j :| 0 <= j < |names| && names[j] == n;
      assert out[j] in out;
    }
  }

  // ------------------------------------------------------- what they answer

  /** What reading a directory answers. */
  ghost predicate ReadsAs(nodes: Nodes, path: Bytes, r: Result<seq<DirEntry>, FsError>) {
    var c := Components(path);
    && (r.Ok? <==> c in View(nodes) && View(nodes)[c] == Dir)
    && (r.Ok? ==> Walk(nodes, c).Ok? && IsListing(nodes, Walk(nodes, c).value, r.value))
    && (r.Err? ==> r.error == if c in View(nodes) || ThroughFile(View(nodes), c) then NotADirectory else NotFound)
  }

  /** Making a directory turns tree `a`, with next inode `m`, into `b` with `n`. */
  ghost predicate Makes(a: Nodes, m: nat, path: Bytes, b: Nodes, n: nat, r: Result<nat, FsError>) {
    var c, why := Components(path), WhyNot(View(a), Components(path));
    && (r == if why.Some? then Err(why.value) else if c in View(a) then Err(AlreadyExists) else Ok(m))
    && (r.Err? ==> b == a && n == m && r.error != InodeGone)
    && (r.Ok? ==>
          && n == m + 1 && View(b) == View(a)[c := Dir] && SameElsewhere(a, b, c)
          && Walk(b, c) == Ok(r.value))
  }

  /** The same for creating or overwriting a file. */
  ghost predicate Writes(a: Nodes, m: nat, path: Bytes, data: Bytes, b: Nodes, n: nat, r: Result<nat, FsError>) {
    var c, v, why := Components(path), View(a), WhyNot(View(a), Components(path));
    && (r.Err? <==> why.Some? || (c in v && v[c] == Dir))
    && (r.Err? ==> r.error == if why.Some? then why.value else AlreadyExists)
    && (r.Err? ==> b == a && n == m && r.error != InodeGone)
    && (r.Ok? ==>
          && n == (if c in v then m else m + 1) && View(b) == v[c := FileOf(data)] && SameElsewhere(a, b, c)
          && Walk(b, c) == Ok(r.value)
          && if c in v then Walk(a, c) == r else r.value == m)
  }

  /** The same for removing a file. */
  ghost predicate Removes(a: Nodes, m: nat, path: Bytes, b: Nodes, n: nat, r: Result<bool, FsError>) {
    var c, v, why := Components(path), View(a), WhyNot(View(a), Components(path));
    && (r == if why.Some? then Err(why.value) else if c !in v then Err(NotFound)
             else if v[c] == Dir then Err(IsADirectory) else Ok(true))
    && n == m && (r.Err? ==> b == a && r.error != InodeGone)
    && (r.Ok? ==> View(b) == v - {c} && SameElsewhere(a, b, c) && Walk(b, c).Err?)
  }

  class MemFs {
    var nodes: Nodes
    var nextIno: nat

    ghost predicate Valid()
      reads this
    {
      Tree(nodes, nextIno)
    }

    constructor ()
      ensures Valid() && View(nodes) == imap[[] := Dir]
    {
      nodes, nextIno := map[ROOT := Node(Directory, map[], [])], ROOT + 1;
      new;
      forall p | p != [] ensures Walk(nodes, p).Err? { OnlyRoot(nodes, p); }
    }

    /** Follow some components from the root. */
    method Descend(names: seq<Bytes>) returns (r: Result<nat, FsError>)
      requires Valid()
      ensures r == Walk(nodes, names) && r != Err(InodeGone) && (r.Ok? ==> r.value in nodes)
    {
      WalkStaysInside(nodes, nextIno, names);
      var cur := ROOT;
      for i := 0 to |names|
        invariant Walk(nodes, names[..i]) == Ok(cur)
      {
        assert names[..i + 1][..i] == names[..i];
        var step := StepInto(nodes, cur, names[i]);
        match step
        case Err(e) =>
          WalkFails(nodes, names, i + 1);
          return Err(e);
        case Ok(next) => cur := next;
      }
      assert names[..|names|] == names;
      return Ok(cur);
    }

    method Resolve(path: Bytes) returns (r: Result<nat, FsError>)
      requires Valid()
      ensures r == Walk(nodes, Components(path)) && (r.Ok? <==> Components(path) in View(nodes))
      ensures r.Err? ==> r.error == if ThroughFile(View(nodes), Components(path)) then NotADirectory else NotFound
    {
      r := Descend(Components(path));
      WalkFailsIff(nodes, nextIno, Components(path));
      ViewAtWalk(nodes, nextIno, Components(path));
    }

    method ReadDir(path: Bytes) returns (r: Result<seq<DirEntry>, FsError>)
      requires Valid()
      ensures ReadsAs(nodes, path, r)
    {
      hide Tree, Components, ThroughFile;
      WalkFailsIff(nodes, nextIno, Components(path));
      ViewAtWalk(nodes, nextIno, Components(path));
      var found := Descend(Components(path));
      match found
      case Err(e) => return Err(e);
      case Ok(d) =>
        if nodes[d].kind.File? { return Err(NotADirectory); }
        ChildrenAreNodes(nodes, nextIno, d);
        var out := List(nodes, d);
        return Ok(out);
    }

    method Read(path: Bytes) returns (r: Result<Bytes, FsError>)
      requires Valid()
      ensures forall data :: r == Ok(data) <==>
          Components(path) in View(nodes) && View(nodes)[Components(path)] == FileOf(data)
      ensures r.Err? ==>
                var c, v := Components(path), View(nodes);
                r.error == if c in v then IsADirectory else if ThroughFile(v, c) then NotADirectory else NotFound
    {
      hide Tree, Components, ThroughFile;
      WalkFailsIff(nodes, nextIno, Components(path));
      ViewAtWalk(nodes, nextIno, Components(path));
      var found := Descend(Components(path));
      match found
      case Err(e) => return Err(e);
      case Ok(d) =>
        if nodes[d].kind.Directory? { return Err(IsADirectory); }
        return Ok(nodes[d].data);
    }

    method Mkdir(path: Bytes) returns (r: Result<nat, FsError>)
      requires Valid()
      modifies this
      ensures Valid() && Makes(old(nodes), old(nextIno), path, nodes, nextIno, r)
    {
      hide Tree, Components, IsListing, View, StepInto, Walk, WhyNot, ThroughFile;
      var names := Components(path);
      if names == [] {
        NoParent(View(nodes), names);
        return Err(InvalidPath);
      }
      var front, name := names[..|names| - 1], names[|names| - 1];
      assert names == front + [name];
      ParentFailsIff(nodes, nextIno, names);
      ComponentsAreNames(path);
      assert name in names && IsName(name);
      var up := Descend(front);
      match up
      case Err(e) => return Err(e);
      case Ok(parent) =>
        if nodes[parent].kind.File? { return Err(NotADirectory); }
        ChildrenOnPath(nodes, nextIno, front, name);
        if name in nodes[parent].children { return Err(AlreadyExists); }
        var node := Node(Directory, map[], []);
        AddKeepsTree(nodes, nextIno, front, parent, name, node);
        AddView(nodes, nextIno, front, parent, name, node);
        r := Ok(nextIno);
        nodes := WithChild(nodes, parent, name, nextIno, node);
        nextIno := nextIno + 1;
    }

    /** Create a file, or overwrite the one that is there. */
    method WriteFile(path: Bytes, data: Bytes) returns (r: Result<nat, FsError>)
      requires Valid()
      modifies this
      ensures Valid() && Writes(old(nodes), old(nextIno), path, data, nodes, nextIno, r)
    {
      hide Tree, Components, IsListing, View, StepInto, Walk, WhyNot, ThroughFile;
      var names := Components(path);
      if names == [] {
        NoParent(View(nodes), names);
        return Err(InvalidPath);
      }
      var front, name := names[..|names| - 1], names[|names| - 1];
      assert names == front + [name];
      ParentFailsIff(nodes, nextIno, names);
      ComponentsAreNames(path);
      assert name in names && IsName(name);
      var up := Descend(front);
      match up
      case Err(e) => return Err(e);
      case Ok(parent) =>
        if nodes[parent].kind.File? { return Err(NotADirectory); }
        ChildrenOnPath(nodes, nextIno, front, name);
        if name in nodes[parent].children {
          var child := nodes[parent].children[name];
          if nodes[child].kind.Directory? { return Err(AlreadyExists); }
          OverwriteKeepsTree(nodes, nextIno, child, data);
          OverwriteView(nodes, nextIno, names, child, data);
          nodes := WithData(nodes, child, data);
          return Ok(child);
        }
        var node := Node(File, map[], data);
        AddKeepsTree(nodes, nextIno, front, parent, name, node);
        AddView(nodes, nextIno, front, parent, name, node);
        r := Ok(nextIno);
        nodes := WithChild(nodes, parent, name, nextIno, node);
        nextIno := nextIno + 1;
    }

    method RemoveFile(path: Bytes) returns (r: Result<bool, FsError>)
      requires Valid()
      modifies this
      ensures Valid() && Removes(old(nodes), old(nextIno), path, nodes, nextIno, r)
    {
      hide Tree, Components, IsListing, View, StepInto, Walk, WhyNot, ThroughFile;
      var names := Components(path);
      if names == [] {
        NoParent(View(nodes), names);
        return Err(InvalidPath);
      }
      var front, name := names[..|names| - 1], names[|names| - 1];
      assert names == front + [name];
      ParentFailsIff(nodes, nextIno, names);
      var up := Descend(front);
      match up
      case Err(e) => return Err(e);
      case Ok(parent) =>
        if nodes[parent].kind.File? { return Err(NotADirectory); }
        ChildrenOnPath(nodes, nextIno, front, name);
        if name !in nodes[parent].children { return Err(NotFound); }
        var child := nodes[parent].children[name];
        if nodes[child].kind.Directory? { return Err(IsADirectory); }
        RemoveKeepsTree(nodes, nextIno, front, parent, name, child);
        RemoveView(nodes, nextIno, front, parent, name, child);
        nodes := WithoutFile(nodes, parent, name, child);
        r := Ok(true);
    }
  }
}
