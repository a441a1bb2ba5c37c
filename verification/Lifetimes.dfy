/**
 Whole lives of a directory: it is opened, written to, and closed, cut short by a
 crash, or compacted, again and again.
 */
module Lifetimes {
  import opened Wrappers
  import opened Records
  import opened Merge
  import opened Directory
  import opened SegmentNames
  import Compaction
  import Engine

  /** A crash cuts the file written last after `cut` bytes. */
  datatype Ending = Close | Crash(cut: nat) | CompactAndClose

  datatype Life = Life(ops: seq<Record>, ending: Ending)

  function AfterOps(m: map<Bytes, Bytes>, ops: seq<Record>): map<Bytes, Bytes> {
    if ops == [] then m
    else
      var before := AfterOps(m, ops[..|ops| - 1]);
      match ops[|ops| - 1]
      case Put(key, value) => before[key := value]
      case Delete(key) => before - {key}
  }

  lemma {:induction false} CountAtMost(ops: seq<Record>)
    ensures Engine.CountAfter(0, ops) <= |ops|
    ensures ops != [] ==> Engine.InLastFile(ops) <= |ops|
  {
    if ops != [] { CountAtMost(ops[..|ops| - 1]); }
  }

  /** How many operations outlive it: after a crash those before the segment written
      last, and in it those whose frames lie wholly before the cut. */
  function Outlive(life: Life): (k: nat)
    ensures k <= |life.ops|
  {
    if life.ending.Crash? && life.ops != [] then
      CountAtMost(life.ops);
      var split := |life.ops| - Engine.InLastFile(life.ops);
      split + WholeWithin(life.ops[split..], life.ending.cut)
    else |life.ops|
  }

  function AfterLives(m: map<Bytes, Bytes>, lives: seq<Life>): map<Bytes, Bytes> {
    if lives == [] then m
    else
      var last := lives[|lives| - 1];
      AfterOps(AfterLives(m, lives[..|lives| - 1]), last.ops[..Outlive(last)])
  }

  lemma {:induction false} LiveAfterOps(log: seq<Record>, ops: seq<Record>)
    ensures Live(Apply(log + ops)) == AfterOps(Live(Apply(log)), ops)
  {
    hide Apply, Live;
    if ops == [] {
      assert log + [] == log;
    } else {
      var front, last := ops[..|ops| - 1], ops[|ops| - 1];
      LiveAfterOps(log, front);
      LiveSnoc(log + front, last);
      assert log + ops == (log + front) + [last];
    }
  }

  /** `n` more segments can be named. */
  ghost predicate Room(disk: Disk, n: nat) {
    Named(n) && forall id :: id in disk ==> Named(id + n)
  }

  /** The segments a run may need. */
  function Needed(lives: seq<Life>): nat {
    if lives == [] then 0 else Needed(lives[..|lives| - 1]) + |lives[|lives| - 1].ops| + 3
  }

  lemma {:induction false} NeededGrows(lives: seq<Life>, i: nat)
    requires i <= |lives|
    ensures Needed(lives[..i]) <= Needed(lives)
  {
    if i < |lives| {
      NeededGrows(lives[..|lives| - 1], i);
      assert lives[..|lives| - 1][..i] == lives[..i];
    } else {
      assert lives[..i] == lives;
    }
  }

  lemma NoLives(m: map<Bytes, Bytes>, lives: seq<Life>)
    ensures AfterLives(m, lives[..0]) == m && Needed(lives[..0]) == 0
  {}

  lemma LivesNext(m: map<Bytes, Bytes>, lives: seq<Life>, i: nat)
    requires i < |lives|
    ensures AfterLives(m, lives[..i + 1]) == AfterOps(AfterLives(m, lives[..i]), lives[i].ops[..Outlive(lives[i])])
    ensures Needed(lives[..i + 1]) == Needed(lives[..i]) + |lives[i].ops| + 3 <= Needed(lives)
  {
    assert lives[..i + 1][..i] == lives[..i];
    NeededGrows(lives, i + 1);
  }

  lemma WrittenTail(log: seq<Record>, ops: seq<Record>, older: seq<Record>, younger: seq<Record>, c: nat)
    requires ops != [] && older + younger == log + ops && |younger| == Engine.InLastFile(ops)
    ensures var k := Outlive(Life(ops, Crash(c)));
            Live(Apply(older + younger[..WholeWithin(younger, c)])) == AfterOps(Live(Apply(log)), ops[..k])
  {
    hide Apply, Live, WholeWithin, AfterOps, Engine.InLastFile;
    CountAtMost(ops);
    var split := |ops| - Engine.InLastFile(ops);
    assert |older| == |log| + split;
    assert older == (older + younger)[..|older|] == log + ops[..split];
    assert younger == (older + younger)[|older|..] == ops[split..];
    var n := WholeWithin(younger, c);
    assert ops[..split + n] == ops[..split] + ops[split..][..n];
    assert older + younger[..n] == log + ops[..split + n];
    LiveAfterOps(log, ops[..split + n]);
  }

  lemma RoomAfter(files: Disk, after: Disk, first: nat, next: nat, used: nat)
    requires first == 0 || first - 1 in files
    requires next <= first + used && forall id :: id in after ==> id < next
    ensures forall n: nat :: Room(files, n + used) ==> Room(after, n)
  {
    hide Named;
    forall n: nat | Room(files, n + used) ensures Room(after, n) {
      NamedBelow(n, n + used);
      forall id | id in after ensures Named(id + n) {
        NamedBelow(id + n, (if first == 0 then 0 else first - 1) + (n + used));
      }
    }
  }

  lemma RoomForTwo(files: Disk, first: nat, next: nat, used: nat)
    requires Room(files, used) && (first == 0 || first - 1 in files) && next + 1 < first + used
    ensures Named(next + 1)
  {
    hide Named;
    NamedBelow(next + 1, (if first == 0 then 0 else first - 1) + used);
  }

  lemma RoomShrinks(disk: Disk, less: nat, more: nat)
    requires Room(disk, more) && less <= more
    ensures Room(disk, less)
  {
    hide Named;
    NamedBelow(less, more);
    forall id | id in disk ensures Named(id + less) { NamedBelow(id + less, id + more); }
  }

  /** With room for one more name the writer starts on a new file. */
  method Reopen(files: Disk, ghost m: map<Bytes, Bytes>) returns (e: Engine.Engine, ghost first: nat)
    requires RecoversTo(files, m) && Room(files, 1)
    ensures fresh(e) && e.Valid() && e.Aligned() && (first == 0 || first - 1 in files) && e.nextSegment == first + 1
    ensures Live(Apply(e.Log())) == m && e.base == [] && e.written == [] && e.count == 0
  {
    hide LogOf, Apply, Live, RecoversTo, Named, Readable, Engine.Engine.Aligned;
    Engine.RecoveredOpens(files, m);
    var r := Engine.Engine.Open(files);
    e := r.value;
    RecoveryIsUnique(files, m, e.Map());
    first := e.activeId;
    if first == 0 { NamedBelow(0, 1); } else { assert Named(first - 1 + 1); }
    e.MapOfLog();
    Engine.NextAfterActive(e);
  }

  /** Open and write. */
  method Begin(files: Disk, ops: seq<Record>, ghost m: map<Bytes, Bytes>)
      returns (e: Engine.Engine, w: nat, ghost first: nat)
    requires RecoversTo(files, m) && AllFit(ops) && Room(files, 1)
    ensures fresh(e) && e.Valid() && e.Aligned() && (first == 0 || first - 1 in files)
        && e.nextSegment <= first + |ops| + 1
    ensures exists log :: Live(Apply(log)) == m && e.Log() == log + ops
    ensures ops != [] ==>
              && w in e.disk && Engine.Wrote(e.disk, w, LogOf(e.disk[w]))
              && |LogOf(e.disk[w])| == Engine.InLastFile(ops)
  {
    hide LogOf, Apply, Live, RecoversTo, Named, Fits, Engine.Wrote, Engine.InLastFile, Engine.Engine.Aligned,
        Engine.Engine.Valid, Engine.Engine.ActiveLog, Engine.Engine.Log, Room;
    e, first := Reopen(files, m);
    ghost var log := e.Log();
    w := e.Perform(ops);
    assert Live(Apply(log)) == m && e.Log() == log + ops;
  }

  lemma IdsAreOld(e: Engine.Engine)
    requires e.Valid()
    ensures e.activeId < e.nextSegment && forall id :: id in e.disk ==> id < e.nextSegment
  {}

  lemma LastRecovers(trail: seq<Disk>, a: Disk, d: Disk, m: map<Bytes, Bytes>)
    requires Compaction.Path(trail, a, d) && Engine.AllRecover(trail, m)
    ensures RecoversTo(d, m)
  {
    hide RecoversTo;
    assert trail[|trail| - 1] in trail;
  }

  /** The directory after it, when nothing is cut. */
  method EndWhole(e: Engine.Engine, life: Life, ghost log: seq<Record>) returns (after: Disk)
    requires e.Valid() && e.Aligned() && e.Log() == log + life.ops && Named(e.nextSegment + 1)
    requires life.ending.Crash? ==> life.ops == []
    modifies e
    ensures RecoversTo(after, AfterOps(Live(Apply(log)), life.ops[..Outlive(life)]))
    ensures forall id :: id in after ==> id <= old(e.nextSegment) + 1
  {
    hide LogOf, Apply, Live, RecoversTo, Named, Engine.Engine.Valid, Engine.Engine.Aligned, Engine.AllRecover,
        Compaction.Path;
    assert life.ops[..|life.ops|] == life.ops;
    LiveAfterOps(log, life.ops);
    e.MapOfLog();
    IdsAreOld(e);
    if life.ending == CompactAndClose {
      ghost var trail := e.Compact();
      IdsAreOld(e);
      LastRecovers(trail, old(e.disk), e.disk, old(e.Map()));
    } else {
      NamedBelow(e.activeId, e.nextSegment + 1);
      e.ReopensTheSame();
    }
    after := e.disk;
  }

  lemma BeyondTheEnd(log: seq<Record>, c: nat)
    ensures c >= |EncodeAll(log)| ==> WholeWithin(log, c) == WholeWithin(log, |EncodeAll(log)|)
  {}

  /** The directory after a crash. */
  method EndCut(e: Engine.Engine, w: nat, life: Life, ghost log: seq<Record>) returns (after: Disk)
    requires e.Valid() && e.Aligned() && e.Log() == log + life.ops && Named(e.nextSegment + 1)
    requires life.ending.Crash? && life.ops != [] && w in e.disk
    requires Engine.Wrote(e.disk, w, LogOf(e.disk[w])) && |LogOf(e.disk[w])| == Engine.InLastFile(life.ops)
    ensures RecoversTo(after, AfterOps(Live(Apply(log)), life.ops[..Outlive(life)]))
    ensures forall id :: id in after ==> id <= e.nextSegment + 1
  {
    hide LogOf, Apply, Live, RecoversTo, Named, Engine.Engine.Valid, Engine.Engine.Aligned, LastWritten, Clean,
        WholeWithin, Engine.InLastFile, Outlive;
    IdsAreOld(e);
    NamedBelow(e.activeId, e.nextSegment + 1);
    var c := if life.ending.cut < |e.disk[w]| then life.ending.cut else |e.disk[w]|;
    ghost var older, younger := e.CutAfterWrite(w, c);
    WrittenTail(log, life.ops, older, younger, life.ending.cut);
    BeyondTheEnd(younger, life.ending.cut);
    after := Cut(e.disk, w, c);
  }

  /** One life: open, write, and end. */
  method LiveOnce(files: Disk, life: Life, ghost m: map<Bytes, Bytes>) returns (after: Disk)
    requires RecoversTo(files, m) && AllFit(life.ops) && Room(files, |life.ops| + 3)
    ensures RecoversTo(after, AfterOps(m, life.ops[..Outlive(life)]))
    ensures forall n: nat :: Room(files, n + |life.ops| + 3) ==> Room(after, n)
  {
    hide RecoversTo, Named, AfterOps, Outlive, LogOf, Apply, Live, Fits, Engine.Wrote, Engine.InLastFile, Room,
        Engine.Engine.Valid, Engine.Engine.Aligned, Engine.Engine.Log;
    RoomShrinks(files, 1, |life.ops| + 3);
    var e, w, first := Begin(files, life.ops, m);
    ghost var log :| Live(Apply(log)) == m && e.Log() == log + life.ops;
    RoomForTwo(files, first, e.nextSegment, |life.ops| + 3);
    ghost var next := e.nextSegment + 2;
    if life.ending.Crash? && life.ops != [] {
      after := EndCut(e, w, life, log);
    } else {
      after := EndWhole(e, life, log);
    }
    RoomAfter(files, after, first, next, |life.ops| + 3);
  }

  /** Any number of lives: the map is that of exactly the operations that outlive them. */
  method LiveOn(files: Disk, lives: seq<Life>, ghost m: map<Bytes, Bytes>) returns (after: Disk)
    requires RecoversTo(files, m) && Room(files, Needed(lives))
    requires forall life :: life in lives ==> AllFit(life.ops)
    ensures RecoversTo(after, AfterLives(m, lives))
  {
    hide RecoversTo, Named, AfterOps, Outlive, Room, AfterLives, Needed;
    after := files;
    assert lives[..|lives|] == lives;
    NoLives(m, lives);
    for i := 0 to |lives|
      invariant RecoversTo(after, AfterLives(m, lives[..i]))
      invariant Needed(lives[..i]) <= Needed(lives) && Room(after, Needed(lives) - Needed(lives[..i]))
    {
      LivesNext(m, lives, i);
      ghost var rest, used := Needed(lives) - Needed(lives[..i + 1]), |lives[i].ops| + 3;
      RoomShrinks(after, used, rest + used);
      assert Room(after, rest + |lives[i].ops| + 3);
      after := LiveOnce(after, lives[i], AfterLives(m, lives[..i]));
    }
  }
}
