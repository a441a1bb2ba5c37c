/** Why compaction survives a crash at any point. */
module Compaction {
  import opened Wrappers
  import opened Records
  import opened Merge
  import opened Directory
  import opened SegmentNames
  import ByteOrder

  /** The puts that rewrite the live keys among `keys`. */
  function PutsOf(m: Merged, keys: seq<Bytes>): seq<Record>
    requires forall k :: k in keys ==> k in m
  {
    if keys == [] then []
    else
      var k := keys[|keys| - 1];
      PutsOf(m, keys[..|keys| - 1]) + if m[k].Some? then [Put(k, m[k].value)] else []
  }

  /** Every record repeats what `m` already says. */
  ghost predicate Restates(ps: seq<Record>, m: Merged) {
    forall r :: r in ps ==> r.Put? && r.key in m && m[r.key] == Some(r.value)
  }

  /** The records say everything `m` has alive. */
  ghost predicate Covers(ps: seq<Record>, m: Merged) {
    && (forall k :: k in Apply(ps) <==> k in m && m[k].Some?)
    && (forall k :: k in Apply(ps) ==> Apply(ps)[k] == m[k])
  }

  lemma {:induction false} PutsRestate(m: Merged, keys: seq<Bytes>)
    requires forall k :: k in keys ==> k in m
    ensures Restates(PutsOf(m, keys), m)
  {
    if keys != [] { PutsRestate(m, keys[..|keys| - 1]); }
  }

  lemma {:induction false} PutsApply(m: Merged, keys: seq<Bytes>)
    requires forall k :: k in keys ==> k in m
    ensures forall k :: k in Apply(PutsOf(m, keys)) <==> k in keys && m[k].Some?
    ensures forall k :: k in Apply(PutsOf(m, keys)) ==> Apply(PutsOf(m, keys))[k] == m[k]
  {
    if keys != [] {
      var front, k := keys[..|keys| - 1], keys[|keys| - 1];
      PutsApply(m, front);
      assert keys == front + [k];
      if m[k].Some? {
        ApplySnoc(PutsOf(m, front), Put(k, m[k].value));
      } else {
        assert PutsOf(m, front) + [] == PutsOf(m, front);
      }
    }
  }

  lemma PutsCover(m: Merged, keys: seq<Bytes>)
    requires forall k :: k in keys <==> k in m
    ensures Covers(PutsOf(m, keys), m)
  {
    PutsApply(m, keys);
  }

  /** What a log has alive was put there by one of its records. */
  lemma PutsFit(log: seq<Record>, ps: seq<Record>)
    requires AllFit(log) && Restates(ps, Apply(log))
    ensures AllFit(ps)
  {
    hide Fits;
    forall r | r in ps ensures Fits(r) {
      var i := KeysOfApply(log, r.key);
      LastWins(log, i);
      assert log[i] == r;
    }
  }

  lemma {:induction false} RestatingChangesNothing(m: Merged, ps: seq<Record>)
    requires Restates(ps, m)
    ensures m + Apply(ps) == m
  {
    if ps != [] {
      var front := ps[..|ps| - 1];
      assert Restates(front, m);
      RestatingChangesNothing(m, front);
      assert ps[|ps| - 1] in ps;
    }
  }

  /** Dropping the oldest logs cannot bring a deleted key back: what is left of
      a key still has its last word. */
  lemma NoResurrection(older: Merged, younger: Merged, rewritten: Merged)
    requires var m := older + younger;
             && (forall k :: k in rewritten <==> k in m && m[k].Some?)
             && (forall k :: k in rewritten ==> rewritten[k] == m[k])
    ensures Live(younger + rewritten) == Live(older + younger)
  {
    var a, b := Live(younger + rewritten), Live(older + younger);
    assert forall k :: k in a <==> k in b;
  }

  // ------------------------------------------------- the states of the directory

  /** The directory when compaction starts to write: sealed segments and an empty active file. */
  ghost predicate Ready(disk: Disk, ids: seq<nat>, active: nat) {
    && Lists(ids + [active], disk)
    && disk[active] == []
    && forall id :: id in disk ==> Sound(disk[id])
  }

  ghost function Sealed(disk: Disk, ids: seq<nat>, active: nat): Merged
    requires Ready(disk, ids, active)
  {
    assert forall id :: id in ids ==> id in ids + [active];
    Apply(LogOfIds(disk, ids))
  }

  lemma {:induction false} LogOfIdsFits(disk: Disk, ids: seq<nat>)
    requires forall id :: id in ids ==> id in disk && Sound(disk[id])
    ensures AllFit(LogOfIds(disk, ids))
  {
    hide LogOf, Fits;
    if ids != [] { LogOfIdsFits(disk, ids[..|ids| - 1]); }
  }

  function Without(disk: Disk, gone: seq<nat>): Disk {
    map id | id in disk && id !in gone :: disk[id]
  }

  /** The new segment `active + 1` holds `file`; of the old ones only `kept` are left. */
  function Stage(disk: Disk, active: nat, kept: seq<nat>, file: Bytes): Disk {
    (map id | id in disk && (id in kept || id == active) :: disk[id])[active + 1 := file]
  }

  ghost predicate Picks(kept: seq<nat>, ids: seq<nat>) {
    Ascending(kept) && forall id :: id in kept ==> id in ids
  }

  lemma AscendingParts(ids: seq<nat>, j: nat)
    requires Ascending(ids) && j <= |ids|
    ensures Ascending(ids[j..]) && (forall x :: x in ids <==> x in ids[..j] || x in ids[j..])
    ensures forall x, y :: x in ids[..j] && y in ids[j..] ==> x < y
  {
    assert ids == ids[..j] + ids[j..];
    forall x, y | x in ids[..j] && y in ids[j..] ensures x < y {
      var a :| 0 <= a < j && ids[..j][a] == x;
      var b :| 0 <= b < |ids| - j && ids[j..][b] == y;
      assert ids[a] < ids[j + b];
    }
  }

  /** The segments in a stage, in order. */
  function StageIds(active: nat, kept: seq<nat>): seq<nat> {
    (kept + [active]) + [active + 1]
  }

  lemma ReadyOrder(disk: Disk, ids: seq<nat>, active: nat)
    requires Ready(disk, ids, active)
    ensures Ascending(ids) && (forall id :: id in ids ==> id < active)
    ensures forall id :: id in disk <==> id in ids || id == active
  {
    hide Sound;
    assert forall i :: 0 <= i < |ids| ==> (ids + [active])[i] == ids[i];
    AscendingLast(ids, active);
  }

  lemma StageOrder(disk: Disk, ids: seq<nat>, active: nat, kept: seq<nat>)
    requires Ready(disk, ids, active) && Picks(kept, ids)
    ensures Ascending(StageIds(active, kept))
  {
    ReadyOrder(disk, ids, active);
    hide Ready, Ascending;
    AscendingSnoc(kept, active);
    AscendingSnoc(kept + [active], active + 1);
  }

  lemma StageFiles(disk: Disk, ids: seq<nat>, active: nat, kept: seq<nat>, file: Bytes)
    requires Ready(disk, ids, active) && Picks(kept, ids)
    ensures var d := Stage(disk, active, kept, file);
            && (forall id :: id in StageIds(active, kept) <==> id in d)
            && (forall id :: id in kept ==> id in disk && id in d && d[id] == disk[id])
            && d[active] == [] && d[active + 1] == file
            && (forall id :: id in d && id != active + 1 ==> id in disk && d[id] == disk[id])
  {
    hide Sound;
    ReadyOrder(disk, ids, active);
    assert disk[active] == [];
    hide Ready, Ascending;
  }

  lemma StageListing(disk: Disk, ids: seq<nat>, active: nat, kept: seq<nat>, file: Bytes)
    requires Ready(disk, ids, active) && Picks(kept, ids) && Sound(file)
    ensures Lists(StageIds(active, kept), Stage(disk, active, kept, file))
    ensures forall id :: id in Stage(disk, active, kept, file) ==> Sound(Stage(disk, active, kept, file)[id])
  {
    hide Sound, Ascending, StageIds, Stage;
    StageOrder(disk, ids, active, kept);
    StageFiles(disk, ids, active, kept, file);
  }

  lemma StageLog(disk: Disk, ids: seq<nat>, active: nat, kept: seq<nat>, file: Bytes)
    requires Ready(disk, ids, active) && Picks(kept, ids)
    ensures (forall id :: id in kept ==> id in disk)
    ensures forall id :: id in StageIds(active, kept) ==> id in Stage(disk, active, kept, file)
    ensures LogOfIds(Stage(disk, active, kept, file), StageIds(active, kept)) == LogOfIds(disk, kept) + LogOf(file)
  {
    StageFiles(disk, ids, active, kept, file);
    hide LogOf, LogOfIds, Stage, Ready, Picks;
    var d := Stage(disk, active, kept, file);
    LogOfIdsDepends(d, disk, kept);
    EmptyIsClean();
    LogOfIdsSnoc(d, kept, active);
    LogOfIdsSnoc(d, kept + [active], active + 1);
    assert LogOfIds(disk, kept) + [] == LogOfIds(disk, kept);
  }

  lemma StageIsNamed(disk: Disk, ids: seq<nat>, active: nat, kept: seq<nat>, file: Bytes)
    requires Ready(disk, ids, active) && Named(active + 1)
    ensures AllSeen(Stage(disk, active, kept, file)) && AllSeen(disk)
  {
    ReadyOrder(disk, ids, active);
    hide Ready, Ascending, Named;
    forall id: nat | id <= active + 1 ensures Named(id) { NamedBelow(id, active + 1); }
  }

  /** A stage answers from what is left of the old segments, then from the new file. */
  lemma StageRecovers(disk: Disk, ids: seq<nat>, active: nat, kept: seq<nat>, file: Bytes)
    requires Ready(disk, ids, active) && Picks(kept, ids) && Sound(file) && Named(active + 1)
    ensures (forall id :: id in kept ==> id in disk)
    ensures RecoversTo(Stage(disk, active, kept, file), Live(Apply(LogOfIds(disk, kept)) + Apply(LogOf(file))))
  {
    hide LogOf, Apply, Live, Sound, LogOfIds, RecoversTo, Stage, StageIds, Ready, Lists, Picks, Named, AllSeen;
    StageIsNamed(disk, ids, active, kept, file);
    StageLog(disk, ids, active, kept, file);
    StageListing(disk, ids, active, kept, file);
    ApplyConcat(LogOfIds(disk, kept), LogOf(file));
    Recovers(Stage(disk, active, kept, file), StageIds(active, kept));
  }

  lemma CutPuts(ps: seq<Record>, c: nat)
    requires AllFit(ps) && c <= |EncodeAll(ps)|
    ensures Sound(EncodeAll(ps)[..c]) && LogOf(EncodeAll(ps)[..c]) == ps[..WholeWithin(ps, c)]
  {
    hide EncodeAll, Fits, WholeWithin, LogOf;
    CutHolds(ps, c);
    LogOfHolds(EncodeAll(ps)[..c], ps[..WholeWithin(ps, c)]);
  }

  lemma SameDisk(a: Disk, b: Disk)
    requires (forall id :: id in a <==> id in b) && forall id :: id in a ==> a[id] == b[id]
    ensures a == b
  {}

  lemma StageHas(disk: Disk, active: nat, kept: seq<nat>, file: Bytes)
    ensures var d := Stage(disk, active, kept, file);
            && (forall id :: id in d <==> id == active + 1 || (id in disk && (id in kept || id == active)))
            && (forall id :: id in d ==> d[id] == if id == active + 1 then file else disk[id])
  {}

  lemma WithoutHas(disk: Disk, gone: seq<nat>)
    ensures forall id :: id in Without(disk, gone) <==> id in disk && id !in gone
    ensures forall id :: id in Without(disk, gone) ==> Without(disk, gone)[id] == disk[id]
  {}

  /** Deleting `gone` leaves `kept`. */
  lemma StageIsWithout(disk: Disk, active: nat, gone: seq<nat>, kept: seq<nat>, file: Bytes)
    requires active + 1 !in gone && forall id :: id in disk ==> (id !in gone <==> id in kept || id == active)
    ensures Without(disk[active + 1 := file], gone) == Stage(disk, active, kept, file)
  {
    hide Without, Stage;
    WithoutHas(disk[active + 1 := file], gone);
    StageHas(disk, active, kept, file);
    SameDisk(Without(disk[active + 1 := file], gone), Stage(disk, active, kept, file));
  }

  lemma WholeStage(disk: Disk, ids: seq<nat>, active: nat, file: Bytes)
    requires Ready(disk, ids, active)
    ensures Stage(disk, active, ids, file) == disk[active + 1 := file] && Picks(ids, ids)
  {
    ReadyOrder(disk, ids, active);
    hide Ready, Ascending, Without, Stage;
    StageIsWithout(disk, active, [], ids, file);
    WithoutHas(disk[active + 1 := file], []);
    SameDisk(Without(disk[active + 1 := file], []), disk[active + 1 := file]);
  }

  lemma ReadyFits(disk: Disk, ids: seq<nat>, active: nat)
    requires Ready(disk, ids, active)
    ensures (forall id :: id in ids ==> id in disk) && AllFit(LogOfIds(disk, ids))
  {
    hide Sound, Fits, LogOf;
    forall id | id in ids ensures id in disk && Sound(disk[id]) { assert id in ids + [active]; }
    LogOfIdsFits(disk, ids);
  }

  /** While the new segment is being written, byte by byte, nothing changes for a reader. */
  lemma WritingIsSafe(disk: Disk, ids: seq<nat>, active: nat, ps: seq<Record>, c: nat)
    requires Ready(disk, ids, active) && Named(active + 1)
    requires Restates(ps, Sealed(disk, ids, active)) && c <= |EncodeAll(ps)|
    ensures RecoversTo(disk[active + 1 := EncodeAll(ps)[..c]], Live(Sealed(disk, ids, active)))
  {
    hide LogOf, Apply, Live, Sound, LogOfIds, RecoversTo, EncodeAll, WholeWithin, Fits, Ready, Named;
    var file, some := EncodeAll(ps)[..c], ps[..WholeWithin(ps, c)];
    ReadyFits(disk, ids, active);
    PutsFit(LogOfIds(disk, ids), ps);
    CutPuts(ps, c);
    WholeStage(disk, ids, active, file);
    StageRecovers(disk, ids, active, ids, file);
    RestatingChangesNothing(Sealed(disk, ids, active), some);
  }

  /** Deleting old segments oldest first leaves the newer ones. */
  lemma SuffixStage(disk: Disk, ids: seq<nat>, active: nat, file: Bytes, j: nat)
    requires Ready(disk, ids, active) && j <= |ids|
    ensures Without(disk[active + 1 := file], ids[..j]) == Stage(disk, active, ids[j..], file) && Picks(ids[j..], ids)
  {
    ReadyOrder(disk, ids, active);
    AscendingParts(ids, j);
    hide Ready, Ascending, Without, Stage;
    StageIsWithout(disk, active, ids[..j], ids[j..], file);
  }

  lemma AllIsWhole(ps: seq<Record>)
    ensures WholeWithin(ps, |EncodeAll(ps)|) == |ps|
  {}

  lemma WrittenPuts(log: seq<Record>, ps: seq<Record>)
    requires AllFit(log) && Restates(ps, Apply(log))
    ensures Sound(EncodeAll(ps)) && LogOf(EncodeAll(ps)) == ps
  {
    hide LogOf, Apply, Sound, EncodeAll, Fits, WholeWithin;
    PutsFit(log, ps);
    assert EncodeAll(ps)[..|EncodeAll(ps)|] == EncodeAll(ps) && ps[..|ps|] == ps;
    CutPuts(ps, |EncodeAll(ps)|);
    AllIsWhole(ps);
  }

  /** The finished file, read back. */
  lemma WrittenFile(disk: Disk, ids: seq<nat>, active: nat, ps: seq<Record>)
    requires Ready(disk, ids, active) && Restates(ps, Sealed(disk, ids, active))
    ensures Sound(EncodeAll(ps)) && LogOf(EncodeAll(ps)) == ps
  {
    hide LogOf, Apply, Sound, LogOfIds, EncodeAll, Fits, Ready;
    ReadyFits(disk, ids, active);
    WrittenPuts(LogOfIds(disk, ids), ps);
  }

  /** Once it is written, deleting the old segments oldest first changes nothing either. */
  lemma DeletingIsSafe(disk: Disk, ids: seq<nat>, active: nat, ps: seq<Record>, j: nat)
    requires Ready(disk, ids, active) && Named(active + 1) && j <= |ids|
    requires Restates(ps, Sealed(disk, ids, active)) && Covers(ps, Sealed(disk, ids, active))
    ensures RecoversTo(Without(disk[active + 1 := EncodeAll(ps)], ids[..j]), Live(Sealed(disk, ids, active)))
  {
    hide LogOf, Apply, Live, Sound, LogOfIds, RecoversTo, EncodeAll, Stage, Ready, Picks, Without, Named;
    WrittenFile(disk, ids, active, ps);
    SuffixStage(disk, ids, active, EncodeAll(ps), j);
    StageRecovers(disk, ids, active, ids[j..], EncodeAll(ps));
    ReadyFits(disk, ids, active);
    assert ids == ids[..j] + ids[j..];
    LogOfIdsConcat(disk, ids[..j], ids[j..]);
    ApplyConcat(LogOfIds(disk, ids[..j]), LogOfIds(disk, ids[j..]));
    NoResurrection(Apply(LogOfIds(disk, ids[..j])), Apply(LogOfIds(disk, ids[j..])), Apply(ps));
  }

  lemma LiveOverlaid(left: Merged, rewritten: Merged, m: Merged)
    requires (forall k :: k in rewritten <==> k in m && m[k].Some?) && (forall k :: k in rewritten ==>
        rewritten[k] == m[k])
    ensures Live(left + rewritten) == Live(m) <==> forall k :: k in Live(left) ==> k in Live(m)
  {
    if Live(left + rewritten) == Live(m) {
      forall k | k in Live(left) ensures k in Live(m) { assert k in Live(left + rewritten); }
    }
  }

  /** The order matters: with any other choice of segments left, a reopen gives the
      same map exactly when those segments, replayed together, have no key alive that
      is deleted by now. */
  lemma AnyDeletionIff(disk: Disk, ids: seq<nat>, active: nat, ps: seq<Record>, kept: seq<nat>)
    requires Ready(disk, ids, active) && Named(active + 1) && Picks(kept, ids)
    requires Restates(ps, Sealed(disk, ids, active)) && Covers(ps, Sealed(disk, ids, active))
    ensures forall id :: id in kept ==> id in disk
    ensures RecoversTo(Stage(disk, active, kept, EncodeAll(ps)), Live(Sealed(disk, ids, active)))
       <==> forall k :: k in Live(Apply(LogOfIds(disk, kept))) ==> k in Live(Sealed(disk, ids, active))
  {
    hide LogOf, Apply, Sound, LogOfIds, RecoversTo, EncodeAll, Stage, Ready, Picks, Restates, Named;
    WrittenFile(disk, ids, active, ps);
    StageRecovers(disk, ids, active, kept, EncodeAll(ps));
    RecoveryIsUnique(Stage(disk, active, kept, EncodeAll(ps)), Live(Apply(LogOfIds(disk, kept)) + Apply(ps)),
        Live(Sealed(disk, ids, active)));
    LiveOverlaid(Apply(LogOfIds(disk, kept)), Apply(ps), Sealed(disk, ids, active));
  }

  lemma OneRecordFile(r: Record)
    requires Fits(r)
    ensures Sound(EncodeAll([r])) && LogOf(EncodeAll([r])) == [r]
  {
    WholeFileHolds([r]);
    LogOfHolds(EncodeAll([r]), [r]);
  }

  lemma PutThenDelete(key: Bytes, value: Bytes)
    ensures Live(Apply([Put(key, value)])) == map[key := value] && Live(Apply([Put(key, value), Delete(key)])) == map[]
    ensures Covers([], Apply([Put(key, value), Delete(key)]))
  {
    ApplySnoc([], Put(key, value));
    ApplySnoc([Put(key, value)], Delete(key));
    assert [] + [Put(key, value)] == [Put(key, value)];
    assert [Put(key, value)] + [Delete(key)] == [Put(key, value), Delete(key)];
  }

  function TwoFiles(first: Bytes, second: Bytes): Disk {
    map[0 := first, 1 := second, 2 := []]
  }

  lemma ThreeAscend()
    ensures Ascending([0, 1] + [2]) && Ascending([0]) && forall id: nat :: id in [0, 1] + [2] <==> id <= 2
  {
    assert [0, 1] + [2] == [0, 1, 2];
  }

  lemma TwoFilesReady(first: Bytes, second: Bytes)
    requires Sound(first) && Sound(second)
    ensures Ready(TwoFiles(first, second), [0, 1], 2) && Picks([0], [0, 1])
  {
    EmptyIsClean();
    CleanIsSound([]);
    hide LogOf, Sound, Ascending;
    ThreeAscend();
    var disk := TwoFiles(first, second);
    forall id | id in disk ensures Sound(disk[id]) {
      if id == 0 {} else if id == 1 {} else {}
    }
    assert Lists([0, 1] + [2], disk);
  }

  lemma TwoFilesLog(first: Bytes, second: Bytes)
    ensures var disk := TwoFiles(first, second);
            LogOfIds(disk, [0]) == LogOf(first) && LogOfIds(disk, [0, 1]) == LogOf(first) + LogOf(second)
  {
    hide LogOf, LogOfIds;
    var disk := TwoFiles(first, second);
    NoLog(disk);
    LogOfIdsSnoc(disk, [], 0);
    LogOfIdsSnoc(disk, [0], 1);
    assert [] + [0] == [0] && [0] + [1] == [0, 1];
    assert [] + LogOf(first) == LogOf(first);
  }

  /** A put in the first segment and its deletion in the second: when only the first
      is left, the key is back. */
  lemma DeletedKeyReturns(key: Bytes, value: Bytes) returns (disk: Disk)
    requires Fits(Put(key, value)) && Fits(Delete(key))
    ensures Ready(disk, [0, 1], 2) && Live(Sealed(disk, [0, 1], 2)) == map[]
    ensures Restates([], Sealed(disk, [0, 1], 2)) && Covers([], Sealed(disk, [0, 1], 2)) && Picks([0], [0, 1])
    ensures RecoversTo(Stage(disk, 2, [0], EncodeAll([])), map[key := value])
  {
    hide LogOf, Fits, EncodeAll, RecoversTo, Stage, Named, Apply, Live, Sound, Ready, LogOfIds, Covers,
        TwoFiles, Picks;
    OneRecordFile(Put(key, value));
    OneRecordFile(Delete(key));
    PutThenDelete(key, value);
    var first, second := EncodeAll([Put(key, value)]), EncodeAll([Delete(key)]);
    disk := TwoFiles(first, second);
    TwoFilesReady(first, second);
    TwoFilesLog(first, second);
    assert [Put(key, value)] + [Delete(key)] == [Put(key, value), Delete(key)];
    NamedIff(3);
    WrittenFile(disk, [0, 1], 2, []);
    StageRecovers(disk, [0, 1], 2, [0], EncodeAll([]));
    assert Apply([]) == map[] by { ApplyNothing(); }
    assert Apply([Put(key, value)]) + map[] == Apply([Put(key, value)]);
  }

  // ---------------------------------------------------- the steps a disk can take

  /** One byte appended to one file. */
  ghost predicate Grows(d: Disk, e: Disk, id: nat) {
    id in d && id in e && e == d[id := e[id]] && |e[id]| == |d[id]| + 1 && d[id] <= e[id]
  }

  /** A file created empty, one byte appended, or a file deleted. */
  ghost predicate Change(d: Disk, e: Disk) {
    exists id: nat :: (id !in d && e == d[id := []]) || Grows(d, e, id) || e == d - {id}
  }

  /** Every state a directory goes through from `a` to `d`. */
  ghost predicate Path(trail: seq<Disk>, a: Disk, d: Disk) {
    && trail != [] && trail[0] == a && trail[|trail| - 1] == d
    && forall i :: 0 <= i < |trail| - 1 ==> Change(trail[i], trail[i + 1])
  }

  lemma PathSnoc(trail: seq<Disk>, a: Disk, d: Disk, e: Disk)
    requires Path(trail, a, d) && Change(d, e)
    ensures Path(trail + [e], a, e)
  {
    hide Change;
  }

  lemma PathConcat(s: seq<Disk>, t: seq<Disk>, a: Disk, d: Disk, e: Disk)
    requires Path(s, a, d) && Path(t, d, e)
    ensures Path(s + t[1..], a, e)
    ensures forall x :: x in s + t[1..] ==> x in s || x in t
  {
    hide Change;
    var u := s + t[1..];
    forall i | 0 <= i < |u| - 1 ensures Change(u[i], u[i + 1]) {
      if i >= |s| - 1 { assert u[i] == t[i - |s| + 1] && u[i + 1] == t[i - |s| + 2]; }
    }
    assert u[|u| - 1] == t[|t| - 1];
  }

  /** Appending some bytes goes through every prefix of them. */
  lemma {:induction false} PathGrows(trail: seq<Disk>, a: Disk, d: Disk, id: nat, bytes: Bytes)
      returns (longer: seq<Disk>)
    requires Path(trail, a, d) && id in d
    ensures Path(longer, a, d[id := d[id] + bytes])
    ensures forall e :: e in longer ==>
              e in trail || (id in e && e == d[id := e[id]] && d[id] <= e[id] <= d[id] + bytes)
    decreases |bytes|
  {
    if bytes == [] {
      assert d[id] + [] == d[id];
      return trail;
    }
    var e := d[id := d[id] + [bytes[0]]];
    assert Change(d, e) by { assert Grows(d, e, id); }
    PathSnoc(trail, a, d, e);
    hide Path;
    longer := PathGrows(trail + [e], a, e, id, bytes[1..]);
    assert (d[id] + [bytes[0]]) + bytes[1..] == d[id] + bytes by { assert bytes == [bytes[0]] + bytes[1..]; }
    assert e[id := e[id] + bytes[1..]] == d[id := d[id] + bytes];
  }

  // ----------------------------------------------------------- what compact does

  ghost predicate SortedKeys(ps: seq<Record>) {
    forall i, j :: 0 <= i < j < |ps| ==> ByteOrder.Less(ps[i].key, ps[j].key)
  }

  lemma {:induction false} PutsSorted(m: Merged, keys: seq<Bytes>)
    requires (forall k :: k in keys ==> k in m) && ByteOrder.Ascending(keys)
    ensures SortedKeys(PutsOf(m, keys)) && forall r :: r in PutsOf(m, keys) ==> r.key in keys
  {
    hide ByteOrder.Less;
    if keys != [] {
      var front := keys[..|keys| - 1];
      PutsSorted(m, front);
      assert forall i :: 0 <= i < |PutsOf(m, front)| ==> PutsOf(m, front)[i] in PutsOf(m, front);
    }
  }

  /** Every state is the base, or the base with part of the new file. */
  ghost predicate Writing(trail: seq<Disk>, base: Disk, id: nat, file: Bytes) {
    forall e :: e in trail ==> e == base || (id in e && e == base[id := e[id]] && e[id] <= file)
  }

  lemma WriteMore(trail: seq<Disk>, base: Disk, id: nat, file: Bytes, bytes: Bytes) returns (longer: seq<Disk>)
    requires Path(trail, base, base[id := file]) && Writing(trail, base, id, file)
    ensures Path(longer, base, base[id := file + bytes]) && Writing(longer, base, id, file + bytes)
  {
    hide Path;
    var d := base[id := file];
    longer := PathGrows(trail, base, d, id, bytes);
    assert d[id := d[id] + bytes] == base[id := file + bytes];
    assert forall e :: e in longer && id in e && e == d[id := e[id]] ==> e == base[id := e[id]];
    forall e | e in trail && id in e && e[id] <= file ensures e[id] <= file + bytes {}
  }

  lemma StartWriting(base: Disk, id: nat)
    requires id !in base
    ensures Path([base, base[id := []]], base, base[id := []]) && Writing([base, base[id := []]], base, id, [])
        && EncodeAll([]) == []
  {
    assert Change(base, base[id := []]);
  }

  /** Write the live keys in order to a new file. */
  method WriteLive(base: Disk, id: nat, merged: Merged) returns (d: Disk, ghost ps: seq<Record>, ghost trail: seq<Disk>)
    requires id !in base
    ensures Restates(ps, merged) && Covers(ps, merged) && SortedKeys(ps)
    ensures d == base[id := EncodeAll(ps)] && Path(trail, base, d) && Writing(trail, base, id, EncodeAll(ps))
  {
    hide EncodeFrame, ByteOrder.Less, Path, Writing, Restates, Covers, EncodeAll;
    var keys := ByteOrder.Sort(merged.Keys);
    d := base[id := []];
    trail := [base, d];
    ps := [];
    StartWriting(base, id);
    for i := 0 to |keys|
      invariant ps == PutsOf(merged, keys[..i])
      invariant d == base[id := EncodeAll(ps)] && Path(trail, base, d) && Writing(trail, base, id, EncodeAll(ps))
    {
      var key := keys[i];
      assert key in merged;
      assert keys[..i + 1][..i] == keys[..i];
      if merged[key].Some? {
        var r := Put(key, merged[key].value);
        EncodeAllSnoc(ps, r);
        trail := WriteMore(trail, base, id, EncodeAll(ps), EncodeFrame(r));
        d := d[id := d[id] + EncodeFrame(r)];
        ps := ps + [r];
      }
    }
    assert keys[..|keys|] == keys;
    PutsRestate(merged, keys);
    PutsCover(merged, keys);
    PutsSorted(merged, keys);
  }

  lemma StandStill(d: Disk)
    ensures Path([d], d, d)
  {}

  /** Delete files one after the other. */
  method RemoveAll(base: Disk, ids: seq<nat>) returns (d: Disk, ghost trail: seq<Disk>)
    ensures d == Without(base, ids) && Path(trail, base, d)
    ensures forall e :: e in trail ==> exists j :: 0 <= j <= |ids| && e == Without(base, ids[..j])
  {
    hide Path;
    d := base;
    trail := [base];
    assert Path(trail, base, base) by { StandStill(base); }
    assert base == Without(base, ids[..0]);
    for i := 0 to |ids|
      invariant d == Without(base, ids[..i]) && Path(trail, base, d)
      invariant forall e :: e in trail ==> exists j :: 0 <= j <= i && e == Without(base, ids[..j])
    {
      var e := d - {ids[i]};
      PathSnoc(trail, base, d, e);
      assert ids[..i + 1] == ids[..i] + [ids[i]];
      assert e == Without(base, ids[..i + 1]);
      trail := trail + [e];
      d := e;
    }
    assert ids[..|ids|] == ids;
  }

  lemma ReadyRecovers(disk: Disk, ids: seq<nat>, active: nat)
    requires Ready(disk, ids, active) && Named(active + 1)
    ensures RecoversTo(disk, Live(Sealed(disk, ids, active)))
  {
    hide LogOf, Sound, LogOfIds, Apply, Live, RecoversTo, Ascending, Named;
    StageIsNamed(disk, ids, active, [], []);
    EmptyIsClean();
    ReadyFits(disk, ids, active);
    LogOfIdsSnoc(disk, ids, active);
    assert LogOfIds(disk, ids) + [] == LogOfIds(disk, ids);
    Recovers(disk, ids + [active]);
  }

  /** No state on the way of a compaction loses or revives a key. */
  lemma CompactionIsSafe(disk: Disk, ids: seq<nat>, active: nat, ps: seq<Record>, writing: seq<Disk>,
      removing: seq<Disk>)
    requires Ready(disk, ids, active) && Named(active + 1)
    requires Restates(ps, Sealed(disk, ids, active)) && Covers(ps, Sealed(disk, ids, active))
    requires Writing(writing, disk, active + 1, EncodeAll(ps))
    requires forall e :: e in removing ==> exists j ::
        0 <= j <= |ids| && e == Without(disk[active + 1 := EncodeAll(ps)], ids[..j])
    ensures forall e :: e in writing || e in removing ==> RecoversTo(e, Live(Sealed(disk, ids, active)))
  {
    hide Ready, Sealed, Restates, Covers, EncodeAll, RecoversTo, Live, Without, Named;
    var m := Live(Sealed(disk, ids, active));
    forall e | e in writing ensures RecoversTo(e, m) {
      if e == disk {
        ReadyRecovers(disk, ids, active);
      } else {
        assert e[active + 1] == EncodeAll(ps)[..|e[active + 1]|];
        WritingIsSafe(disk, ids, active, ps, |e[active + 1]|);
      }
    }
    forall e | e in removing ensures RecoversTo(e, m) {
      var j :| 0 <= j <= |ids| && e == Without(disk[active + 1 := EncodeAll(ps)], ids[..j]);
      DeletingIsSafe(disk, ids, active, ps, j);
    }
  }

  lemma PathStarts(trail: seq<Disk>, a: Disk, d: Disk)
    requires Path(trail, a, d)
    ensures trail != [] && a in trail
  {
    assert trail[0] == a;
  }

  /** The finished segment holds the live keys and nothing else. */
  lemma RewrittenFile(log: seq<Record>, ps: seq<Record>)
    requires AllFit(log) && Restates(ps, Apply(log)) && Covers(ps, Apply(log))
    ensures Sound(EncodeAll(ps)) && LogOf(EncodeAll(ps)) == ps
    ensures Live(Apply(ps)) == Live(Apply(log)) && forall r :: r in ps ==> r.Put?
  {
    hide LogOf, Sound, EncodeAll, Apply;
    WrittenPuts(log, ps);
    assert forall k :: k in Live(Apply(ps)) <==> k in Live(Apply(log));
  }

  lemma ReadyIsEmpty(disk: Disk, ids: seq<nat>, active: nat)
    requires Ready(disk, ids, active)
    ensures active in disk && disk[active] == []
  {}

  lemma TwoKeys(d: Disk, a: nat, b: nat)
    requires forall id :: id in d <==> id == a || id == b
    ensures d.Keys == {a, b}
  {}

  lemma RewrittenDisk(disk: Disk, ids: seq<nat>, active: nat, file: Bytes)
    requires Ready(disk, ids, active)
    ensures var d := Without(disk[active + 1 := file], ids);
            d.Keys == {active, active + 1} && d[active] == [] && d[active + 1] == file
  {
    ReadyOrder(disk, ids, active);
    ReadyIsEmpty(disk, ids, active);
    hide Ready, Ascending, Without;
    WithoutHas(disk[active + 1 := file], ids);
    TwoKeys(Without(disk[active + 1 := file], ids), active, active + 1);
  }
}
