/** A directory of segment files: what it holds, and what a crash leaves of it. */
module Directory {
  import opened Wrappers
  import opened Records
  import opened Merge
  import opened SegmentNames

  /** Segment files by id. */
  type Disk = map<nat, Bytes>

  /** A file the reader accepts, with records it would accept again. */
  predicate Sound(file: Bytes) {
    Readable(file) && AllFit(LogOf(file))
  }

  /** A file made of whole frames that the reader accepts. */
  predicate Clean(file: Bytes) {
    AllFit(LogOf(file)) && file == EncodeAll(LogOf(file))
  }

  lemma {:induction false} ScannedFits(file: Bytes, offset: nat)
    requires ScanFile(file, offset).Entries?
    ensures forall e :: e in ScanFile(file, offset).entries ==> Fits(e.1)
    decreases |file| - offset
  {
    hide ReadFrameAt, DecodeRecord, EncodeRecord;
    var frame := ReadFrameAt(file, offset);
    if frame.Some? {
      ReadFrameMoves(file, offset);
      DecodedIsNoLonger(frame.value);
      ScannedFits(file, offset + FRAME_HEAD + |frame.value|);
    }
  }

  /** Whatever the reader accepts it would accept again, rewritten. */
  lemma ReadableIsSound(file: Bytes)
    requires Readable(file)
    ensures Sound(file)
  {
    ScannedFits(file, 0);
    hide ScanFile, Fits;
    var entries := ScanFile(file, 0).entries;
    forall r | r in LogOf(file) ensures Fits(r) {
      var i :| 0 <= i < |entries| && entries[i].1 == r;
      assert entries[i] in entries;
    }
  }

  /** All records of some files, in the order of the ids given. */
  function LogOfIds(disk: Disk, ids: seq<nat>): seq<Record>
    requires forall id :: id in ids ==> id in disk
  {
    if ids == [] then [] else LogOfIds(disk, ids[..|ids| - 1]) + LogOf(disk[ids[|ids| - 1]])
  }

  lemma {:induction false} LogOfIdsDepends(d: Disk, e: Disk, ids: seq<nat>)
    requires forall id :: id in ids ==> id in d && id in e && d[id] == e[id]
    ensures LogOfIds(d, ids) == LogOfIds(e, ids)
  {
    if ids != [] { LogOfIdsDepends(d, e, ids[..|ids| - 1]); }
  }

  lemma LogOfIdsSnoc(disk: Disk, ids: seq<nat>, id: nat)
    requires (forall i :: i in ids ==> i in disk) && id in disk
    ensures LogOfIds(disk, ids + [id]) == LogOfIds(disk, ids) + LogOf(disk[id])
  {
    assert (ids + [id])[..|ids|] == ids;
  }

  lemma WholeFileHolds(log: seq<Record>)
    requires AllFit(log)
    ensures Holds(EncodeAll(log), log)
  {
    assert EncodeAll(log)[|EncodeAll(log)|..] == [];
  }

  lemma CleanGrows(file: Bytes, r: Record)
    requires Clean(file) && Fits(r)
    ensures Clean(file + EncodeFrame(r)) && LogOf(file + EncodeFrame(r)) == LogOf(file) + [r]
  {
    hide EncodeFrame, LogOf, Fits;
    var log := LogOf(file) + [r];
    EncodeAllSnoc(LogOf(file), r);
    WholeFileHolds(log);
    LogOfHolds(file + EncodeFrame(r), log);
  }

  lemma CleanIsSound(file: Bytes)
    requires Clean(file)
    ensures Sound(file)
  {
    WholeFileHolds(LogOf(file));
    LogOfHolds(file, LogOf(file));
  }

  lemma EmptyIsClean()
    ensures Clean([]) && LogOf([]) == []
  {
    assert EncodeAll([]) == [];
    WholeFileHolds([]);
    LogOfHolds([], []);
  }

  lemma ApplyNothing()
    ensures Apply([]) == map[]
  {}

  lemma NoLog(disk: Disk)
    ensures LogOfIds(disk, []) == [] && Apply([]) == map[]
  {}

  lemma AscendingLast(ids: seq<nat>, last: nat)
    requires Ascending(ids + [last])
    ensures forall id :: id in ids ==> id < last
  {
    forall id | id in ids ensures id < last {
      var i :| 0 <= i < |ids| && ids[i] == id;
      assert (ids + [last])[i] == id && (ids + [last])[|ids|] == last;
    }
  }

  lemma {:induction false} LogOfIdsConcat(disk: Disk, a: seq<nat>, b: seq<nat>)
    requires forall id :: id in a + b ==> id in disk
    ensures (forall id :: id in a ==> id in disk) && (forall id :: id in b ==> id in disk)
    ensures LogOfIds(disk, a + b) == LogOfIds(disk, a) + LogOfIds(disk, b)
    decreases |b|
  {
    forall id | id in a ensures id in disk { assert id in a + b; }
    forall id | id in b ensures id in disk { assert id in a + b; }
    hide LogOf;
    if b == [] {
      assert a + b == a;
    } else {
      var front, last := b[..|b| - 1], b[|b| - 1];
      assert a + b == (a + front) + [last];
      assert forall id :: id in a + front ==> id in a + b;
      LogOfIdsConcat(disk, a, front);
    }
  }

  // ---------------------------------------------------------------- recovery

  ghost predicate Lists(ids: seq<nat>, disk: Disk) {
    Ascending(ids) && forall id :: id in ids <==> id in disk
  }

  /** The files an opening reads: those whose names parse, and the one after the last
      of these, which is replayed when it is there although its name is too long. */
  predicate Seen(disk: Disk, id: nat) {
    Named(id) || (id > 0 && Named(id - 1) && id - 1 in disk)
  }

  function Listed(disk: Disk): Disk {
    map id | id in disk && Seen(disk, id) :: disk[id]
  }

  /** The segment a newly opened engine writes to. */
  function Successor(ids: seq<nat>): nat {
    if ids == [] then 0 else ids[|ids| - 1] + 1
  }

  /** These are the files read, and none has a body that is no record. */
  ghost predicate Found(ids: seq<nat>, disk: Disk) {
    Lists(ids, Listed(disk)) && forall id :: id in ids ==> Sound(disk[id])
  }

  /** Opening this directory answers like the map `m`. */
  ghost predicate RecoversTo(disk: Disk, m: map<Bytes, Bytes>) {
    exists ids :: Found(ids, disk) && Live(Apply(LogOfIds(Listed(disk), ids))) == m
  }

  /** The records of a directory do not depend on how it was listed. */
  lemma ListingIsUnique(disk: Disk, a: seq<nat>, b: seq<nat>)
    requires Lists(a, disk) && Lists(b, disk)
    ensures a == b
  {
    AscendingIsUnique(a, b);
  }

  lemma RecoveryIsUnique(disk: Disk, m: map<Bytes, Bytes>, n: map<Bytes, Bytes>)
    requires RecoversTo(disk, m)
    ensures RecoversTo(disk, n) <==> m == n
  {
    hide LogOf, Sound, Apply, Live, LogOfIds, Ascending, Listed;
    var a :| Found(a, disk) && Live(Apply(LogOfIds(Listed(disk), a))) == m;
    if RecoversTo(disk, n) {
      var b :| Found(b, disk) && Live(Apply(LogOfIds(Listed(disk), b))) == n;
      ListingIsUnique(Listed(disk), a, b);
    }
  }

  // ------------------------------------------------------- a cut last segment

  /** Everything after segment `id` is empty: it is the last one written. */
  ghost predicate LastWritten(disk: Disk, id: nat) {
    id in disk && forall j :: j in disk && j > id ==> disk[j] == []
  }

  lemma {:induction false} EmptyFilesAddNothing(disk: Disk, ids: seq<nat>)
    requires forall id :: id in ids ==> id in disk && disk[id] == []
    ensures LogOfIds(disk, ids) == []
  {
    EmptyIsClean();
    if ids != [] { EmptyFilesAddNothing(disk, ids[..|ids| - 1]); }
  }

  function Cut(disk: Disk, id: nat, c: nat): Disk
    requires id in disk && c <= |disk[id]|
  {
    disk[id := disk[id][..c]]
  }

  lemma AroundId(ids: seq<nat>, at: nat)
    requires at < |ids|
    ensures ids == ids[..at] + ([ids[at]] + ids[at + 1..])
  {}

  /** A cut file changes no other. */
  lemma CutElsewhere(disk: Disk, id: nat, c: nat)
    requires id in disk && c <= |disk[id]|
    ensures var cut := Cut(disk, id, c);
            cut.Keys == disk.Keys && cut[id] == disk[id][..c] && forall j :: j in disk && j != id ==> cut[j] == disk[j]
  {}

  /** The other segments around a last written one: older ones differ, younger ones are empty. */
  lemma Neighbours(disk: Disk, ids: seq<nat>, at: nat)
    requires Lists(ids, disk) && at < |ids| && LastWritten(disk, ids[at])
    ensures forall j :: j in ids[..at] ==> j in disk && j != ids[at]
    ensures forall j :: j in ids[at + 1..] ==> j in disk && j != ids[at] && disk[j] == []
  {
    forall j | j in ids[at + 1..] ensures j in disk && j != ids[at] && disk[j] == [] {
      var x :| 0 <= x < |ids[at + 1..]| && ids[at + 1..][x] == j;
      assert ids[at + 1 + x] == j && ids[at] < ids[at + 1 + x];
    }
    forall j | j in ids[..at] ensures j in disk && j != ids[at] {
      var x :| 0 <= x < at && ids[..at][x] == j;
      assert ids[x] == j;
    }
  }

  lemma LogAround(disk: Disk, before: seq<nat>, id: nat, after: seq<nat>)
    requires (forall j :: j in before ==> j in disk) && id in disk
    requires forall j :: j in after ==> j in disk && disk[j] == []
    ensures (forall j :: j in before + ([id] + after) ==> j in disk)
    ensures LogOfIds(disk, before + ([id] + after)) == LogOfIds(disk, before) + LogOf(disk[id])
  {
    hide LogOf;
    LogOfIdsConcat(disk, before, [id] + after);
    LogOfIdsConcat(disk, [id], after);
    EmptyFilesAddNothing(disk, after);
    assert [id] == [] + [id];
    LogOfIdsSnoc(disk, [], id);
    assert LogOfIds(disk, [id]) == LogOf(disk[id]);
  }

  /** The records of the last written segment end the log. */
  lemma LogSplitsAt(disk: Disk, ids: seq<nat>, at: nat)
    requires Lists(ids, disk) && at < |ids| && LastWritten(disk, ids[at])
    ensures (forall id :: id in ids[..at] ==> id in disk)
    ensures LogOfIds(disk, ids) == LogOfIds(disk, ids[..at]) + LogOf(disk[ids[at]])
  {
    Neighbours(disk, ids, at);
    hide LogOf, LogOfIds, Ascending, Lists, LastWritten;
    AroundId(ids, at);
    LogAround(disk, ids[..at], ids[at], ids[at + 1..]);
  }

  lemma SameListing(ids: seq<nat>, d: Disk, e: Disk)
    requires Lists(ids, d) && d.Keys == e.Keys
    ensures Lists(ids, e)
  {}

  lemma CutKeepsListing(disk: Disk, ids: seq<nat>, at: nat, c: nat)
    requires Lists(ids, disk) && at < |ids| && LastWritten(disk, ids[at]) && c <= |disk[ids[at]]|
    ensures var cut := Cut(disk, ids[at], c);
            && Lists(ids, cut) && LastWritten(cut, ids[at])
            && forall j :: j in ids[..at] ==> j in disk && j in cut && cut[j] == disk[j]
  {
    Neighbours(disk, ids, at);
    CutElsewhere(disk, ids[at], c);
    hide Cut, Ascending;
    SameListing(ids, disk, Cut(disk, ids[at], c));
  }

  lemma CutLog(disk: Disk, ids: seq<nat>, at: nat, c: nat)
    requires Lists(ids, disk) && at < |ids| && LastWritten(disk, ids[at]) && c <= |disk[ids[at]]|
    ensures Lists(ids, Cut(disk, ids[at], c)) && (forall j :: j in ids[..at] ==> j in disk)
    ensures LogOfIds(Cut(disk, ids[at], c), ids) == LogOfIds(disk, ids[..at]) + LogOf(disk[ids[at]][..c])
  {
    CutKeepsListing(disk, ids, at, c);
    var cut := Cut(disk, ids[at], c);
    assert cut[ids[at]] == disk[ids[at]][..c];
    hide LogOf, LogOfIds, Cut, LastWritten, Ascending;
    LogSplitsAt(cut, ids, at);
    LogOfIdsDepends(disk, cut, ids[..at]);
  }

  lemma CutSound(file: Bytes, c: nat)
    requires Clean(file) && c <= |file|
    ensures Sound(file[..c]) && LogOf(file[..c]) == LogOf(file)[..WholeWithin(LogOf(file), c)]
  {
    var log := LogOf(file);
    hide LogOf, EncodeAll, Fits, WholeWithin;
    CutHolds(log, c);
    LogOfHolds(file[..c], log[..WholeWithin(log, c)]);
  }

  lemma CutSoundEverywhere(disk: Disk, id: nat, c: nat)
    requires id in disk && Clean(disk[id]) && c <= |disk[id]| && forall j :: j in disk ==> Sound(disk[j])
    ensures forall j :: j in Cut(disk, id, c) ==> Sound(Cut(disk, id, c)[j])
  {
    hide Clean, Sound;
    CutSound(disk[id], c);
  }

  /** A directory of which an opening reads every file. */
  ghost predicate AllSeen(disk: Disk) {
    forall id :: id in disk ==> Seen(disk, id)
  }

  lemma AllSeenListed(disk: Disk)
    requires AllSeen(disk)
    ensures Listed(disk) == disk
  {}

  lemma SuccessorIsNew(ids: seq<nat>)
    requires Ascending(ids)
    ensures Successor(ids) !in ids
  {
    forall i | 0 <= i < |ids| ensures ids[i] != Successor(ids) {
      assert i < |ids| - 1 ==> ids[i] < ids[|ids| - 1];
    }
  }

  lemma Recovers(disk: Disk, ids: seq<nat>)
    requires Lists(ids, disk) && AllSeen(disk) && forall id :: id in disk ==> Sound(disk[id])
    ensures RecoversTo(disk, Live(Apply(LogOfIds(disk, ids))))
  {
    hide LogOf, Apply, Live, LogOfIds, Sound, Listed;
    AllSeenListed(disk);
    assert Found(ids, disk);
  }

  lemma CutRecovers(disk: Disk, ids: seq<nat>, at: nat, c: nat)
    requires Lists(ids, disk) && at < |ids| && LastWritten(disk, ids[at]) && Clean(disk[ids[at]])
        && c <= |disk[ids[at]]|
    requires AllSeen(disk) && forall id :: id in disk ==> Sound(disk[id])
    ensures forall j :: j in ids[..at] ==> j in disk
    ensures var younger := LogOf(disk[ids[at]]);
            RecoversTo(Cut(disk, ids[at], c),
                       Live(Apply(LogOfIds(disk, ids[..at]) + younger[..WholeWithin(younger, c)])))
  {
    hide LogOf, Apply, Live, Clean, Sound, LogOfIds, RecoversTo, WholeWithin, LastWritten, Ascending, Named;
    assert AllSeen(Cut(disk, ids[at], c));
    hide Cut, AllSeen;
    CutSoundEverywhere(disk, ids[at], c);
    CutSound(disk[ids[at]], c);
    CutLog(disk, ids, at, c);
    Recovers(Cut(disk, ids[at], c), ids);
  }

  lemma WrittenIsListed(disk: Disk, ids: seq<nat>, w: nat)
    requires Lists(ids, disk) && LastWritten(disk, w)
    ensures w in ids && w in disk
  {}

  lemma CleanIsEncoded(file: Bytes)
    requires Clean(file)
    ensures file == EncodeAll(LogOf(file))
  {}

  /** Cutting the last written segment anywhere leaves the records before it and the
      longest prefix of its own whose frames lie wholly before the cut. */
  lemma CutParts(disk: Disk, ids: seq<nat>, w: nat, c: nat) returns (older: seq<Record>, younger: seq<Record>)
    requires Lists(ids, disk) && LastWritten(disk, w) && Clean(disk[w]) && c <= |disk[w]|
    requires AllSeen(disk) && forall id :: id in disk ==> Sound(disk[id])
    ensures older + younger == LogOfIds(disk, ids) && disk[w] == EncodeAll(younger) && younger == LogOf(disk[w])
    ensures RecoversTo(Cut(disk, w, c), Live(Apply(older + younger[..WholeWithin(younger, c)])))
  {
    hide LogOf, Apply, Live, Clean, Sound, LogOfIds, RecoversTo, WholeWithin, EncodeAll, LastWritten, Ascending, Cut,
        Named;
    WrittenIsListed(disk, ids, w);
    var at :| 0 <= at < |ids| && ids[at] == w;
    LogSplitsAt(disk, ids, at);
    CleanIsEncoded(disk[w]);
    older, younger := LogOfIds(disk, ids[..at]), LogOf(disk[w]);
    CutRecovers(disk, ids, at, c);
  }
}
