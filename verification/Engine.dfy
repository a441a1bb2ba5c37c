/**
 The log-structured key-value engine: an active segment with its memtable, sealed
 segments with their indexes, and a directory of files.
 */
module Engine {
  import opened Wrappers
  import opened Records
  import opened Merge
  import opened Directory
  import opened SegmentFiles
  import opened Compaction
  import opened PrefixScan
  import ByteOrder
  import Decimal
  import opened SegmentNames

  const SEAL_THRESHOLD: nat := 1000

  /** A sealed segment: its file's id and where each key's last record starts. */
  datatype Segment = Segment(id: nat, index: map<Bytes, nat>)

  predicate SegmentOk(disk: Disk, s: Segment) {
    s.id in disk && Sound(disk[s.id]) && s.index == IndexOf(ScanFile(disk[s.id], 0).entries)
  }

  /** Sealed segments, none of them behind the writer. */
  ghost predicate SegmentsOk(disk: Disk, segments: seq<Segment>, active: nat) {
    forall s :: s in segments ==> SegmentOk(disk, s) && s.id != active
  }

  /** All ids are below the next one. */
  ghost predicate Below(disk: Disk, next: nat) {
    forall id :: id in disk ==> id < next
  }

  function Ids(segments: seq<Segment>): (ids: seq<nat>)
    ensures |ids| == |segments|
  {
    seq(|segments|, i requires 0 <= i < |segments| => segments[i].id)
  }

  /** Sealed segments do not notice changes to other files. */
  lemma SegmentsStay(d: Disk, e: Disk, segments: seq<Segment>)
    requires forall s :: s in segments ==> SegmentOk(d, s) && s.id in e && e[s.id] == d[s.id]
    ensures forall s :: s in segments ==> SegmentOk(e, s)
    ensures (forall id :: id in Ids(segments) ==>
        id in d && id in e) && LogOfIds(d, Ids(segments)) == LogOfIds(e, Ids(segments))
  {
    LogOfIdsDepends(d, e, Ids(segments));
  }

  lemma SegmentOkHasFile(disk: Disk, segments: seq<Segment>)
    requires forall s :: s in segments ==> SegmentOk(disk, s)
    ensures forall s :: s in segments ==> s.id in disk && Sound(disk[s.id])
    ensures forall id :: id in Ids(segments) ==> id in disk && Sound(disk[id])
  {
    hide Sound, IndexOf, ScanFile;
  }

  /** Scan one file and index it; an unreadable record is an error. */
  method BuildIndex(file: Bytes) returns (r: Result<map<Bytes, nat>, StorageError>)
    ensures r.Ok? <==> Readable(file)
    ensures r.Ok? ==> r.value == IndexOf(ScanFile(file, 0).entries)
    ensures r.Err? ==> BadBody(file, r.error)
  {
    hide ReadFrameAt, DecodeRecord;
    var index: map<Bytes, nat> := map[];
    var offset := 0;
    ghost var seen: seq<(nat, Record)> := [];
    while true
      invariant index == IndexOf(seen)
      invariant ScanFile(file, offset).Entries? <==> Readable(file)
      invariant Readable(file) ==> ScanFile(file, 0).entries == seen + ScanFile(file, offset).entries
      decreases |file| - offset
    {
      var frame := ReadFrameAt(file, offset);
      if frame.None? {
        assert seen + [] == seen;
        return Ok(index);
      }
      ReadFrameMoves(file, offset);
      var record := DecodeRecord(frame.value);
      match record
      case Err(e) =>
        assert BadBodyAt(file, offset, e);
        return Err(e);
      case Ok(r) =>
        index := index[r.key := offset];
        assert (seen + [(offset, r)])[..|seen|] == seen;
        if Readable(file) {
          var rest := ScanFile(file, offset + FRAME_HEAD + |frame.value|).entries;
          assert seen + ([(offset, r)] + rest) == (seen + [(offset, r)]) + rest;
        }
        seen := seen + [(offset, r)];
        offset := offset + FRAME_HEAD + |frame.value|;
    }
  }

  lemma StillLast(disk: Disk, id: nat, next: nat)
    requires LastWritten(disk, id) && next !in disk
    ensures LastWritten(disk[next := []], id) && disk[next := []][id] == disk[id]
  {}

  lemma LastIsGreatest(ids: seq<nat>)
    requires Ascending(ids)
    ensures forall id :: id in ids ==> id <= ids[|ids| - 1]
  {
    forall id | id in ids ensures id <= ids[|ids| - 1] {
      var i :| 0 <= i < |ids| && ids[i] == id;
    }
  }

  /** The writer's file: what was read to its end, and the frames written behind it. */
  ghost predicate WriterOk(file: Bytes, base: Bytes, written: seq<Record>) {
    file == base + EncodeAll(written) && Whole(base) && AllWritable(written)
  }

  lemma EmptyFile()
    ensures WriterOk([], [], []) && Whole([]) && Sound([]) && LogOf([]) == [] && Apply(LogOf([]) + []) == map[]
    ensures AllFit([])
  {
    NothingIsWhole();
    EncodeAllNone();
  }

  lemma WriterStarts(base: Bytes)
    requires Whole(base)
    ensures WriterOk(base, base, []) && Sound(base) && LogOf(base) + [] == LogOf(base) && AllFit([])
  {
    EncodeAllNone();
    hide LogOf, Whole;
    GrownIsSound(base, []);
    assert base + [] == base;
  }

  lemma WriterIsSound(file: Bytes, base: Bytes, written: seq<Record>)
    requires WriterOk(file, base, written)
    ensures Sound(file) && LogOf(file) == LogOf(base) + Legible(written)
    ensures AllFit(written) ==> LogOf(file) == LogOf(base) + written
  {
    hide LogOf, Whole, Sound, EncodeAll, AllWritable, AllFit, Legible;
    GrownIsSound(base, written);
    if AllFit(written) { LegibleIfFit(written); }
  }

  lemma ConcatRecords(a: seq<Record>, b: seq<Record>, c: seq<Record>)
    ensures (a + b) + c == a + (b + c)
  {}

  lemma WriterGrows(file: Bytes, base: Bytes, written: seq<Record>, r: Record)
    requires WriterOk(file, base, written) && Writable(r)
    ensures WriterOk(file + EncodeFrame(r), base, written + [r]) && Sound(file + EncodeFrame(r))
    ensures Apply(LogOf(base) + (written + [r])) == Apply(LogOf(base) + written)[r.key := Effect(r)]
  {
    hide LogOf, Whole, Sound, EncodeAll, Writable, EncodeFrame, Apply;
    EncodeAllSnoc(written, r);
    ConcatAssoc(base, EncodeAll(written), EncodeFrame(r));
    ConcatRecords(LogOf(base), written, [r]);
    ApplySnoc(LogOf(base) + written, r);
    WriterIsSound(file + EncodeFrame(r), base, written + [r]);
  }

  lemma FitsIsWritable(r: Record)
    requires Fits(r)
    ensures Writable(r)
  {}

  lemma SameTails(a: seq<Record>, b: seq<Record>, c: seq<Record>, d: seq<Record>)
    ensures a + (b + c) == a + (b + d) <==> c == d
  {
    if a + (b + c) == a + (b + d) {
      assert c == (a + (b + c))[|a| + |b|..] == (a + (b + d))[|a| + |b|..] == d;
    }
  }

  lemma SegmentHasId(segments: seq<Segment>, s: Segment)
    requires s in segments
    ensures s.id in Ids(segments)
  {
    var i :| 0 <= i < |segments| && segments[i] == s;
    assert Ids(segments)[i] == s.id;
  }

  lemma LegibleIff(log: seq<Record>)
    ensures Legible(log) == log <==> AllFit(log)
  {
    LegibleIsPrefix(log);
    hide Legible, Fits;
    if AllFit(log) { LegibleIfFit(log); }
  }

  lemma SealedNow(disk: Disk, s: Segment)
    requires s.id in disk && Sound(disk[s.id]) && s.index == IndexOf(ScanFile(disk[s.id], 0).entries)
    ensures SegmentOk(disk, s)
  {}

  lemma BelowNext(disk: Disk, next: nat)
    requires Below(disk, next)
    ensures Below(disk[next := []], next + 1) && next !in disk
  {}

  lemma AlignedAfterSeal(disk: Disk, ids: seq<nat>, active: nat)
    requires Ascending(ids + [active]) && forall id :: id in disk ==> id in ids + [active]
    ensures Ascending((ids + [active]) + [active + 1])
    ensures forall id :: id in disk || id == active + 1 ==> id in (ids + [active]) + [active + 1]
  {
    AscendingLast(ids, active);
    hide Ascending;
    AscendingSnoc(ids + [active], active + 1);
  }

  /** One more segment is sealed and an empty file is opened. */
  lemma SealSegments(disk: Disk, next: nat, segments: seq<Segment>, sealed: Segment)
    requires SegmentsOk(disk, segments, next) && Below(disk, next) && SegmentOk(disk, sealed)
    ensures var after, all := disk[next := []], segments + [sealed];
            && SegmentsOk(after, all, next)
            && Ids(all) == Ids(segments) + [sealed.id]
            && (forall id :: id in Ids(all) ==> id in after) && (forall id :: id in Ids(segments) ==> id in disk)
            && LogOfIds(after, Ids(all)) == LogOfIds(disk, Ids(segments)) + LogOf(disk[sealed.id])
  {
    hide LogOf, Sound, ScanFile, IndexOf, LogOfIds;
    var after := disk[next := []];
    SegmentOkHasFile(disk, segments);
    SegmentsStay(disk, after, segments);
    SegmentsStay(disk, after, segments + [sealed]);
    assert Ids(segments + [sealed]) == Ids(segments) + [sealed.id];
    LogOfIdsSnoc(after, Ids(segments), sealed.id);
  }

  lemma SuccessorIsLast(ids: seq<nat>)
    requires Ascending(ids)
    ensures Ascending(ids + [Successor(ids)]) && (Successor(ids) == 0 || Successor(ids) - 1 in ids)
    ensures forall id :: id in ids ==> id < Successor(ids)
  {
    LastIsGreatest(ids);
    hide Ascending;
    if ids != [] { assert ids[|ids| - 1] in ids; }
    AscendingSnoc(ids, Successor(ids));
  }

  lemma FirstChange(before: Disk, after: Disk, id: nat)
    requires id !in before && after == before[id := []]
    ensures Path([before, after], before, after)
  {
    assert Change(before, after);
  }

  /** Index some segment files; the first unreadable one is an error. */
  method IndexAll(files: Disk, ids: seq<nat>) returns (r: Result<seq<Segment>, StorageError>)
    requires forall id :: id in ids ==> id in files
    ensures r.Ok? <==> forall id :: id in ids ==> Readable(files[id])
    ensures r.Ok? ==> Ids(r.value) == ids && forall s :: s in r.value ==> SegmentOk(files, s)
    ensures r.Ok? ==> forall id :: id in ids ==> Sound(files[id])
    ensures r.Err? ==> exists id :: id in ids && BadBody(files[id], r.error)
  {
    hide LogOf, ScanFile, IndexOf, Sound;
    var sealed: seq<Segment> := [];
    for i := 0 to |ids|
      invariant Ids(sealed) == ids[..i]
      invariant forall s :: s in sealed ==> SegmentOk(files, s)
      invariant forall id :: id in ids[..i] ==> Readable(files[id]) && Sound(files[id])
    {
      assert ids[i] in ids;
      var index := BuildIndex(files[ids[i]]);
      match index
      case Err(e) => return Err(e);
      case Ok(found) =>
        ReadableIsSound(files[ids[i]]);
        sealed := sealed + [Segment(ids[i], found)];
        assert ids[..i + 1] == ids[..i] + [ids[i]];
    }
    assert ids[..|ids|] == ids;
    return Ok(sealed);
  }

  lemma {:induction false} PutsHaveValues(log: seq<Record>)
    requires forall p :: p in log ==> p.Put?
    ensures forall k :: k in Apply(log) ==> Apply(log)[k].Some?
  {
    if log != [] { PutsHaveValues(log[..|log| - 1]); }
  }

  lemma OneSegment(disk: Disk, id: nat)
    requires id in disk
    ensures LogOfIds(disk, [id]) == LogOf(disk[id])
  {
    hide LogOf;
    assert [id] == [] + [id];
    LogOfIdsSnoc(disk, [], id);
  }

  lemma AllSeenUpTo(disk: Disk, last: nat)
    requires Seen(disk, last) && forall id :: id in disk ==> id <= last
    ensures AllSeen(disk)
  {
    hide Named;
    forall id | id in disk ensures Seen(disk, id) {
      if Named(last) {
        NamedBelow(id, last);
      } else if id < last {
        NamedBelow(id, last - 1);
      }
    }
  }

  lemma TwoListed(disk: Disk, a: nat)
    requires a in disk && a + 1 in disk && disk.Keys == {a, a + 1} && Sound(disk[a]) && Sound(disk[a + 1])
        && Named(a + 1)
    ensures Lists([a] + [a + 1], disk) && AllSeen(disk) && forall id :: id in disk ==> Sound(disk[id])
  {
    hide Sound, Named;
    assert forall id :: id in [a] + [a + 1] <==> id in disk.Keys;
    forall id | id in disk ensures id <= a + 1 { assert id in disk.Keys; }
    AllSeenUpTo(disk, a + 1);
  }

  lemma TwoLogs(disk: Disk, a: nat)
    requires a in disk && a + 1 in disk
    ensures Apply(LogOfIds(disk, [a] + [a + 1])) == Apply(LogOf(disk[a])) + Apply(LogOf(disk[a + 1]))
  {
    hide LogOf, Apply, LogOfIds;
    OneSegment(disk, a);
    LogOfIdsSnoc(disk, [a], a + 1);
    ApplyConcat(LogOf(disk[a]), LogOf(disk[a + 1]));
  }

  lemma TwoSegments(disk: Disk, a: nat)
    requires disk.Keys == {a, a + 1} && Sound(disk[a]) && Sound(disk[a + 1]) && Named(a + 1)
    ensures RecoversTo(disk, Live(Apply(LogOf(disk[a])) + Apply(LogOf(disk[a + 1]))))
  {
    TwoListed(disk, a);
    hide LogOf, Sound, Apply, Live, LogOfIds, RecoversTo, Named, AllSeen, Lists;
    TwoLogs(disk, a);
    Recovers(disk, [a] + [a + 1]);
  }

  lemma OlderWriter(disk: Disk, s: Segment, a: nat)
    requires SegmentOk(disk, s) && s.id == a + 1 && disk.Keys == {a, a + 1} && Sound(disk[a]) && Named(a + 1)
    ensures (forall id :: id in [s.id] ==> id in disk)
    ensures RecoversTo(disk, Live(Apply(LogOf(disk[a])) + Apply(LogOfIds(disk, [s.id]))))
  {
    hide LogOf, Apply, Live, LogOfIds, RecoversTo, Sound, ScanFile, IndexOf;
    OneSegment(disk, a + 1);
    TwoSegments(disk, a);
  }

  lemma SealedTwice(p: Merged, m: Merged)
    requires forall k :: k in p ==> p[k].Some?
    ensures Live(p + p) == Live(p + m) <==> forall k :: k in m ==> m[k] == if k in p then p[k] else None
  {
    assert p + p == p;
    if Live(p) == Live(p + m) {
      forall k | k in m ensures m[k] == if k in p then p[k] else None {
        assert k in Live(p) <==> k in Live(p + m);
      }
    }
  }

  lemma ReadInReverse(p: Merged, m: Merged)
    requires forall k :: k in p ==> p[k].Some?
    ensures Live(m + p) == Live(p + m) <==> forall k :: k in m && k in p ==> m[k] == p[k]
  {
    if Live(m + p) == Live(p + m) {
      forall k | k in m && k in p ensures m[k] == p[k] {
        assert k in Live(m + p);
      }
    }
    if forall k :: k in m && k in p ==> m[k] == p[k] {
      assert m + p == p + m;
    }
  }

  /** What recovers to some map can be opened. */
  lemma RecoveredOpens(files: Disk, m: map<Bytes, Bytes>)
    requires RecoversTo(files, m)
    ensures forall id :: id in Listed(files) ==> Readable(files[id])
  {
    hide LogOf, Apply, Live, LogOfIds, Named, Readable, Ascending, Listed;
    var ids :| Found(ids, files) && Live(Apply(LogOfIds(Listed(files), ids))) == m;
  }

  lemma FoundRecovers(files: Disk, ids: seq<nat>)
    requires Found(ids, files)
    ensures RecoversTo(files, Live(Apply(LogOfIds(Listed(files), ids))))
  {
    hide LogOf, Apply, LogOfIds, Sound, Live, Named, Found;
  }

  /** The files an opening reads are the older ones. */
  lemma {:induction false} SeenPrefix(disk: Disk, ids: seq<nat>) returns (j: nat)
    requires Ascending(ids) && forall id :: id in ids ==> id in disk
    ensures j <= |ids| && forall i :: 0 <= i < |ids| ==> (Seen(disk, ids[i]) <==> i < j)
  {
    hide Named;
    if ids == [] {
      j := 0;
    } else {
      var n := |ids| - 1;
      if Seen(disk, ids[n]) {
        forall i | 0 <= i < n ensures Seen(disk, ids[i]) {
          NamedBelow(ids[i], if Named(ids[n]) then ids[n] else ids[n] - 1);
        }
        j := |ids|;
      } else {
        j := SeenPrefix(disk, ids[..n]);
      }
    }
  }

  lemma PrefixFound(disk: Disk, ids: seq<nat>, j: nat)
    requires Lists(ids, disk) && (forall id :: id in disk ==> Sound(disk[id]))
    requires j <= |ids| && forall i :: 0 <= i < |ids| ==> (Seen(disk, ids[i]) <==> i < j)
    ensures Found(ids[..j], disk) && LogOfIds(Listed(disk), ids[..j]) == LogOfIds(disk, ids[..j])
  {
    hide Sound, Seen, LogOfIds;
    forall id ensures id in ids[..j] <==> id in Listed(disk) {
      if id in Listed(disk) {
        var i :| 0 <= i < |ids| && ids[i] == id;
        assert ids[..j][i] == id;
      }
    }
    LogOfIdsDepends(Listed(disk), disk, ids[..j]);
  }

  /** The files an opening reads: the named ones, and their successor when it is there. */
  lemma SeenIsListed(files: Disk, ids: seq<nat>, id: nat)
    requires (forall i :: i in ids <==> i in files && Named(i)) && forall i :: i in ids ==> i < Successor(ids)
    requires (Successor(ids) == 0 || Successor(ids) - 1 in ids) && id in files
    ensures Seen(files, id) <==> id in ids || id == Successor(ids)
  {
    hide Named, Successor;
    NamedIff(0);
    var next := Successor(ids);
    if Seen(files, id) && !Named(id) {
      assert id - 1 in ids;
      if id < next { NamedBelow(id, next - 1); }
    }
  }

  lemma ListedAre(files: Disk, ids: seq<nat>)
    requires Ascending(ids) && forall id :: id in ids <==> id in files && Named(id)
    ensures Ascending(ids + [Successor(ids)]) && (forall id :: id in ids ==> id < Successor(ids))
    ensures Successor(ids) == 0 || Successor(ids) - 1 in ids
    ensures forall id :: id in Listed(files) <==> id in files && (id in ids || id == Successor(ids))
  {
    SuccessorIsLast(ids);
    hide Named, Ascending, Successor, Seen;
    forall id | id in files ensures Seen(files, id) <==> id in ids || id == Successor(ids) {
      SeenIsListed(files, ids, id);
    }
  }

  lemma SegmentsOf(files: Disk, known: Disk, segments: seq<Segment>, ids: seq<nat>)
    requires Ids(segments) == ids && forall s :: s in segments ==> SegmentOk(files, s)
    requires forall id :: id in ids ==> id in files && id in known && known[id] == files[id]
    ensures forall s :: s in segments ==> SegmentOk(known, s)
  {
    forall s | s in segments ensures SegmentOk(known, s) { SegmentHasId(segments, s); }
  }

  /** The number after that of the last segment whose name parses. */
  ghost predicate Follows(files: Disk, active: nat) {
    && (active == 0 || (Named(active - 1) && active - 1 in files))
    && forall id :: id in files && Named(id) ==> id < active
  }

  lemma AfterNamed(files: Disk, ids: seq<nat>, active: nat)
    requires forall id :: id in ids <==> id in files && Named(id)
    requires (forall id :: id in ids ==> id < active) && (active == 0 || active - 1 in ids)
    ensures Follows(files, active)
  {
    hide Named;
  }

  lemma AscendingFront(ids: seq<nat>, last: nat)
    requires Ascending(ids + [last])
    ensures Ascending(ids)
  {
    assert forall i :: 0 <= i < |ids| ==> (ids + [last])[i] == ids[i];
  }

  /** An opened directory, with the torn tail of a replayed file cut off. */
  lemma OpenedRecovers(files: Disk, known: Disk, ids: seq<nat>)
    requires Ascending(ids + [Successor(ids)]) && forall id :: id in ids ==>
        id in files && id in known && known[id] == files[id]
    requires forall id :: id in Listed(files) <==> id in files && (id in ids || id == Successor(ids))
    requires forall id :: id in Listed(files) ==> Readable(files[id])
    requires Successor(ids) in known
    requires if Successor(ids) in files then LogOf(known[Successor(ids)]) == LogOf(files[Successor(ids)])
             else LogOf(known[Successor(ids)]) == []
    ensures RecoversTo(files, Live(Apply(LogOfIds(known, ids) + LogOf(known[Successor(ids)]))))
  {
    hide LogOf, Apply, Live, Readable, Sound, LogOfIds, RecoversTo, Named, Successor;
    forall id | id in Listed(files) ensures Sound(files[id]) { ReadableIsSound(files[id]); }
    var next := Successor(ids);
    LogOfIdsDepends(known, Listed(files), ids);
    if next in files {
      LogOfIdsSnoc(Listed(files), ids, next);
      FoundRecovers(files, ids + [next]);
    } else {
      AscendingFront(ids, next);
      assert LogOfIds(known, ids) + [] == LogOfIds(known, ids);
      FoundRecovers(files, ids);
    }
  }

  /** Every directory of a trail recovers to `m`. */
  ghost predicate AllRecover(trail: seq<Disk>, m: map<Bytes, Bytes>) {
    forall d :: d in trail ==> RecoversTo(d, m)
  }

  lemma OpeningRecovers(before: Disk, after: Disk, m: map<Bytes, Bytes>)
    requires RecoversTo(before, m) && RecoversTo(after, m)
    ensures AllRecover([before, after], m)
  {
    hide RecoversTo;
  }

  lemma JoinedRecover(s: seq<Disk>, t: seq<Disk>, m: map<Bytes, Bytes>)
    requires AllRecover(s, m) && AllRecover(t, m) && t != []
    ensures AllRecover(s + t[1..], m)
  {
    hide RecoversTo;
  }

  /** How many records the writer's segment holds after some operations: a put seals
      it once there are enough, a delete does not. */
  function CountAfter(count: nat, ops: seq<Record>): nat {
    if ops == [] then count
    else
      var n := CountAfter(count, ops[..|ops| - 1]) + 1;
      if ops[|ops| - 1].Put? && n >= SEAL_THRESHOLD then 0 else n
  }

  /** How many of them are in the segment written last. */
  function InLastFile(ops: seq<Record>): nat
    requires ops != []
  {
    CountAfter(0, ops[..|ops| - 1]) + 1
  }

  lemma NothingCounted(count: nat)
    ensures CountAfter(count, []) == count
  {}

  lemma CountNext(count: nat, ops: seq<Record>, i: nat)
    requires i < |ops|
    ensures CountAfter(count, ops[..i + 1]) ==
            var n := CountAfter(count, ops[..i]) + 1; if ops[i].Put? && n >= SEAL_THRESHOLD then 0 else n
  {
    assert ops[..i + 1][..i] == ops[..i];
  }

  /** Segment `w` was written last, in whole frames, and holds `log`. */
  ghost predicate Wrote(disk: Disk, w: nat, log: seq<Record>) {
    LastWritten(disk, w) && Clean(disk[w]) && LogOf(disk[w]) == log
  }

  lemma WroteBeforeSeal(disk: Disk, w: nat, log: seq<Record>, next: nat)
    requires Wrote(disk, w, log) && next !in disk
    ensures Wrote(disk[next := []], w, log) && LogOf(disk[next := []][next]) == []
  {
    EmptyIsClean();
    hide LogOf, Clean;
    StillLast(disk, w, next);
  }

  lemma WroteHolds(disk: Disk, w: nat, log: seq<Record>)
    requires Wrote(disk, w, log)
    ensures w in disk && LogOf(disk[w]) == log
  {}

  /** `out` is `merged` overlaid with the part of `all` outside `todo`. */
  ghost predicate Poured(out: Merged, merged: Merged, all: Merged, todo: set<Bytes>) {
    && (forall k :: k in out <==> k in merged || (k in all && k !in todo))
    && (forall k :: k in out ==> out[k] == if k in all && k !in todo then all[k] else merged[k])
  }

  lemma PourOne(out: Merged, merged: Merged, all: Merged, todo: set<Bytes>, k: Bytes)
    requires Poured(out, merged, all, todo) && k in all && k in todo
    ensures Poured(out[k := all[k]], merged, all, todo - {k})
  {}

  lemma PouredAll(out: Merged, merged: Merged, all: Merged)
    requires Poured(out, merged, all, {})
    ensures out == merged + all
  {}

  lemma NothingPoured(merged: Merged, all: Merged, todo: set<Bytes>)
    requires forall k :: k in all ==> k in todo
    ensures Poured(merged, merged, all, todo)
  {}

  /** Insert one segment's records over `merged`, in whatever order the index gives its keys. */
  method PourSegment(file: Bytes, index: map<Bytes, nat>, merged: Merged) returns (r: Result<Merged, StorageError>)
    requires Readable(file) && index == IndexOf(ScanFile(file, 0).entries)
    ensures r == Ok(merged + Apply(LogOf(file)))
  {
    hide LogOf, Apply, ReadRecordAt, ScanFile, IndexOf, Poured;
    var out := merged;
    var todo := index.Keys;
    ghost var all := Apply(LogOf(file));
    forall k ensures k in index <==> k in all { FileIndexDecides(file, k); }
    assert Poured(out, merged, all, todo) by { NothingPoured(merged, all, todo); }
    while todo != {}
      invariant todo <= index.Keys && Poured(out, merged, all, todo)
      decreases |todo|
    {
      var k :| k in todo;
      FileIndexDecides(file, k);
      PourOne(out, merged, all, todo, k);
      var record := ReadRecordAt(file, index[k]);
      match record {
        case Err(e) => return Err(e);
        case Ok(found) => out := out[k := Effect(found)];
      }
      todo := todo - {k};
    }
    PouredAll(out, merged, all);
    return Ok(out);
  }

  lemma SoundIsReadable(file: Bytes)
    requires Sound(file)
    ensures Readable(file)
  {}

  lemma RewriteRecovers(disk: Disk, gone: seq<nat>, active: nat, ps: seq<Record>, writing: seq<Disk>,
      removing: seq<Disk>)
    requires Ready(disk, gone, active) && Named(active + 1)
    requires Restates(ps, Sealed(disk, gone, active)) && Covers(ps, Sealed(disk, gone, active))
    requires Writing(writing, disk, active + 1, EncodeAll(ps))
    requires forall e :: e in removing ==> exists j ::
        0 <= j <= |gone| && e == Without(disk[active + 1 := EncodeAll(ps)], gone[..j])
    requires removing != []
    ensures AllRecover(writing + removing[1..], Live(Sealed(disk, gone, active)))
  {
    hide LogOf, Apply, RecoversTo, Live, Restates, Covers, Ready, Sealed, Writing, EncodeAll, Named, Without;
    CompactionIsSafe(disk, gone, active, ps, writing, removing);
  }

  /** The directories while `file` is written to a new segment and `gone` is deleted. */
  ghost predicate Stages(trail: seq<Disk>, base: Disk, id: nat, file: Bytes, gone: seq<nat>) {
    forall e :: e in trail ==>
        || e == base
        || (id in e && e == base[id := e[id]] && e[id] <= file)
        || exists j :: 0 <= j <= |gone| && e == Without(base[id := file], gone[..j])
  }

  lemma JoinedStages(writing: seq<Disk>, removing: seq<Disk>, base: Disk, id: nat, file: Bytes, gone: seq<nat>)
    requires Writing(writing, base, id, file) && removing != []
    requires forall e :: e in removing ==> exists j :: 0 <= j <= |gone| && e == Without(base[id := file], gone[..j])
    ensures Stages(writing + removing[1..], base, id, file, gone)
  {
    hide Without;
    forall e | e in writing + removing[1..] ensures e in writing || e in removing {}
  }

  lemma ThreeListed(disk: Disk, a: nat)
    requires a in disk && a + 1 in disk && a + 2 in disk && disk.Keys == {a, a + 1, a + 2}
    ensures Lists(([a] + [a + 1]) + [a + 2], disk) && Picks([a], [a] + [a + 1])
  {
    var ids := ([a] + [a + 1]) + [a + 2];
    assert ids == [a, a + 1, a + 2];
    forall id: nat ensures id in ids <==> id in disk {
      assert id in disk <==> id in disk.Keys;
    }
  }

  lemma ThreeSound(disk: Disk, a: nat)
    requires a in disk && a + 1 in disk && a + 2 in disk && disk.Keys == {a, a + 1, a + 2}
    requires Sound(disk[a]) && Sound(disk[a + 1]) && Sound(disk[a + 2])
    ensures forall id :: id in disk ==> Sound(disk[id])
  {
    hide Sound;
    forall id | id in disk ensures Sound(disk[id]) { assert id in disk.Keys; }
  }

  lemma IsReady(disk: Disk, ids: seq<nat>, active: nat)
    requires Lists(ids + [active], disk) && active in disk && disk[active] == []
    requires forall id :: id in disk ==> Sound(disk[id])
    ensures Ready(disk, ids, active)
  {
    hide Lists, Sound;
  }

  lemma ThreeReady(disk: Disk, a: nat)
    requires a in disk && a + 1 in disk && a + 2 in disk && disk.Keys == {a, a + 1, a + 2}
    requires disk[a + 2] == [] && Sound(disk[a]) && Sound(disk[a + 1])
    ensures Ready(disk, [a] + [a + 1], a + 2) && Picks([a], [a] + [a + 1])
    ensures Sealed(disk, [a] + [a + 1], a + 2) == Apply(LogOf(disk[a])) + Apply(LogOf(disk[a + 1]))
  {
    hide Sound, LogOf, Apply, LogOfIds, Lists, Picks, Ready, Fits, Whole, WriterOk;
    EmptyFile();
    ThreeListed(disk, a);
    ThreeSound(disk, a);
    IsReady(disk, [a] + [a + 1], a + 2);
    TwoLogs(disk, a);
  }

  lemma PutsSay(older: Merged, younger: seq<Record>, ps: seq<Record>)
    requires forall p :: p in younger ==> p.Put?
    requires Restates(ps, Apply(younger)) && Covers(ps, Apply(younger))
    ensures Restates(ps, older + Apply(younger)) && Apply(ps) == Apply(younger)
  {
    PutsHaveValues(younger);
    hide Apply;
  }

  lemma StagesDeleted(disk: Disk, a: nat, file: Bytes, gone: seq<nat>, j: nat)
    requires a in disk && disk.Keys == {a, a + 1, a + 2} && gone == [a + 1] + [a + 1] && j <= 2
    ensures Without(disk[a + 3 := file], gone[..j]) ==
            if j == 0 then disk[a + 3 := file] else Stage(disk, a + 2, [a], file)
  {
    if j > 0 {
      assert gone[..j][0] == a + 1;
      assert forall id :: id in disk <==> id in disk.Keys;
    }
  }

  lemma PrefixIsSafe(disk: Disk, ids: seq<nat>, active: nat, ps: seq<Record>, e: Disk)
    requires Ready(disk, ids, active) && Named(active + 1) && Restates(ps, Sealed(disk, ids, active))
    requires active + 1 in e && e == disk[active + 1 := e[active + 1]] && e[active + 1] <= EncodeAll(ps)
    ensures RecoversTo(e, Live(Sealed(disk, ids, active)))
  {
    hide *;
    assert e[active + 1] == EncodeAll(ps)[..|e[active + 1]|];
    WritingIsSafe(disk, ids, active, ps, |e[active + 1]|);
  }

  /** The directories of a compaction whose one segment, of puts only, is younger than a
      file that is not sealed. */
  lemma StagesBehind(disk: Disk, a: nat, ps: seq<Record>, gone: seq<nat>, trail: seq<Disk>)
    requires a in disk && a + 1 in disk && a + 2 in disk && disk.Keys == {a, a + 1, a + 2}
    requires disk[a + 2] == [] && Sound(disk[a]) && Sound(disk[a + 1]) && Named(a + 3)
    requires forall p :: p in LogOf(disk[a + 1]) ==> p.Put?
    requires Restates(ps, Apply(LogOf(disk[a + 1]))) && Covers(ps, Apply(LogOf(disk[a + 1])))
    requires gone == [a + 1] + [a + 1] && Stages(trail, disk, a + 3, EncodeAll(ps), gone)
    ensures AllRecover(trail, Live(Apply(LogOf(disk[a])) + Apply(LogOf(disk[a + 1]))))
  {
    hide Sound, LogOf, Apply, LogOfIds, Live, RecoversTo, EncodeAll, Ready, Sealed, Named, Restates, Covers, Picks,
        Stage, Without;
    var ids, m := [a] + [a + 1], Live(Apply(LogOf(disk[a])) + Apply(LogOf(disk[a + 1])));
    ThreeReady(disk, a);
    PutsSay(Apply(LogOf(disk[a])), LogOf(disk[a + 1]), ps);
    forall e | e in trail ensures RecoversTo(e, m) {
      if e == disk {
        ReadyRecovers(disk, ids, a + 2);
      } else if a + 3 in e && e == disk[a + 3 := e[a + 3]] && e[a + 3] <= EncodeAll(ps) {
        PrefixIsSafe(disk, ids, a + 2, ps, e);
      } else {
        var j :| 0 <= j <= |gone| && e == Without(disk[a + 3 := EncodeAll(ps)], gone[..j]);
        StagesDeleted(disk, a, EncodeAll(ps), gone, j);
        WrittenFile(disk, ids, a + 2, ps);
        OneSegment(disk, a);
        StageRecovers(disk, ids, a + 2, [a], EncodeAll(ps));
      }
    }
  }

  /** Two segment files, of which the younger one holds puts only. */
  ghost predicate PutsAbove(disk: Disk, a: nat) {
    && a in disk && a + 1 in disk && disk.Keys == {a, a + 1} && Sound(disk[a]) && Sound(disk[a + 1])
    && forall p :: p in LogOf(disk[a + 1]) ==> p.Put?
  }

  lemma StagesStart(base: Disk, id: nat, file: Bytes, gone: seq<nat>)
    ensures Stages([base], base, id, file, gone)
  {}

  lemma CompactsBehind(before: Disk, a: nat, sealed: Disk, newId: nat, ps: seq<Record>, older: seq<nat>, gone: seq<nat>,
      steps: seq<Disk>)
    requires a in before && a + 1 in before && PutsAbove(before, a) && sealed == before[a + 2 := []]
    requires newId == a + 3 && Named(newId)
    requires Restates(ps, Apply(LogOf(before[a + 1]))) && Covers(ps, Apply(LogOf(before[a + 1])))
    requires older == [a + 1] && gone == older + [a + 1] && steps != []
    requires Stages(steps, sealed, newId, EncodeAll(ps), gone)
    ensures AllRecover([before, sealed] + steps[1..], Live(Apply(LogOf(before[a])) + Apply(LogOf(before[a + 1]))))
  {
    assert sealed.Keys == {a, a + 1, a + 2};
    hide Sound, LogOf, Apply, LogOfIds, Live, RecoversTo, EncodeAll, Named, Restates, Covers, Stages;
    var m := Live(Apply(LogOf(before[a])) + Apply(LogOf(before[a + 1])));
    NamedBelow(a + 1, newId);
    TwoSegments(before, a);
    assert Stages([sealed], sealed, newId, EncodeAll(ps), gone) by { StagesStart(sealed, newId, EncodeAll(ps), gone); }
    StagesBehind(sealed, a, ps, gone, [sealed]);
    StagesBehind(sealed, a, ps, gone, steps);
    assert sealed in [sealed];
    OpeningRecovers(before, sealed, m);
    JoinedRecover([before, sealed], steps, m);
  }

  /** Write the new segment, index it, and only then delete the files it replaces. */
  method Rewrite(disk: Disk, newId: nat, merged: Merged, gone: seq<nat>, ghost log: seq<Record>, ghost active: nat)
    returns (kept: Disk, s: Segment, ghost ps: seq<Record>, ghost trail: seq<Disk>)
    requires AllFit(log) && merged == Apply(log) && active in disk && active !in gone && newId == active + 1
    requires newId !in gone && forall id :: id in disk ==> id <= active
    ensures trail != [] && Path(trail, disk, kept)
    ensures newId in kept && LogOf(kept[newId]) == ps && active in kept && kept[active] == disk[active]
    ensures SegmentOk(kept, s) && s.id == newId && forall id :: id in kept ==> id <= newId
    ensures Live(Apply(ps)) == Live(merged) && SortedKeys(ps) && forall p :: p in ps ==> p.Put?
    ensures Restates(ps, merged) && Covers(ps, merged) && Stages(trail, disk, newId, EncodeAll(ps), gone)
    ensures Ready(disk, gone, active) && merged == Sealed(disk, gone, active) ==>
              kept.Keys == {active, newId} && (Named(newId) ==> AllRecover(trail, Live(merged)))
  {
    hide LogOf, Apply, IndexOf, ScanFile, RecoversTo, Live, Restates, Covers, Path, Ready, Sealed, SortedKeys,
        Writing, Ascending, EncodeAll, Named, AllFit, AllRecover, Without, Sound;
    var written, puts, writing := WriteLive(disk, newId, merged);
    ps := puts;
    RewrittenFile(log, ps);
    SoundIsReadable(written[newId]);
    var index := BuildIndex(written[newId]);
    s := Segment(newId, index.value);
    var after, removing := RemoveAll(written, gone);
    kept := after;
    WithoutHas(written, gone);
    PathStarts(writing, disk, written);
    PathStarts(removing, written, kept);
    if Ready(disk, gone, active) && merged == Sealed(disk, gone, active) {
      RewrittenDisk(disk, gone, active, EncodeAll(ps));
      if Named(newId) { RewriteRecovers(disk, gone, active, ps, writing, removing); }
    }
    PathConcat(writing, removing, disk, written, kept);
    trail := writing + removing[1..];
    JoinedStages(writing, removing, disk, newId, EncodeAll(ps), gone);
  }

  ghost predicate IsScan(out: seq<(Bytes, Bytes)>, m: map<Bytes, Bytes>, prefix: Bytes) {
    && (forall i, j :: 0 <= i < j < |out| ==> ByteOrder.Less(out[i].0, out[j].0))
    && (forall k, v :: (k, v) in out <==> k in m && m[k] == v && InRange(k, prefix))
  }

  method RangeOf(merged: Merged, keys: seq<Bytes>, prefix: Bytes, upper: Option<Bytes>)
      returns (out: seq<(Bytes, Bytes)>)
    requires ByteOrder.Ascending(keys) && (forall k :: k in keys <==> k in merged) && upper == Upper(prefix)
    ensures IsScan(out, Live(merged), prefix)
  {
    hide ByteOrder.Less, Upper;
    out := [];
    for i := 0 to |keys|
      invariant forall j :: 0 <= j < |out| ==> out[j].0 in keys[..i]
      invariant forall a, b :: 0 <= a < b < |out| ==> ByteOrder.Less(out[a].0, out[b].0)
      invariant forall k, v :: (k, v) in out <==> k in keys[..i] && merged[k] == Some(v) && InRange(k, prefix)
    {
      var k := keys[i];
      assert k in merged;
      assert forall x :: x in keys[..i] ==> ByteOrder.Less(x, k);
      assert k !in keys[..i] by { if k in keys[..i] { ByteOrder.LessIsStrict(k); } }
      assert keys[..i + 1] == keys[..i] + [k];
      if ByteOrder.AtMost(prefix, k) && (upper.None? || ByteOrder.Less(k, upper.value)) && merged[k].Some? {
        out := out + [(k, merged[k].value)];
      }
    }
    assert keys[..|keys|] == keys;
  }

  /** The file to write to: what is good of it when it is there, replayed. */
  method OpenWriter(files: Disk, active: nat) returns (r: Result<(Bytes, Merged, nat), StorageError>)
    ensures r.Ok? <==> (active in files ==> Readable(files[active]))
    ensures r.Err? ==> active in files && BadBody(files[active], r.error)
    ensures r.Ok? ==>
              var (base, memtable, count) := r.value;
              && Whole(base) && memtable == Apply(LogOf(base)) && count == |memtable|
              && if active in files
                 then base == files[active][..ScanEnd(files[active], 0)] && LogOf(base) == LogOf(files[active])
                 else base == [] && LogOf(base) == [] && count == 0
  {
    hide LogOf, Apply, Readable, Whole, ScanEnd;
    if active in files {
      var replayed := Replay(files[active]);
      if replayed.Err? { return Err(replayed.error); }
      var (memtable, good) := replayed.value;
      CutToEnd(files[active]);
      return Ok((files[active][..good], memtable, |memtable|));
    }
    EmptyFile();
    ApplyNothing();
    return Ok(([], map[], 0));
  }

  lemma IdsSnoc(older: seq<Segment>, segments: seq<Segment>)
    requires |segments| == |older| + 1 && segments[..|older|] == older
    ensures Ids(segments) == Ids(older) + [segments[|older|].id]
  {
    assert forall i :: 0 <= i < |older| ==> segments[i] == segments[..|older|][i];
  }

  lemma ApplyTwice(s: seq<Record>)
    ensures Apply(s + s) == Apply(s)
  {
    ApplyConcat(s, s);
  }

  class Engine {
    var disk: Disk
    var segments: seq<Segment>
    /** The file behind the writer. */
    var activeId: nat
    var count: nat
    var memtable: Merged
    var nextSegment: nat
    /** What the writer's file held when it was opened, and the records written since. */
    ghost var base: Bytes
    ghost var written: seq<Record>

    /** What the in-memory parts promise about the files. */
    ghost predicate Valid()
      reads this
    {
      && activeId in disk && WriterOk(disk[activeId], base, written) && memtable == Apply(LogOf(base) + written)
      && SegmentsOk(disk, segments, activeId)
      && nextSegment >= 1 && nextSegment - 1 in disk && Sound(disk[nextSegment - 1])
      && Below(disk, nextSegment)
    }

    /** The active segment is the newest, all written to it can be read back, and the
        directory holds nothing else than the segments in order of age. */
    ghost predicate Aligned()
      reads this
    {
      && nextSegment == activeId + 1 && AllFit(written)
      && Ascending(Ids(segments) + [activeId])
      && forall id :: id in disk ==> id in Ids(segments) + [activeId]
    }

    ghost function SealedLog(): seq<Record>
      reads this
      requires Valid()
    {
      assert forall id :: id in Ids(segments) ==> id in disk;
      LogOfIds(disk, Ids(segments))
    }

    /** The records of the memtable. */
    ghost function ActiveLog(): seq<Record>
      reads this
    {
      LogOf(base) + written
    }

    /** Every record this engine still answers from, oldest first. */
    ghost function Log(): seq<Record>
      reads this
      requires Valid()
    {
      SealedLog() + ActiveLog()
    }

    /** The abstract value. */
    ghost function Map(): map<Bytes, Bytes>
      reads this
      requires Valid()
    {
      Live(Apply(Log()))
    }

    /** What a compaction leaves until the next seal: the writer is still on the
        segment before the compacted one. */
    ghost predicate Behind()
      reads this
    {
      && |segments| == 1 && segments[0].id == nextSegment - 1 == activeId + 1 && AllFit(written)
      && disk.Keys == {activeId, activeId + 1}
      && activeId + 1 in disk && forall p :: p in LogOf(disk[activeId + 1]) ==> p.Put?
    }

    /** Nothing written since the compaction differs from what was compacted. */
    ghost predicate NothingNew()
      reads this
      requires Valid()
    {
      forall k :: k in memtable ==> memtable[k] == if k in Apply(SealedLog()) then Apply(SealedLog())[k] else None
    }

    /** No compacted key has another value, or none, since. */
    ghost predicate NothingOverwritten()
      reads this
      requires Valid()
    {
      forall k :: k in memtable && k in Apply(SealedLog()) ==> memtable[k] == Apply(SealedLog())[k]
    }

    /** The log a seal of segment `nextSegment - 1` leaves. */
    ghost function LogAfterSeal(): seq<Record>
      reads this
      requires Valid()
    {
      SealedLog() + LogOf(disk[nextSegment - 1])
    }

    /** The log a seal leaves that writing `r` brings about. */
    ghost function SealedWith(r: Record): seq<Record>
      reads this
      requires Valid()
    {
      if nextSegment == activeId + 1 then SealedLog() + (LogOf(base) + Legible(written + [r])) else LogAfterSeal()
    }

    lemma MapOfLog()
      requires Valid()
      ensures Map() == Live(Apply(Log()))
    {}

    lemma NothingActive()
      requires Valid() && base == [] && written == []
      ensures Log() == SealedLog() && disk[activeId] == []
    {
      EmptyFile();
      hide LogOf, Whole, Apply, LogOfIds, Sound, SegmentOk;
      EncodeAllNone();
      assert base + [] == [];
      assert SealedLog() + [] == SealedLog();
    }

    /** The writer's file, read back. */
    lemma ActiveIsSound()
      requires Valid()
      ensures Sound(disk[activeId]) && LogOf(disk[activeId]) == LogOf(base) + Legible(written)
      ensures AllFit(written) ==> LogOf(disk[activeId]) == ActiveLog()
    {
      hide LogOf, WriterOk, Sound, AllFit, SegmentOk, Legible, Apply;
      WriterIsSound(disk[activeId], base, written);
    }

    lemma SealedOwn()
      requires Valid() && nextSegment == activeId + 1
      ensures LogAfterSeal() == SealedLog() + LogOf(disk[activeId])
    {
      hide LogOf, WriterOk, Sound, SegmentOk, Apply, LogOfIds, AllWritable;
    }

    lemma LogParts()
      requires Valid()
      ensures Log() == SealedLog() + (LogOf(base) + written)
    {
      hide LogOf, WriterOk, Sound, SegmentOk, Apply, LogOfIds;
    }

    /** A seal of the writer's own segment keeps the records before the first one the
        reader refuses, so it keeps all of them exactly when there is none. */
    lemma SealKeepsLegible()
      requires Valid() && nextSegment == activeId + 1
      ensures LogAfterSeal() == SealedLog() + (LogOf(base) + Legible(written))
      ensures LogAfterSeal() == Log() <==> AllFit(written)
    {
      ActiveIsSound();
      SealedOwn();
      LogParts();
      hide *;
      SameTails(SealedLog(), LogOf(base), Legible(written), written);
      LegibleIff(written);
    }

    lemma BehindLogs()
      requires Valid() && Behind()
      ensures LogAfterSeal() == SealedLog() + SealedLog() && forall p :: p in SealedLog() ==> p.Put?
    {
      hide LogOf, WriterOk, Sound, Apply, SegmentOk, Live, LogOfIds;
      assert Ids(segments) == [activeId + 1];
      OneSegment(disk, activeId + 1);
    }

    lemma BehindMap()
      requires Valid() && Behind()
      ensures Map() == Live(Apply(SealedLog()) + memtable)
      ensures forall k :: k in Apply(SealedLog()) ==> Apply(SealedLog())[k].Some?
    {
      BehindLogs();
      hide LogOf, WriterOk, Sound, Apply, SegmentOk, Live, LogOfIds;
      PutsHaveValues(SealedLog());
      ApplyConcat(SealedLog(), ActiveLog());
    }

    /** A seal after a compaction seals the compacted segment again, so it keeps
        the map exactly when nothing was written that it does not already say. */
    lemma SealAfterCompactIff()
      requires Valid() && Behind()
      ensures Live(Apply(LogAfterSeal())) == Map() <==> NothingNew()
    {
      BehindLogs();
      BehindMap();
      hide LogOf, Clean, Sound, Apply, SegmentOk, LogOfIds, Live, Behind, Valid;
      ApplyConcat(SealedLog(), SealedLog());
      SealedTwice(Apply(SealedLog()), memtable);
    }

    lemma BehindReopens()
      requires Valid() && Behind() && Named(activeId + 1)
      ensures RecoversTo(disk, Live(memtable + Apply(SealedLog())))
    {
      hide LogOf, WriterOk, Apply, LogOfIds, Live, RecoversTo, SegmentOk, Sound, Fits, AllFit, Legible;
      ActiveIsSound();
      OlderWriter(disk, segments[0], activeId);
      assert Ids(segments) == [segments[0].id];
    }

    /** A reopen reads the writer's segment before the compacted one, so it gives
        the same map exactly when no compacted key was overwritten. */
    lemma ReopenAfterCompactIff()
      requires Valid() && Behind() && Named(activeId + 1)
      ensures RecoversTo(disk, Map()) <==> NothingOverwritten()
    {
      BehindReopens();
      BehindMap();
      hide LogOf, Clean, Sound, Apply, SegmentOk, LogOfIds, Live, RecoversTo, Valid, Behind;
      RecoveryIsUnique(disk, Live(memtable + Apply(SealedLog())), Map());
      ReadInReverse(Apply(SealedLog()), memtable);
    }

    constructor Empty()
      ensures Valid() && Aligned() && Log() == [] && disk == map[0 := []] && count == 0 && nextSegment == 1
      ensures activeId == 0 && base == [] && written == []
    {
      disk, segments, activeId, count, memtable, nextSegment := map[0 := []], [], 0, 0, map[], 1;
      base, written := [], [];
      new;
      EmptyFile();
      hide LogOf, WriterOk, Sound, SegmentOk;
    }

    constructor Load(files: Disk, sealed: seq<Segment>, active: nat, memtable: Merged, count: nat)
      ensures disk == files && segments == sealed && activeId == active && nextSegment == active + 1
      ensures this.memtable == memtable && this.count == count && written == []
      ensures base == if active in files then files[active] else []
    {
      disk, segments, activeId, nextSegment := files, sealed, active, active + 1;
      this.memtable, this.count := memtable, count;
      base, written := if active in files then files[active] else [], [];
    }

    lemma OpenedIsValid(files: Disk, ids: seq<nat>)
      requires (forall id :: id in ids ==> id in files && id < activeId)
          && (forall id :: id in files ==> id <= activeId)
      requires disk == files[activeId := base] && nextSegment == activeId + 1
      requires Whole(base) && written == [] && memtable == Apply(LogOf(base))
      requires Ids(segments) == ids && forall s :: s in segments ==> SegmentOk(files, s)
      ensures Valid() && Log() == LogOfIds(files, ids) + LogOf(base)
    {
      hide LogOf, Sound, Apply, LogOfIds, SegmentOk, Whole, WriterOk, Fits;
      WriterStarts(base);
      forall s | s in segments ensures s.id in ids { SegmentHasId(segments, s); }
      SegmentOkHasFile(files, segments);
      SegmentsStay(files, disk, segments);
    }

    /** Open a directory: index every segment whose name parses, oldest first, and write
        to the next one, which is replayed when it is there. Files with other names are
        not the engine's. */
    static method Open(files: Disk) returns (r: Result<Engine, StorageError>)
      ensures r.Ok? <==> forall id :: id in Listed(files) ==> Readable(files[id])
      ensures r.Err? ==> exists id :: id in Listed(files) && BadBody(files[id], r.error)
      ensures r.Ok? ==> fresh(r.value) && r.value.Valid() && r.value.Aligned() && RecoversTo(files, r.value.Map())
      ensures r.Ok? ==> r.value.disk == Listed(files)[r.value.activeId := r.value.base] && r.value.written == []
      ensures r.Ok? ==>
                if r.value.activeId in files
                then var file := files[r.value.activeId]; r.value.base == file[..ScanEnd(file, 0)]
                else r.value.base == [] && r.value.count == 0
      ensures r.Ok? ==> r.value.count == |r.value.memtable|
      ensures r.Ok? ==> Follows(files, r.value.activeId)
    {
      hide LogOf, Apply, LogOfIds, Sound, RecoversTo, Live, SegmentOk, Ascending, Readable, Named, Successor, Whole,
          ScanEnd, Seen, Follows, BadBody;
      var ids := SortIds(set id | id in files && Named(id));
      var loaded := IndexAll(files, ids);
      var active := Successor(ids);
      ListedAre(files, ids);
      AfterNamed(files, ids, active);
      if loaded.Err? { return Err(loaded.error); }
      var writer := OpenWriter(files, active);
      if writer.Err? { return Err(writer.error); }
      var (base, memtable, count) := writer.value;
      var known := Listed(files)[active := base];
      SegmentsOf(files, known, loaded.value, ids);
      var engine := new Engine.Load(known, loaded.value, active, memtable, count);
      engine.OpenedIsValid(known, ids);
      OpenedRecovers(files, known, ids);
      return Ok(engine);
    }

    /** Write a record to the active segment and to the memtable. */
    method Append(record: Record)
      requires Valid() && Writable(record)
      modifies this
      ensures Valid() && Log() == old(Log()) + [record]
      ensures disk == old(disk)[activeId := old(disk[activeId]) + EncodeFrame(record)] && count == old(count) + 1
      ensures segments == old(segments) && activeId == old(activeId) && nextSegment == old(nextSegment)
      ensures SealedLog() == old(SealedLog()) && base == old(base) && written == old(written) + [record]
      ensures ActiveLog() == old(ActiveLog()) + [record]
      ensures nextSegment != activeId + 1 ==> LogAfterSeal() == old(LogAfterSeal())
      ensures Fits(record) ==> (old(Aligned()) ==> Aligned()) && (old(Behind()) ==> Behind())
    {
      hide EncodeFrame, LogOf, Fits, WriterOk, Sound, SegmentOk, Apply, LogOfIds, Writable;
      var file := disk[activeId];
      WriterGrows(file, base, written, record);
      ConcatRecords(LogOf(base), written, [record]);
      ghost var sealed := SealedLog();
      disk := disk[activeId := file + EncodeFrame(record)];
      count := count + 1;
      match record {
        case Put(key, value) => memtable := memtable[key := Some(value)];
        case Delete(key) => memtable := memtable[key := None];
      }
      written := written + [record];
      SegmentOkHasFile(old(disk), segments);
      SegmentsStay(old(disk), disk, segments);
      ConcatRecords(sealed, old(ActiveLog()), [record]);
    }

    lemma SealParts()
      requires Valid()
      ensures SegmentsOk(disk, segments, nextSegment) && (forall id :: id in Ids(segments) ==> id in disk)
      ensures nextSegment >= 1 && nextSegment - 1 in disk && Sound(disk[nextSegment - 1])
      ensures Below(disk, nextSegment) && nextSegment !in disk
      ensures LogAfterSeal() == LogOfIds(disk, Ids(segments)) + LogOf(disk[nextSegment - 1])
    {
      SegmentOkHasFile(disk, segments);
      hide LogOf, WriterOk, Apply, LogOfIds, Sound, SegmentOk;
    }

    lemma AlignedSeals()
      requires Valid() && Aligned()
      ensures nextSegment == activeId + 1 && Log() == LogAfterSeal()
      ensures Ascending(Ids(segments) + [activeId]) && forall id :: id in disk ==> id in Ids(segments) + [activeId]
    {
      SealKeepsLegible();
      hide LogOf, Valid, Ascending, Legible, LogAfterSeal, Log;
    }

    lemma EmptyWriterIsValid()
      requires activeId in disk && disk[activeId] == [] && base == [] && written == [] && memtable == map[]
      requires SegmentsOk(disk, segments, activeId) && Below(disk, nextSegment)
      requires nextSegment >= 1 && nextSegment - 1 in disk && Sound(disk[nextSegment - 1])
      ensures Valid() && (forall id :: id in Ids(segments) ==> id in disk) && Log() == LogOfIds(disk, Ids(segments))
    {
      hide LogOf, WriterOk, Apply, LogOfIds, Sound, SegmentOk, Below, Whole, Fits;
      EmptyFile();
      SegmentOkHasFile(disk, segments);
      NothingActive();
    }

    lemma SealedIsValid(before: Disk, older: seq<Segment>, sealed: Segment)
      requires segments == older + [sealed] && disk == before[activeId := []] && nextSegment == activeId + 1
      requires base == [] && written == [] && memtable == map[] && Below(before, activeId) && sealed.id < activeId
      requires SegmentsOk(before, older, activeId) && SegmentOk(before, sealed)
      ensures (forall id :: id in Ids(older) ==> id in before) && Ids(segments) == Ids(older) + [sealed.id]
      ensures Valid() && Log() == LogOfIds(before, Ids(older)) + LogOf(before[sealed.id])
    {
      hide *;
      SealSegments(before, activeId, older, sealed);
      EmptyFile();
      BelowNext(before, activeId);
      EmptyWriterIsValid();
    }

    lemma SealedIsAligned(ids: seq<nat>, oldId: nat)
      requires Ids(segments) == ids + [oldId] && activeId == oldId + 1 && nextSegment == activeId + 1 && written == []
      requires Ascending(ids + [oldId]) && forall id :: id in disk ==> id in ids + [oldId] || id == activeId
      ensures Aligned()
    {
      AlignedAfterSeal(disk - {activeId}, ids, oldId);
      EmptyFile();
      hide Ascending, AllFit;
    }

    /** Replace the writer by one on a new file. */
    method StartSegment(sealed: Segment)
      modifies this
      ensures segments == old(segments) + [sealed] && disk == old(disk)[old(nextSegment) := []]
      ensures activeId == old(nextSegment) && nextSegment == old(nextSegment) + 1
      ensures memtable == map[] && count == 0 && base == [] && written == []
    {
      segments := segments + [sealed];
      memtable := map[];
      disk := disk[nextSegment := []];
      activeId, nextSegment, count := nextSegment, nextSegment + 1, 0;
      base, written := [], [];
    }

    /** Close the segment numbered `nextSegment - 1` and open the next one. */
    method Seal()
      requires Valid()
      modifies this
      ensures Valid()
      ensures disk == old(disk)[old(nextSegment) := []]
      ensures segments == old(segments) +
                [Segment(old(nextSegment) - 1, IndexOf(ScanFile(old(disk)[old(nextSegment) - 1], 0).entries))]
      ensures activeId == old(nextSegment) && nextSegment == old(nextSegment) + 1 && memtable == map[] && count == 0
      ensures Log() == old(LogAfterSeal())
      ensures base == [] && written == [] && (old(Aligned()) ==> Aligned() && Log() == old(Log()))
    {
      hide *;
      SealParts();
      if Aligned() { AlignedSeals(); }
      var oldId := nextSegment - 1;
      SoundIsReadable(disk[oldId]);
      var index := BuildIndex(disk[oldId]);
      var sealed := Segment(oldId, index.value);
      SealedNow(disk, sealed);
      ghost var before, older := disk, segments;
      StartSegment(sealed);
      SealedIsValid(before, older, sealed);
      if old(Aligned()) { SealedIsAligned(Ids(older), oldId); }
    }

    /** Nothing comes after the writer's segment. */
    lemma WriterIsLast()
      requires Valid() && Aligned()
      ensures nextSegment !in disk && (base == [] ==> Wrote(disk, activeId, ActiveLog()))
    {
      ActiveIsSound();
      hide Whole, Sound, SegmentOk, LogOf, Apply, EncodeAll, Fits;
      AscendingLast(Ids(segments), activeId);
      if base == [] {
        EmptyIsClean();
        assert base + EncodeAll(written) == EncodeAll(written) && LogOf(base) + written == written;
      }
    }

    method Put(key: Bytes, value: Bytes)
      requires Valid() && Writable(Records.Put(key, value))
      modifies this
      ensures Valid()
      ensures old(Aligned()) && Fits(Records.Put(key, value)) ==>
                && Aligned() && Log() == old(Log()) + [Records.Put(key, value)] && Map() == old(Map())[key := value]
      ensures old(Aligned()) && Fits(Records.Put(key, value)) && old(base) == [] ==>
                Wrote(disk, old(activeId), old(ActiveLog()) + [Records.Put(key, value)])
      ensures old(Behind()) && Fits(Records.Put(key, value)) && old(count) + 1 < SEAL_THRESHOLD ==> Behind()
      ensures old(count) + 1 < SEAL_THRESHOLD ==>
                && Log() == old(Log()) + [Records.Put(key, value)] && Map() == old(Map())[key := value]
                && SealedLog() == old(SealedLog()) && base == old(base)
                    && written == old(written) + [Records.Put(key, value)]
                && count == old(count) + 1 && segments == old(segments)
                && nextSegment == old(nextSegment) && activeId == old(activeId)
      ensures old(count) + 1 >= SEAL_THRESHOLD ==>
                && Log() == old(SealedWith(Records.Put(key, value))) && count == 0
                    && |segments| == |old(segments)| + 1 && base == [] && written == []
                && nextSegment == old(nextSegment) + 1
    {
      LiveSnoc(Log(), Records.Put(key, value));
      MapOfLog();
      hide Apply, LogOf, LogOfIds, Fits, Writable, Live, Valid, Aligned, Behind, EncodeFrame, Wrote, Legible, Log, Map,
          SealedLog, ActiveLog, LogAfterSeal;
      Append(Records.Put(key, value));
      if nextSegment == activeId + 1 { SealKeepsLegible(); }
      MapOfLog();
      if Aligned() { WriterIsLast(); }
      if count >= SEAL_THRESHOLD {
        if Aligned() && base == [] { WroteBeforeSeal(disk, activeId, ActiveLog(), nextSegment); }
        Seal();
        MapOfLog();
      }
    }

    method Delete(key: Bytes)
      requires Valid() && Writable(Records.Delete(key))
      modifies this
      ensures Valid() && Log() == old(Log()) + [Records.Delete(key)]
      ensures Map() == old(Map()) - {key}
      ensures Fits(Records.Delete(key)) ==> (old(Aligned()) ==> Aligned()) && (old(Behind()) ==> Behind())
      ensures old(Aligned()) && Fits(Records.Delete(key)) && base == [] ==>
                Wrote(disk, activeId, old(ActiveLog()) + [Records.Delete(key)])
      ensures activeId == old(activeId) && base == old(base) && written == old(written) + [Records.Delete(key)]
      ensures count == old(count) + 1 && segments == old(segments) && nextSegment == old(nextSegment)
    {
      LiveSnoc(Log(), Records.Delete(key));
      MapOfLog();
      hide Apply, LogOf, LogOfIds, Fits, Writable, Live, Valid, Aligned, Behind, EncodeFrame, Wrote, Log, Map,
          SealedLog;
      Append(Records.Delete(key));
      MapOfLog();
      ConcatRecords(LogOf(base), old(written), [Records.Delete(key)]);
      if Aligned() { WriterIsLast(); }
    }

    lemma AllFilesListed()
      requires Valid() && Aligned()
      ensures Lists(Ids(segments) + [activeId], disk) && (forall id :: id in disk ==> Sound(disk[id]))
      ensures Log() == LogOfIds(disk, Ids(segments) + [activeId])
    {
      ActiveIsSound();
      hide LogOf, Apply, LogOfIds, Ascending, WriterOk, Sound, SegmentOk, EncodeAll, Fits;
      SegmentOkHasFile(disk, segments);
      LogOfIdsSnoc(disk, Ids(segments), activeId);
    }

    /** Cut the last written segment anywhere and open again: exactly the records
        whose frames lie wholly before the cut are left, and their map. */
    lemma CutAfterWrite(w: nat, c: nat) returns (older: seq<Record>, younger: seq<Record>)
      requires Valid() && Aligned() && Seen(disk, activeId)
      requires LastWritten(disk, w) && Clean(disk[w]) && c <= |disk[w]|
      ensures older + younger == Log() && disk[w] == EncodeAll(younger) && younger == LogOf(disk[w])
      ensures RecoversTo(Cut(disk, w, c), Live(Apply(older + younger[..WholeWithin(younger, c)])))
    {
      AllFilesListed();
      AllSeenUpTo(disk, activeId);
      hide LogOf, Clean, Sound, Apply, SegmentOk, LogOfIds, Live, RecoversTo, EncodeAll, WholeWithin, Lists,
          LastWritten, Valid, Aligned, Seen, AllSeen;
      older, younger := CutParts(disk, Ids(segments) + [activeId], w, c);
    }

    /** A run of puts and deletes, with the seals they bring. */
    method Perform(ops: seq<Record>) returns (w: nat)
      requires Valid() && Aligned() && AllFit(ops)
      modifies this
      ensures Valid() && Aligned() && Log() == old(Log()) + ops
      ensures nextSegment <= old(nextSegment) + |ops|
      ensures ops != [] && old(base) == [] ==> w in disk && Wrote(disk, w, LogOf(disk[w]))
      ensures ops != [] && old(base) == [] && old(written) == [] && old(count) == 0 ==>
          |LogOf(disk[w])| == InLastFile(ops)
    {
      EmptyIsClean();
      hide LogOf, Apply, LogOfIds, Live, Fits, Valid, Aligned, Behind, Wrote, CountAfter, Writable, Log;
      w := activeId;
      ghost var last: seq<Record> := [];
      ghost var counted := old(base) == [] && old(written) == [] && old(count) == 0;
      assert ops[..0] == [] && CountAfter(count, []) == count by { NothingCounted(count); }
      assert old(Log()) + [] == old(Log());
      for i := 0 to |ops|
        invariant Valid() && Aligned() && Log() == old(Log()) + ops[..i]
        invariant nextSegment <= old(nextSegment) + i && count == CountAfter(old(count), ops[..i])
        invariant (old(base) == [] ==> base == []) && (counted ==> |written| == count)
        invariant i > 0 && old(base) == [] ==> Wrote(disk, w, last)
        invariant i > 0 && counted ==> |last| == CountAfter(0, ops[..i - 1]) + 1
      {
        w := activeId;
        last := ActiveLog() + [ops[i]];
        assert ops[i] in ops;
        FitsIsWritable(ops[i]);
        CountNext(old(count), ops, i);
        match ops[i] {
          case Put(key, value) => Put(key, value);
          case Delete(key) => Delete(key);
        }
        assert (old(Log()) + ops[..i]) + [ops[i]] == old(Log()) + ops[..i + 1];
      }
      assert ops[..|ops|] == ops;
      if ops != [] && old(base) == [] { WroteHolds(disk, w, last); }
    }

    /** The memtable first, then the segments from new to old. */
    method Get(key: Bytes) returns (r: Result<Option<Bytes>, StorageError>)
      requires Valid()
      ensures r == Ok(if key in Map() then Some(Map()[key]) else None)
    {
      hide LogOf, WriterOk, Apply, LogOfIds, ReadRecordAt, ScanFile, EncodeAll;
      ghost var ids := Ids(segments);
      ApplyConcat(SealedLog(), ActiveLog());
      if key in memtable {
        return Ok(memtable[key]);
      }
      var i := |segments|;
      assert ids[..i] == ids;
      while i > 0
        invariant 0 <= i <= |segments|
        invariant forall id :: id in ids[..i] ==> id in disk
        invariant key in Apply(SealedLog()) <==> key in Apply(LogOfIds(disk, ids[..i]))
        invariant key in Apply(SealedLog()) ==> Apply(SealedLog())[key] == Apply(LogOfIds(disk, ids[..i]))[key]
      {
        i := i - 1;
        var s := segments[i];
        assert SegmentOk(disk, s);
        assert ids[..i + 1] == ids[..i] + [s.id];
        LogOfIdsSnoc(disk, ids[..i], s.id);
        ApplyConcat(LogOfIds(disk, ids[..i]), LogOf(disk[s.id]));
        FileIndexDecides(disk[s.id], key);
        if key in s.index {
          var record := ReadRecordAt(disk[s.id], s.index[key]);
          match record
          case Err(e) => return Err(e);
          case Ok(found) => return Ok(Effect(found));
        }
      }
      assert ids[..0] == [];
      NoLog(disk);
      return Ok(None);
    }

    /** All sealed segments poured into one map, oldest first, each in any order. */
    method Collect() returns (r: Result<Merged, StorageError>)
      requires Valid()
      ensures r == Ok(Apply(SealedLog()))
    {
      hide LogOf, WriterOk, Apply, LogOfIds, ReadRecordAt, ScanFile, EncodeAll;
      ghost var ids := Ids(segments);
      var merged: Merged := map[];
      NoLog(disk);
      assert ids[..0] == [];
      for i := 0 to |segments|
        invariant forall id :: id in ids[..i] ==> id in disk
        invariant merged == Apply(LogOfIds(disk, ids[..i]))
      {
        var s := segments[i];
        assert SegmentOk(disk, s);
        assert ids[..i + 1] == ids[..i] + [s.id];
        LogOfIdsSnoc(disk, ids[..i], s.id);
        ApplyConcat(LogOfIds(disk, ids[..i]), LogOf(disk[s.id]));
        var poured := PourSegment(disk[s.id], s.index, merged);
        match poured
        case Err(e) => return Err(e);
        case Ok(m) => merged := m;
      }
      assert ids[..|segments|] == ids;
      return Ok(merged);
    }

    lemma SealedIsReady()
      requires Valid() && Aligned() && base == [] && written == []
      ensures Ready(disk, Ids(segments), activeId) && Sealed(disk, Ids(segments), activeId) == Apply(SealedLog())
      ensures Log() == SealedLog()
    {
      hide LogOf, Apply, Live, LogOfIds, Ascending, WriterOk, Sound, SegmentOk, Fits;
      EmptyFile();
      SegmentOkHasFile(disk, segments);
      NothingActive();
    }

    /** Closing at any time and opening again gives the same map. */
    lemma ReopensTheSame()
      requires Valid() && Aligned() && Seen(disk, activeId)
      ensures RecoversTo(disk, Map())
    {
      AllFilesListed();
      AllSeenUpTo(disk, activeId);
      hide LogOf, Apply, Live, LogOfIds, RecoversTo, Valid, Aligned, Lists, Sound, Seen, AllSeen;
      Recovers(disk, Ids(segments) + [activeId]);
    }

    /** At any segment number: a reopen finds the records of the segments whose names
        have at most eight digits and of the one after them, and no others. */
    lemma ReopensTo() returns (j: nat)
      requires Valid() && Aligned()
      ensures var ids := Ids(segments) + [activeId];
              && j <= |ids| && (forall i :: 0 <= i < |ids| ==> (Seen(disk, ids[i]) <==> i < j))
              && (forall id :: id in ids ==> id in disk) && Log() == LogOfIds(disk, ids)
              && RecoversTo(disk, Live(Apply(LogOfIds(disk, ids[..j]))))
    {
      AllFilesListed();
      hide LogOf, Apply, Live, LogOfIds, RecoversTo, Valid, Aligned, Sound, Seen, Found, Log;
      var ids := Ids(segments) + [activeId];
      j := SeenPrefix(disk, ids);
      PrefixFound(disk, ids, j);
      FoundRecovers(disk, ids[..j]);
    }

    /** So it gives the same map exactly when these say all of it. */
    lemma ReopensIff() returns (j: nat)
      requires Valid() && Aligned()
      ensures var ids := Ids(segments) + [activeId];
              && j <= |ids| && (forall i :: 0 <= i < |ids| ==> (Seen(disk, ids[i]) <==> i < j))
              && (forall id :: id in ids ==> id in disk)
              && (RecoversTo(disk, Map()) <==> Live(Apply(LogOfIds(disk, ids[..j]))) == Map())
    {
      hide LogOf, Apply, Live, LogOfIds, RecoversTo, Valid, Aligned, Sound, Seen, Map, Log;
      j := ReopensTo();
      RecoveryIsUnique(disk, Live(Apply(LogOfIds(disk, (Ids(segments) + [activeId])[..j]))), Map());
    }

    lemma CompactedIsValid(s: Segment)
      requires activeId in disk && disk[activeId] == [] && base == [] && written == [] && memtable == map[]
          && activeId < s.id
      requires segments == [s] && SegmentOk(disk, s) && nextSegment == s.id + 1
      requires forall id :: id in disk ==> id <= s.id
      ensures Valid() && Log() == LogOf(disk[s.id])
    {
      hide LogOf, WriterOk, Sound, Apply, LogOfIds, SegmentOk, Fits;
      EmptyFile();
      SegmentOkHasFile(disk, segments);
      OneSegment(disk, s.id);
      assert Ids(segments) == [s.id] && LogOf(disk[s.id]) + [] == LogOf(disk[s.id]);
    }

    lemma SealedFits()
      requires Valid()
      ensures AllFit(SealedLog()) && activeId in disk && (forall id :: id in disk ==> id < nextSegment)
      ensures forall id :: id in Ids(segments) ==> id in disk && id != activeId
    {
      hide LogOf, WriterOk, Sound, Apply, LogOfIds, SegmentOk, Fits, EncodeAll;
      SegmentOkHasFile(disk, segments);
      LogOfIdsFits(disk, Ids(segments));
    }

    lemma NowBehind()
      requires |segments| == 1 && segments[0].id == nextSegment - 1 == activeId + 1 && AllFit(written)
      requires activeId in disk && activeId + 1 in disk && disk.Keys == {activeId, activeId + 1}
      requires forall p :: p in LogOf(disk[activeId + 1]) ==> p.Put?
      ensures Behind()
    {
      hide LogOf, Fits;
    }

    lemma BehindKeys()
      requires Behind()
      ensures disk.Keys == {activeId, activeId + 1}
    {}

    lemma BehindDisk()
      requires Valid() && Behind()
      ensures activeId in disk && activeId + 1 in disk && PutsAbove(disk, activeId)
      ensures nextSegment == activeId + 2 && Ids(segments) == [activeId + 1]
      ensures memtable == Apply(LogOf(disk[activeId])) && SealedLog() == LogOf(disk[activeId + 1])
    {
      hide LogOf, WriterOk, Apply, Sound, LogOfIds, Legible, Fits;
      ActiveIsSound();
      SegmentOkHasFile(disk, segments);
      assert Ids(segments) == [activeId + 1];
      OneSegment(disk, activeId + 1);
    }

    /** The seal a compaction begins with, and the directories it passes through. */
    method SealForCompaction() returns (ghost trail: seq<Disk>)
      requires Valid()
      modifies this
      ensures Valid() && Live(Apply(old(LogAfterSeal()))) == Live(Apply(SealedLog())) && AllFit(SealedLog())
      ensures Path(trail, old(disk), disk)
      ensures trail == [old(disk), disk] && disk == old(disk)[activeId := []] && SealedLog() == old(LogAfterSeal())
      ensures Ids(segments) == old(Ids(segments)) + [activeId - 1]
      ensures activeId == old(nextSegment) && nextSegment == activeId + 1
      ensures memtable == map[] && count == 0 && activeId in disk && disk[activeId] == [] && base == [] && written == []
      ensures (forall id :: id in disk ==> id <= activeId) && forall id :: id in Ids(segments) ==> id < activeId
      ensures old(Aligned()) ==>
                && old(Map()) == Live(Apply(SealedLog())) && (Named(nextSegment) ==> AllRecover(trail, old(Map())))
                && Ready(disk, Ids(segments), activeId) && Sealed(disk, Ids(segments), activeId) == Apply(SealedLog())
    {
      hide LogOf, Apply, LogOfIds, IndexOf, SegmentOk, Sound, RecoversTo, Live, Path, Ready, Sealed,
          Named, AllRecover, AllFit, Valid, Aligned, SealedLog, Log, Map, LogAfterSeal;
      ghost var room := Aligned() && Named(nextSegment + 1);
      SealedFits();
      MapOfLog();
      if room { NamedBelow(activeId, nextSegment + 1); ReopensTheSame(); }
      ghost var before, older := disk, segments;
      Seal();
      IdsSnoc(older, segments);
      SealedFits();
      NothingActive();
      MapOfLog();
      FirstChange(before, disk, activeId);
      trail := [before, disk];
      if Aligned() { SealedIsReady(); }
      if room {
        ReadyRecovers(disk, Ids(segments), activeId);
        OpeningRecovers(before, disk, Map());
      }
    }

    /** Pour the sealed segments into a new one and delete them; the writer's is empty. */
    method ReplaceSealed() returns (ghost ps: seq<Record>, ghost steps: seq<Disk>)
      requires Valid() && AllFit(SealedLog()) && activeId in disk && disk[activeId] == [] && base == [] && written == []
      requires memtable == map[] && nextSegment == activeId + 1 && forall id :: id in disk ==> id <= activeId
      requires forall id :: id in Ids(segments) ==> id < activeId
      modifies this
      ensures Valid() && Log() == ps && Live(Apply(ps)) == Live(Apply(old(SealedLog())))
      ensures SortedKeys(ps) && forall p :: p in ps ==> p.Put?
      ensures steps != [] && Path(steps, old(disk), disk)
      ensures |segments| == 1 && segments[0].id == nextSegment - 1 == activeId + 1 && activeId == old(activeId)
      ensures memtable == map[] && count == old(count) && activeId in disk && disk[activeId] == []
      ensures base == [] && written == []
      ensures Restates(ps, Apply(old(SealedLog()))) && Covers(ps, Apply(old(SealedLog())))
      ensures Stages(steps, old(disk), activeId + 1, EncodeAll(ps), old(Ids(segments)))
      ensures var ids := old(Ids(segments));
              old(Ready(disk, ids, activeId)) && Apply(old(SealedLog())) == old(Sealed(disk, ids, activeId)) ==>
                  Behind() && (Named(activeId + 1) ==> AllRecover(steps, Live(Apply(old(SealedLog())))))
    {
      hide LogOf, Apply, LogOfIds, IndexOf, SegmentOk, Sound, RecoversTo, Live, Path, Ready, Sealed, SortedKeys,
          Named, AllRecover, Valid, Behind, SealedLog, Log, AllFit, Restates, Covers, Stages, Without;
      ghost var log, ids, before := SealedLog(), Ids(segments), disk;
      var collected := Collect();
      var newId := nextSegment;
      nextSegment := nextSegment + 1;
      var rewritten, segment, puts, passed := Rewrite(disk, newId, collected.value, Ids(segments), log, activeId);
      ps, steps := puts, passed;
      disk, segments := rewritten, [segment];
      EmptyFile();
      CompactedIsValid(segment);
      if Ready(before, ids, activeId) && Apply(log) == Sealed(before, ids, activeId) { NowBehind(); }
    }

    /** Rewrite everything live into one new segment, then delete the old ones: the map
        is the one a seal would leave, from an aligned state the same as before. The
        trail lists every state the directory passes through. */
    method Compact() returns (ghost trail: seq<Disk>)
      requires Valid()
      modifies this
      ensures Valid() && Map() == Live(Apply(old(LogAfterSeal())))
      ensures Path(trail, old(disk), disk)
      ensures |segments| == 1 && segments[0].id == nextSegment - 1 == activeId + 1 == old(nextSegment) + 1
      ensures memtable == map[] && count == 0 && disk[activeId] == [] && base == [] && written == []
      ensures SortedKeys(Log()) && forall p :: p in Log() ==> p.Put?
      ensures old(Aligned()) ==>
                && Map() == old(Map()) && Behind() && disk.Keys == {activeId, activeId + 1}
                && (Named(old(nextSegment) + 1) ==> AllRecover(trail, old(Map())))
      ensures old(Behind()) && Named(old(nextSegment) + 1) ==>
                AllRecover(trail, Live(old(memtable) + Apply(old(SealedLog()))))
    {
      hide LogOf, Apply, LogOfIds, Sound, RecoversTo, Live, Path, Ready, Sealed, SortedKeys, Named, AllRecover, Valid,
          Aligned, Behind, SealedLog, Log, Map, LogAfterSeal, AllFit, Restates, Covers, Stages, PutsAbove;
      ghost var behind, first := Behind() && Named(nextSegment + 1), activeId;
      if Behind() { BehindDisk(); BehindLogs(); ApplyTwice(SealedLog()); }
      ghost var opening := SealForCompaction();
      ghost var sealed, ids := disk, Ids(segments);
      ghost var ps, steps := ReplaceSealed();
      MapOfLog();
      PathConcat(opening, steps, old(disk), sealed, disk);
      trail := opening + steps[1..];
      if old(Aligned()) { BehindKeys(); }
      if old(Aligned()) && Named(activeId + 1) { JoinedRecover(opening, steps, old(Map())); }
      if behind { CompactsBehind(old(disk), first, sealed, activeId + 1, ps, old(Ids(segments)), ids, steps); }
    }

    /** The live keys from `prefix` up to the bound, in order. */
    method ScanPrefix(prefix: Bytes) returns (r: Result<seq<(Bytes, Bytes)>, StorageError>)
      requires Valid()
      ensures r.Ok? && IsScan(r.value, Map(), prefix)
    {
      hide LogOf, WriterOk, Apply, LogOfIds, InRange, ByteOrder.Less, EncodeAll;
      var collected := Collect();
      ApplyConcat(SealedLog(), ActiveLog());
      var merged := collected.value + memtable;
      var upper := UpperBound(prefix);
      var keys := ByteOrder.Sort(merged.Keys);
      var out := RangeOf(merged, keys, prefix, upper);
      return Ok(out);
    }
  }

  lemma NextAfterActive(e: Engine)
    requires e.Aligned()
    ensures e.nextSegment == e.activeId + 1
  {}

  lemma NoneAfterActive(e: Engine)
    requires e.Valid() && e.Aligned()
    ensures e.activeId in e.disk && forall id :: id in e.disk ==> id <= e.activeId
  {}

  // -------------------------------------------------------------------- scan

  /** A scan is exactly the live keys with the prefix when no live key is a stray
      of the prefix, and only then; in particular for every `Exact` prefix. */
  lemma ScanIsExactIff(out: seq<(Bytes, Bytes)>, m: map<Bytes, Bytes>, prefix: Bytes)
    requires IsScan(out, m, prefix)
    ensures (forall k, v :: (k, v) in out <==> k in m && m[k] == v && prefix <= k)
       <==> (forall k :: k in m && Stray(k, prefix) ==> prefix <= k)
    ensures Exact(prefix) ==> (forall k, v :: (k, v) in out <==> k in m && m[k] == v && prefix <= k)
  {
    hide Stray, InRange, Exact;
    RangeIsExactIff(prefix);
    forall k ensures InRange(k, prefix) <==> prefix <= k || Stray(k, prefix) {
      RangeIsPrefixOrStray(k, prefix);
    }
    if forall k, v :: (k, v) in out <==> k in m && m[k] == v && prefix <= k {
      forall k | k in m && Stray(k, prefix) ensures prefix <= k {
        assert (k, m[k]) in out;
      }
    }
  }

  /** Open, put, compact, and put another value. */
  method OverwriteCompacted(key: Bytes, first: Bytes, second: Bytes) returns (e: Engine, written: Option<Bytes>)
    requires Fits(Put(key, first)) && Fits(Put(key, second))
    ensures fresh(e) && e.Valid() && e.Behind() && e.activeId == 1 && written == Some(second)
    ensures key in Live(Apply(e.SealedLog())) && Live(Apply(e.SealedLog()))[key] == first
  {
    hide LogOf, Sound, Apply, LogOfIds, Live, Fits, RecoversTo, Path, SortedKeys, EncodeFrame, ScanFile,
        SegmentOk, Named, AllRecover, Engine.Valid, Engine.Aligned, Engine.Map, Engine.Log, Engine.SealedLog,
        Engine.LogAfterSeal;
    FitsIsWritable(Put(key, first));
    FitsIsWritable(Put(key, second));
    hide Writable;
    e := new Engine.Empty();
    e.MapOfLog();
    e.Put(key, first);
    ghost var trail := e.Compact();
    e.NothingActive();
    e.MapOfLog();
    e.Put(key, second);
    var before := e.Get(key);
    written := before.value;
  }

  /** A write between a compaction and the next seal is lost by that seal. */
  method CompactThenSeal(key: Bytes, first: Bytes, second: Bytes) returns (written: Option<Bytes>, found: Option<Bytes>)
    requires Fits(Put(key, first)) && Fits(Put(key, second))
    ensures written == Some(second) && found == Some(first)
  {
    hide LogOf, Apply, LogOfIds, Live, Fits, ScanFile, Engine.Valid, Engine.Aligned, Engine.Map, Engine.Log,
        Engine.SealedLog, Engine.LogAfterSeal, Engine.Behind;
    var e, before := OverwriteCompacted(key, first, second);
    e.BehindLogs();
    ApplyTwice(e.SealedLog());
    e.Seal();
    e.MapOfLog();
    var after := e.Get(key);
    return before, after.value;
  }

  lemma OlderIsLost(older: Merged, younger: Merged, key: Bytes, value: Bytes)
    requires key in Live(younger) && Live(younger)[key] == value
    ensures key in Live(older + younger) && Live(older + younger)[key] == value
  {}

  method ReopenBehind(e: Engine) returns (again: Engine)
    requires e.Valid() && e.Behind() && Named(e.activeId + 1)
    ensures fresh(again) && again.Valid() && again.Map() == Live(e.memtable + Apply(e.SealedLog()))
  {
    hide LogOf, Apply, LogOfIds, Live, RecoversTo, Named, Readable, Engine.Valid, Engine.Behind, Engine.Aligned,
        Engine.Map, Engine.SealedLog;
    e.BehindReopens();
    ghost var m := Live(e.memtable + Apply(e.SealedLog()));
    RecoveredOpens(e.disk, m);
    var r := Engine.Open(e.disk);
    again := r.value;
    RecoveryIsUnique(e.disk, m, again.Map());
  }

  /** Opened again before the next seal, the write is lost as well: the compacted
      segment is the younger file. */
  method CompactThenReopen(key: Bytes, first: Bytes, second: Bytes)
      returns (written: Option<Bytes>, found: Option<Bytes>)
    requires Fits(Put(key, first)) && Fits(Put(key, second))
    ensures written == Some(second) && found == Some(first)
  {
    hide LogOf, Sound, Apply, LogOfIds, Live, Fits, RecoversTo, Path, SortedKeys, EncodeFrame, ScanFile,
        SegmentOk, Named, AllRecover;
    var e, before := OverwriteCompacted(key, first, second);
    NamedIff(e.activeId + 1);
    OlderIsLost(e.memtable, Apply(e.SealedLog()), key, first);
    var again := ReopenBehind(e);
    var after := again.Get(key);
    return before, after.value;
  }

  lemma LostBehind(big: Record, r: Record)
    requires !Fits(big)
    ensures Legible(([] + [big]) + [r]) == [] && Live(Apply([])) == map[]
  {
    hide Fits;
    assert (([] + [big]) + [r])[0] == big;
  }

  /** A record beyond the reader's limit is found until the segment is sealed; then it is
      lost, with what was written after it. */
  method OversizedIsLost(key: Bytes, big: Bytes, other: Bytes, value: Bytes)
      returns (before: Option<Bytes>, after: Option<Bytes>)
    requires !Fits(Put(key, big)) && Writable(Put(key, big)) && Fits(Put(other, value))
    ensures before == Some(value) && after == None
  {
    LostBehind(Put(key, big), Put(other, value));
    FitsIsWritable(Put(other, value));
    hide LogOf, Apply, LogOfIds, Live, Fits, Writable, Legible, Engine.Valid, Engine.Aligned, Engine.Map, Engine.Log,
        Engine.SealedLog, Engine.LogAfterSeal, Engine.Behind;
    var e := new Engine.Empty();
    e.Put(key, big);
    e.Put(other, value);
    var found := e.Get(other);
    e.SealKeepsLegible();
    e.Seal();
    e.MapOfLog();
    var lost := e.Get(other);
    return found.value, lost.value;
  }

  const LAST_NAMED: nat := 99_999_999

  lemma LastNamed()
    ensures Named(LAST_NAMED) && !Named(LAST_NAMED + 1) && !Named(LAST_NAMED + 2)
  {
    hide Named;
    assert Decimal.Pow10(8) == LAST_NAMED + 1 by {
      assert Decimal.Pow10(4) == 10000;
      assert Decimal.Pow10(8) == 10 * Decimal.Pow10(7) == 10 * (10 * Decimal.Pow10(6));
      assert Decimal.Pow10(6) == 10 * Decimal.Pow10(5);
    }
    NamedIff(LAST_NAMED);
    NamedIff(LAST_NAMED + 1);
    NamedIff(LAST_NAMED + 2);
  }

  lemma OneFileReads(files: Disk)
    requires files == map[LAST_NAMED := []]
    ensures Listed(files) == files && Readable([]) && Named(LAST_NAMED) && !Named(LAST_NAMED + 1)
  {
    LastNamed();
    EmptyFile();
    hide Named, Readable;
  }

  lemma NamedFirst(e: Engine, files: Disk)
    requires files == map[LAST_NAMED := []] && e.disk == files[e.activeId := e.base]
    requires e.activeId == 0 || e.activeId - 1 in files
    requires LAST_NAMED < e.activeId
    ensures e.activeId == LAST_NAMED + 1 && e.disk.Keys == {LAST_NAMED, LAST_NAMED + 1}
  {}

  lemma OnlyAfterLast(e: Engine)
    requires e.Valid() && e.Aligned() && e.activeId == LAST_NAMED + 1 && e.disk.Keys == {LAST_NAMED, LAST_NAMED + 1}
    ensures Ids(e.segments) == [LAST_NAMED] && e.nextSegment == LAST_NAMED + 2
  {
    hide LogOf, Sound, LogOfIds, Fits, Ids, Engine.Valid;
    e.AllFilesListed();
    var ids := Ids(e.segments) + [e.activeId];
    assert forall id :: id in ids <==> id in e.disk.Keys;
    AscendingIsUnique(ids, [LAST_NAMED, LAST_NAMED + 1]);
    assert ids[..|ids| - 1] == Ids(e.segments);
  }

  /** An engine on a directory whose last name of eight digits is taken. */
  method AtEightDigits() returns (e: Engine)
    ensures fresh(e) && e.Valid() && e.Aligned() && Ids(e.segments) == [LAST_NAMED] && e.activeId == LAST_NAMED + 1
    ensures e.count == 0 && e.base == [] && e.written == [] && e.nextSegment == LAST_NAMED + 2
  {
    hide Seen, Named, Readable, Listed, RecoversTo, Engine.Valid, Engine.Aligned, Engine.Map, Ids;
    var files: Disk := map[LAST_NAMED := []];
    OneFileReads(files);
    var r := Engine.Open(files);
    e := r.value;
    NamedFirst(e, files);
    OnlyAfterLast(e);
  }

  lemma AllButLast(disk: Disk, ids: seq<nat>, last: nat, j: nat)
    requires (forall id :: id in ids ==> Seen(disk, id)) && !Seen(disk, last) && j <= |ids| + 1
    requires forall i :: 0 <= i < |ids| + 1 ==> (Seen(disk, (ids + [last])[i]) <==> i < j)
    ensures j == |ids|
  {
    hide Seen;
    assert (ids + [last])[|ids|] == last;
    if ids != [] { assert (ids + [last])[|ids| - 1] == ids[|ids| - 1]; }
  }

  /** The next opening does not read the writer's segment. */
  method ReopenPast(e: Engine) returns (again: Engine)
    requires e.Valid() && e.Aligned() && !Seen(e.disk, e.activeId)
    requires forall id :: id in Ids(e.segments) ==> Seen(e.disk, id)
    ensures fresh(again) && again.Valid() && again.Map() == Live(Apply(e.SealedLog()))
  {
    hide LogOf, Apply, LogOfIds, Live, RecoversTo, Seen, Readable, Listed, Engine.Valid, Engine.Aligned, Engine.Map,
        Engine.Log;
    ghost var j := e.ReopensTo();
    ghost var ids := Ids(e.segments) + [e.activeId];
    AllButLast(e.disk, Ids(e.segments), e.activeId, j);
    assert ids[..j] == Ids(e.segments);
    ghost var m := Live(Apply(e.SealedLog()));
    RecoveredOpens(e.disk, m);
    var r := Engine.Open(e.disk);
    again := r.value;
    RecoveryIsUnique(e.disk, m, again.Map());
  }

  lemma PastLast(e: Engine, ids: seq<nat>)
    requires e.activeId == LAST_NAMED + 2 && ids == [LAST_NAMED] + [LAST_NAMED + 1] && LAST_NAMED in e.disk
    ensures !Seen(e.disk, e.activeId) && forall id :: id in ids ==> Seen(e.disk, id)
  {
    LastNamed();
    hide Named;
  }

  /** Segment 100000000 is still read by the next opening, its successors are not: the
      record put into the one after it is lost. */
  method PastEightDigits(key: Bytes, kept: Bytes, lost: Bytes) returns (before: Option<Bytes>, after: Option<Bytes>)
    requires Fits(Put(key, kept)) && Fits(Put(key, lost))
    ensures before == Some(lost) && after == Some(kept)
  {
    hide LogOf, Apply, LogOfIds, Live, Fits, Writable, Seen, Named, Ids, ScanFile, Engine.Valid, Engine.Aligned,
        Engine.Map, Engine.Log, Engine.SealedLog, Engine.LogAfterSeal, Engine.SealedWith, Below, SegmentsOk, Sound;
    var e := AtEightDigits();
    FitsIsWritable(Put(key, kept));
    FitsIsWritable(Put(key, lost));
    e.Put(key, kept);
    e.MapOfLog();
    ghost var older := e.segments;
    e.Seal();
    e.NothingActive();
    e.MapOfLog();
    e.Put(key, lost);
    var found := e.Get(key);
    IdsSnoc(older, e.segments);
    e.SealParts();
    assert LAST_NAMED in Ids(e.segments);
    PastLast(e, Ids(e.segments));
    var again := ReopenPast(e);
    var left := again.Get(key);
    return found.value, left.value;
  }
}
