/** Segment files that are appended to: where a scan of them ends, and what more
    frames at the end mean to the next reader. */
module SegmentFiles {
  import opened Wrappers
  import opened Records
  import opened Merge
  import opened Directory

  /** A record whose length the frame header can hold; the writer panics at a longer one. */
  predicate Writable(r: Record) {
    |EncodeRecord(r)| <= U32_MAX
  }

  predicate AllWritable(log: seq<Record>) {
    forall r :: r in log ==> Writable(r)
  }

  /** Where the reader stops. */
  function ScanEnd(file: Bytes, offset: nat): (end: nat)
    requires offset <= |file|
    ensures offset <= end <= |file|
    decreases |file| - offset
  {
    match ReadFrameAt(file, offset)
    case None => offset
    case Some(body) =>
      ReadFrameMoves(file, offset);
      ScanEnd(file, offset + FRAME_HEAD + |body|)
  }

  /** A file that is read to its last byte, without an error. */
  predicate Whole(file: Bytes) {
    Readable(file) && ScanEnd(file, 0) == |file|
  }

  /** The records before the first one beyond the reader's limit. */
  function Legible(log: seq<Record>): seq<Record> {
    if log == [] || !Fits(log[0]) then [] else [log[0]] + Legible(log[1..])
  }

  lemma {:induction false} LegibleIsPrefix(log: seq<Record>)
    ensures Legible(log) <= log && AllFit(Legible(log))
    ensures Legible(log) != log ==> !Fits(log[|Legible(log)|])
  {
    hide Fits;
    if log != [] && Fits(log[0]) {
      LegibleIsPrefix(log[1..]);
      assert log == [log[0]] + log[1..];
    }
  }

  lemma {:induction false} LegibleIfFit(log: seq<Record>)
    requires AllFit(log)
    ensures Legible(log) == log
  {
    hide Fits;
    if log != [] { LegibleIfFit(log[1..]); }
  }

  // ------------------------------------------------------- reading part of a file

  lemma ReadInPart(a: Bytes, b: Bytes, offset: nat)
    ensures ReadFrameAt(a + b, |a| + offset) == ReadFrameAt(b, offset)
  {
    hide FromLittleEndian, Crc32.WordOf, Crc32.Checksum;
    if offset + FRAME_HEAD <= |b| {
      var file, at := a + b, |a| + offset;
      assert file[at..at + 4] == b[offset..offset + 4];
      assert file[at + 4..at + FRAME_HEAD] == b[offset + 4..offset + FRAME_HEAD];
      var len := FromLittleEndian(b[offset..offset + 4]);
      if offset + FRAME_HEAD + len <= |b| {
        assert file[at + FRAME_HEAD..at + FRAME_HEAD + len] == b[offset + FRAME_HEAD..offset + FRAME_HEAD + len];
      }
    }
  }

  /** A frame that is there does not depend on what follows it. */
  lemma ReadInFront(file: Bytes, longer: Bytes, offset: nat)
    requires file <= longer && ReadFrameAt(file, offset).Some?
    ensures ReadFrameAt(longer, offset) == ReadFrameAt(file, offset)
  {
    hide FromLittleEndian, Crc32.WordOf, Crc32.Checksum;
    assert longer[offset..offset + 4] == file[offset..offset + 4];
    assert longer[offset + 4..offset + FRAME_HEAD] == file[offset + 4..offset + FRAME_HEAD];
    var len := FromLittleEndian(file[offset..offset + 4]);
    assert longer[offset + FRAME_HEAD..offset + FRAME_HEAD + len] ==
        file[offset + FRAME_HEAD..offset + FRAME_HEAD + len];
  }

  /** The records a scan finds, without their offsets. */
  function RecordsFrom(file: Bytes, offset: nat): Option<seq<Record>> {
    match ScanFile(file, offset)
    case Entries(entries) => Some(LogOfEntries(entries))
    case Unreadable => None
  }

  lemma RecordsStep(file: Bytes, offset: nat)
    ensures RecordsFrom(file, offset) ==
            match ReadFrameAt(file, offset)
            case None => Some([])
            case Some(body) =>
              (match DecodeRecord(body)
               case Err(_) => None
               case Ok(r) =>
                 (match RecordsFrom(file, offset + FRAME_HEAD + |body|)
                  case None => None
                  case Some(rest) => Some([r] + rest)))
  {
    hide ReadFrameAt, DecodeRecord;
    var frame := ReadFrameAt(file, offset);
    if frame.Some? && DecodeRecord(frame.value).Ok? {
      var r, rest := DecodeRecord(frame.value).value, ScanFile(file, offset + FRAME_HEAD + |frame.value|);
      if rest.Entries? {
        var entries := [(offset, r)] + rest.entries;
        assert ScanFile(file, offset) == Entries(entries);
        assert LogOfEntries(entries) == [r] + LogOfEntries(rest.entries);
      }
    } else {
      assert LogOfEntries([]) == [];
    }
  }

  lemma LogIsRecords(file: Bytes)
    ensures RecordsFrom(file, 0) == if Readable(file) then Some(LogOf(file)) else None
  {
    hide ScanFile;
  }

  lemma {:induction false} RecordsInPart(a: Bytes, b: Bytes, offset: nat)
    ensures RecordsFrom(a + b, |a| + offset) == RecordsFrom(b, offset)
    decreases |b| - offset
  {
    hide ReadFrameAt, DecodeRecord, RecordsFrom;
    ReadInPart(a, b, offset);
    RecordsStep(a + b, |a| + offset);
    RecordsStep(b, offset);
    var frame := ReadFrameAt(b, offset);
    if frame.Some? {
      ReadFrameMoves(b, offset);
      RecordsInPart(a, b, offset + FRAME_HEAD + |frame.value|);
    }
  }

  lemma {:induction false} RecordsAfter(file: Bytes, more: Bytes, offset: nat)
    requires offset <= |file| && RecordsFrom(file, offset).Some? && ScanEnd(file, offset) == |file|
    ensures RecordsFrom(file + more, offset) ==
            match RecordsFrom(file + more, |file|)
            case None => None
            case Some(rest) => Some(RecordsFrom(file, offset).value + rest)
    decreases |file| - offset
  {
    hide ReadFrameAt, DecodeRecord, RecordsFrom;
    RecordsStep(file, offset);
    RecordsStep(file + more, offset);
    var frame := ReadFrameAt(file, offset);
    if frame.Some? {
      ReadInFront(file, file + more, offset);
      ReadFrameMoves(file, offset);
      var next := offset + FRAME_HEAD + |frame.value|;
      RecordsAfter(file, more, next);
      var r, rest := DecodeRecord(frame.value).value, RecordsFrom(file + more, |file|);
      if rest.Some? {
        assert ([r] + RecordsFrom(file, next).value) + rest.value == [r] + (RecordsFrom(file, next).value + rest.value);
      }
    } else {
      var rest := RecordsFrom(file + more, |file|);
      if rest.Some? { assert [] + rest.value == rest.value; }
    }
  }

  /** A file read to its end, and more behind it: both are read. */
  lemma WholeThen(file: Bytes, more: Bytes)
    requires Whole(file)
    ensures Readable(file + more) <==> Readable(more)
    ensures Readable(more) ==> LogOf(file + more) == LogOf(file) + LogOf(more)
  {
    hide LogOf, RecordsFrom, ScanFile;
    LogIsRecords(file);
    LogIsRecords(more);
    LogIsRecords(file + more);
    RecordsAfter(file, more, 0);
    RecordsInPart(file, more, 0);
  }

  lemma NothingAtEnd(file: Bytes)
    ensures ReadFrameAt(file, |file|) == None
  {}

  lemma CutBehind(file: Bytes, end: nat, offset: nat)
    requires ReadFrameAt(file, offset).Some? && end <= |file|
    requires offset + FRAME_HEAD + |ReadFrameAt(file, offset).value| <= end
    ensures ReadFrameAt(file[..end], offset) == ReadFrameAt(file, offset)
  {
    hide Crc32.Checksum, FromLittleEndian, Crc32.WordOf;
    var cut := file[..end];
    assert cut[offset..offset + 4] == file[offset..offset + 4];
    assert cut[offset + 4..offset + FRAME_HEAD] == file[offset + 4..offset + FRAME_HEAD];
    var len := FromLittleEndian(file[offset..offset + 4]);
    assert cut[offset + FRAME_HEAD..offset + FRAME_HEAD + len] == file[offset + FRAME_HEAD..offset + FRAME_HEAD + len];
  }

  lemma {:induction false} EndInFront(file: Bytes, end: nat, offset: nat)
    requires offset <= |file| && end == ScanEnd(file, offset)
    ensures RecordsFrom(file[..end], offset) == RecordsFrom(file, offset) && ScanEnd(file[..end], offset) == end
    decreases |file| - offset
  {
    hide DecodeRecord, RecordsFrom, ReadFrameAt;
    RecordsStep(file, offset);
    RecordsStep(file[..end], offset);
    var frame := ReadFrameAt(file, offset);
    if frame.Some? {
      ReadFrameMoves(file, offset);
      var next := offset + FRAME_HEAD + |frame.value|;
      EndInFront(file, end, next);
      CutBehind(file, end, offset);
    } else {
      NothingAtEnd(file[..end]);
    }
  }

  /** Cutting off what the reader does not read leaves a whole file with the same records. */
  lemma CutToEnd(file: Bytes)
    requires Readable(file)
    ensures var good := file[..ScanEnd(file, 0)]; Whole(good) && LogOf(good) == LogOf(file)
  {
    hide LogOf, RecordsFrom, ScanFile, ScanEnd;
    LogIsRecords(file);
    LogIsRecords(file[..ScanEnd(file, 0)]);
    EndInFront(file, ScanEnd(file, 0), 0);
  }

  lemma NothingIsWhole()
    ensures Whole([]) && LogOf([]) == []
  {}

  lemma OversizedTail(log: seq<Record>)
    requires AllWritable(log) && (log == [] || !Fits(log[0]))
    ensures Tail(EncodeAll(log))
  {
    hide EncodeFrame, EncodeRecord, Fits;
    if log != [] {
      var rest := log[1..];
      assert log == [log[0]] + rest && [log[0]] == [] + [log[0]];
      EncodeAllConcat([log[0]], rest);
      EncodeAllSnoc([], log[0]);
      assert log[0] in log;
      assert StartsOversized(EncodeAll(log), log[0]);
    }
  }

  /** What was written is read up to the first record beyond the limit. */
  lemma WrittenIsLegible(log: seq<Record>)
    requires AllWritable(log)
    ensures Readable(EncodeAll(log)) && LogOf(EncodeAll(log)) == Legible(log)
  {
    hide LogOf, EncodeAll, Fits, Writable, Tail, ScanFile;
    LegibleIsPrefix(log);
    var k := Legible(log);
    hide Legible;
    var rest := log[|k|..];
    assert log == k + rest;
    EncodeAllConcat(k, rest);
    OversizedTail(rest);
    assert EncodeAll(log)[|EncodeAll(k)|..] == EncodeAll(rest);
    LogOfHolds(EncodeAll(log), k);
  }

  /** A file read to its end, with more written behind it. */
  lemma GrownIsSound(base: Bytes, written: seq<Record>)
    requires Whole(base) && AllWritable(written)
    ensures Sound(base + EncodeAll(written)) && LogOf(base + EncodeAll(written)) == LogOf(base) + Legible(written)
  {
    hide LogOf, Whole, Legible, EncodeAll, ScanFile, AllFit;
    WrittenIsLegible(written);
    WholeThen(base, EncodeAll(written));
    ReadableIsSound(base + EncodeAll(written));
  }

  /** Replay a file into a map; the bytes up to the first bad frame are good. */
  method Replay(file: Bytes) returns (r: Result<(Merged, nat), StorageError>)
    ensures r.Ok? <==> Readable(file)
    ensures r.Ok? ==> r.value == (Apply(LogOf(file)), ScanEnd(file, 0))
    ensures r.Err? ==> BadBody(file, r.error)
  {
    hide ReadFrameAt, DecodeRecord, RecordsFrom, Apply;
    var memtable: Merged := map[];
    var offset := 0;
    ghost var seen: seq<Record> := [];
    LogIsRecords(file);
    ApplyNothing();
    while true
      invariant offset <= |file| && ScanEnd(file, 0) == ScanEnd(file, offset) && memtable == Apply(seen)
      invariant RecordsFrom(file, offset).Some? <==> Readable(file)
      invariant Readable(file) ==> LogOf(file) == seen + RecordsFrom(file, offset).value
      decreases |file| - offset
    {
      RecordsStep(file, offset);
      var frame := ReadFrameAt(file, offset);
      if frame.None? {
        assert seen + [] == seen;
        return Ok((memtable, offset));
      }
      ReadFrameMoves(file, offset);
      var record := DecodeRecord(frame.value);
      match record
      case Err(e) =>
        assert BadBodyAt(file, offset, e);
        return Err(e);
      case Ok(found) =>
        ApplySnoc(seen, found);
        var next := offset + FRAME_HEAD + |frame.value|;
        if Readable(file) {
          var rest := RecordsFrom(file, next).value;
          assert seen + ([found] + rest) == (seen + [found]) + rest;
        }
        memtable := memtable[found.key := Effect(found)];
        seen := seen + [found];
        offset := next;
    }
  }
}
