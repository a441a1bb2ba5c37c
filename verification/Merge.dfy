/** What a log of records means, and how an index into a file stands for it. */
module Merge {
  import opened Wrappers
  import opened Records
  import Crc32

  /** Latest version of every key; None is a tombstone. */
  type Merged = map<Bytes, Option<Bytes>>

  function Effect(r: Record): Option<Bytes> {
    match r case Put(_, value) => Some(value) case Delete(_) => None
  }

  /** Replay a log: later records win. */
  function Apply(log: seq<Record>): Merged {
    if log == [] then map[] else Apply(log[..|log| - 1])[log[|log| - 1].key := Effect(log[|log| - 1])]
  }

  /** The keys that have a value. */
  function Live(m: Merged): map<Bytes, Bytes> {
    map k | k in m && m[k].Some? :: m[k].value
  }

  lemma ApplySnoc(log: seq<Record>, r: Record)
    ensures Apply(log + [r]) == Apply(log)[r.key := Effect(r)]
  {
    assert (log + [r])[..|log|] == log;
  }

  lemma {:induction false} ApplyConcat(a: seq<Record>, b: seq<Record>)
    ensures Apply(a + b) == Apply(a) + Apply(b)
    decreases |b|
  {
    if b == [] {
      assert a + b == a;
    } else {
      var front, last := b[..|b| - 1], b[|b| - 1];
      assert a + b == (a + front) + [last] && b == front + [last];
      ApplyConcat(a, front);
      ApplySnoc(a + front, last);
    }
  }

  /** A put or a delete does to the live map what its name says. */
  lemma LiveSnoc(log: seq<Record>, r: Record)
    ensures r.Put? ==> Live(Apply(log + [r])) == Live(Apply(log))[r.key := r.value]
    ensures r.Delete? ==> Live(Apply(log + [r])) == Live(Apply(log)) - {r.key}
  {
    ApplySnoc(log, r);
  }

  /** The last record of a key decides it. */
  lemma {:induction false} LastWins(log: seq<Record>, i: nat)
    requires i < |log| && forall j :: i < j < |log| ==> log[j].key != log[i].key
    ensures log[i].key in Apply(log) && Apply(log)[log[i].key] == Effect(log[i])
    decreases |log|
  {
    if i < |log| - 1 {
      var front := log[..|log| - 1];
      LastWins(front, i);
      assert front[i] == log[i] && log[|log| - 1].key != log[i].key;
    }
  }

  lemma {:induction false} KeysOfApply(log: seq<Record>, k: Bytes) returns (i: nat)
    requires k in Apply(log)
    ensures i < |log| && log[i].key == k && forall j :: i < j < |log| ==> log[j].key != k
    decreases |log|
  {
    var last := log[|log| - 1];
    if last.key == k {
      i := |log| - 1;
    } else {
      i := KeysOfApply(log[..|log| - 1], k);
    }
  }

  // ------------------------------------------------------------------- index

  function IndexOf(entries: seq<(nat, Record)>): map<Bytes, nat> {
    if entries == [] then map[]
    else IndexOf(entries[..|entries| - 1])[entries[|entries| - 1].1.key := entries[|entries| - 1].0]
  }

  function LogOfEntries(entries: seq<(nat, Record)>): seq<Record> {
    seq(|entries|, i requires 0 <= i < |entries| => entries[i].1)
  }

  predicate Readable(file: Bytes) {
    ScanFile(file, 0).Entries?
  }

  /** The record a reader finds at an offset. */
  function ReadRecordAt(file: Bytes, offset: nat): Result<Record, StorageError> {
    match ReadFrameAt(file, offset)
    case None => Err(Corrupted)
    case Some(body) => DecodeRecord(body)
  }

  predicate BadBodyAt(file: Bytes, offset: nat, e: StorageError) {
    var body := ReadFrameAt(file, offset);
    body.Some? && DecodeRecord(body.value) == Err(e)
  }

  /** Somewhere in the file stands a good frame whose body fails like this. */
  ghost predicate BadBody(file: Bytes, e: StorageError) {
    exists offset: nat :: BadBodyAt(file, offset, e)
  }

  lemma ReadFrameMoves(file: Bytes, offset: nat)
    requires ReadFrameAt(file, offset).Some?
    ensures offset + FRAME_HEAD + |ReadFrameAt(file, offset).value| <= |file|
    ensures |ReadFrameAt(file, offset).value| <= MAX_RECORD_LEN
  {
    hide FromLittleEndian, Crc32.WordOf, Crc32.Checksum;
  }

  /** Every scanned entry reads back at its offset. */
  lemma {:induction false} EntriesReadBack(file: Bytes, offset: nat, i: nat)
    requires ScanFile(file, offset).Entries? && i < |ScanFile(file, offset).entries|
    ensures var e := ScanFile(file, offset).entries[i]; ReadRecordAt(file, e.0) == Ok(e.1)
    decreases |file| - offset
  {
    hide ReadFrameAt, DecodeRecord;
    var body := ReadFrameAt(file, offset).value;
    if i > 0 {
      ReadFrameMoves(file, offset);
      EntriesReadBack(file, offset + FRAME_HEAD + |body|, i - 1);
    }
  }

  /** An index points, for every key of the log, at a record that decides it. */
  lemma {:induction false} IndexDecides(file: Bytes, entries: seq<(nat, Record)>, k: Bytes)
    requires forall i :: 0 <= i < |entries| ==> ReadRecordAt(file, entries[i].0) == Ok(entries[i].1)
    ensures k in IndexOf(entries) <==> k in Apply(LogOfEntries(entries))
    ensures k in IndexOf(entries) ==>
              var r := ReadRecordAt(file, IndexOf(entries)[k]);
              r.Ok? && r.value.key == k && Effect(r.value) == Apply(LogOfEntries(entries))[k]
    decreases |entries|
  {
    hide ReadRecordAt;
    if entries != [] {
      var front := entries[..|entries| - 1];
      assert LogOfEntries(entries) == LogOfEntries(front) + [entries[|entries| - 1].1];
      ApplySnoc(LogOfEntries(front), entries[|entries| - 1].1);
      IndexDecides(file, front, k);
    }
  }

  lemma FileIndexDecides(file: Bytes, k: Bytes)
    requires Readable(file)
    ensures var index := IndexOf(ScanFile(file, 0).entries);
            && (k in index <==> k in Apply(LogOf(file)))
            && (k in index ==> var r := ReadRecordAt(file, index[k]);
                               r.Ok? && r.value.key == k && Effect(r.value) == Apply(LogOf(file))[k])
  {
    hide ReadRecordAt, ScanFile;
    var entries := ScanFile(file, 0).entries;
    forall i | 0 <= i < |entries| ensures ReadRecordAt(file, entries[i].0) == Ok(entries[i].1) {
      EntriesReadBack(file, 0, i);
    }
    assert LogOf(file) == LogOfEntries(entries);
    IndexDecides(file, entries, k);
  }

  // ------------------------------------------------------------ ascending ids

  ghost predicate Ascending(ids: seq<nat>) {
    forall i, j :: 0 <= i < j < |ids| ==> ids[i] < ids[j]
  }

  lemma HasFirst(a: seq<nat>)
    requires a != []
    ensures exists k :: k in a
  {
    assert a[0] in a;
  }

  lemma Rest(a: seq<nat>, k: nat)
    requires Ascending(a) && a != []
    ensures k in a[1..] <==> k in a && k != a[0]
  {
    assert a == [a[0]] + a[1..];
  }

  /** A set of ids has only one ascending listing. */
  lemma {:induction false} AscendingIsUnique(a: seq<nat>, b: seq<nat>)
    requires Ascending(a) && Ascending(b) && forall x :: x in a <==> x in b
    ensures a == b
    decreases |a|
  {
    if a != [] { HasFirst(a); }
    if b != [] { HasFirst(b); }
    if a != [] && b != [] {
      assert a[0] in b && b[0] in a;
      assert a[0] == b[0];
      var x, y := a[1..], b[1..];
      assert a == [a[0]] + x && b == [b[0]] + y;
      forall k ensures k in x <==> k in y {
        Rest(a, k);
        Rest(b, k);
      }
      AscendingIsUnique(x, y);
    }
  }

  lemma AscendingSnoc(ids: seq<nat>, last: nat)
    requires Ascending(ids) && forall id :: id in ids ==> id < last
    ensures Ascending(ids + [last])
  {
    assert forall i :: 0 <= i < |ids| ==> ids[i] in ids;
  }

  method LeastId(ids: set<nat>) returns (m: nat)
    requires ids != {}
    ensures m in ids && forall x :: x in ids ==> m <= x
  {
    m :| m in ids;
    var todo := ids - {m};
    while todo != {}
      invariant todo <= ids && m in ids
      invariant forall x :: x in ids && x !in todo ==> m <= x
      decreases |todo|
    {
      var x :| x in todo;
      if x < m { m := x; }
      todo := todo - {x};
    }
  }

  lemma NoneAscend()
    ensures Ascending([])
  {}

  method SortIds(ids: set<nat>) returns (sorted: seq<nat>)
    ensures Ascending(sorted) && forall x :: x in sorted <==> x in ids
  {
    hide Ascending;
    sorted := [];
    assert Ascending([]) by { NoneAscend(); }
    var rest := ids;
    while rest != {}
      invariant rest <= ids && Ascending(sorted)
      invariant forall x :: x in sorted <==> x in ids && x !in rest
      invariant forall x, y :: x in sorted && y in rest ==> x < y
      decreases |rest|
    {
      var m := LeastId(rest);
      AscendingSnoc(sorted, m);
      sorted := sorted + [m];
      rest := rest - {m};
    }
  }
}
