/** Log records, their frames, and what a reader makes of a segment file. */
module Records {
  import opened Wrappers
  import Crc32
  import Varint

  const KIND_PUT: byte := 0
  const KIND_DELETE: byte := 1
  const MAX_RECORD_LEN: nat := 0x10_0000
  const FRAME_HEAD: nat := 8

  datatype Record = Put(key: Bytes, value: Bytes) | Delete(key: Bytes)

  /** A byte string that is no record is an error, except that the empty one panics. */
  datatype StorageError = Corrupted | Panicked

  function Field(b: Bytes): Bytes {
    Varint.Encode(|b|) + b
  }

  function EncodeRecord(r: Record): Bytes {
    match r
    case Put(key, value) => [KIND_PUT] + (Field(key) + Field(value))
    case Delete(key) => [KIND_DELETE] + Field(key)
  }

  /** Small records, byte for byte. */
  lemma RecordLayout()
    ensures EncodeRecord(Put([7], [8, 9])) == [0, 1, 7, 2, 8, 9] && EncodeRecord(Delete([7])) == [1, 1, 7]
  {
    assert Field([7]) == [1, 7] && Field([8, 9]) == [2, 8, 9];
  }

  /** A length-prefixed string at the front of `src`, and what follows it. */
  function TakeField(src: Bytes): Option<(Bytes, Bytes)> {
    match Varint.Scan(Varint.START, src)
    case None => None
    case Some((len, used)) =>
      if len <= |src| - used then Some((src[used..used + len], src[used + len..])) else None
  }

  function DecodeRecord(src: Bytes): Result<Record, StorageError> {
    if src == [] then Err(Panicked)
    else
      match TakeField(src[1..])
      case None => Err(Corrupted)
      case Some((key, rest)) =>
        if src[0] == KIND_DELETE then Ok(Delete(key))
        else
          match TakeField(rest)
          case None => Err(Corrupted)
          case Some((value, _)) => Ok(Put(key, value))
  }

  lemma FieldRoundTrip(b: Bytes, rest: Bytes)
    requires |b| <= U64_MAX
    ensures TakeField(Field(b) + rest) == Some((b, rest))
  {
    hide Varint.Scan, Varint.Encode;
    var src := Field(b) + rest;
    assert src == Varint.Encode(|b|) + (b + rest);
    Varint.RoundTrip(|b|, b + rest);
    var used := |Varint.Encode(|b|)|;
    assert src[used..used + |b|] == b && src[used + |b|..] == rest;
  }

  /** A record decodes to itself. */
  lemma RecordRoundTrip(r: Record)
    requires |r.key| <= U64_MAX && (r.Put? ==> |r.value| <= U64_MAX)
    ensures DecodeRecord(EncodeRecord(r)) == Ok(r)
  {
    hide TakeField;
    var src := EncodeRecord(r);
    match r
    case Put(key, value) =>
      assert src[1..] == Field(key) + Field(value);
      FieldRoundTrip(key, Field(value));
      FieldRoundTrip(value, []);
      assert Field(value) + [] == Field(value);
    case Delete(key) =>
      assert src[1..] == Field(key) + [];
      FieldRoundTrip(key, []);
  }

  lemma TakeFieldIff(src: Bytes, b: Bytes, rest: Bytes)
    ensures TakeField(src) == Some((b, rest)) <==> Varint.StartsWithField(src, b, rest)
  {
    hide Varint.Scan, Varint.StartsWith;
    if TakeField(src).Some? {
      var (len, used) := Varint.Scan(Varint.START, src).value;
      Varint.StartsWithIff(src, len, src[used..]);
      assert src[used..] == TakeField(src).value.0 + TakeField(src).value.1;
    }
    if Varint.StartsWithField(src, b, rest) {
      Varint.StartsWithIff(src, |b|, b + rest);
      var used := Varint.Scan(Varint.START, src).value.1;
      assert src[used..used + |b|] == src[used..][..|b|] == b && src[used + |b|..] == src[used..][|b|..] == rest;
    }
  }

  /** The bytes of a record: any kind but the deletion's stands for a put, the lengths
      need not be written in the shortest way, and what follows is ignored. */
  ghost predicate SaysRecord(src: Bytes, r: Record) {
    && src != []
    && if src[0] == 1 then r.Delete? && exists rest :: Varint.StartsWithField(src[1..], r.key, rest)
       else r.Put? && exists rest, end ::
              Varint.StartsWithField(src[1..], r.key, rest) && Varint.StartsWithField(rest, r.value, end)
  }

  /** Exactly such bytes are decoded; all others are corrupted, but none at all panics. */
  lemma RecordDecodesIff(src: Bytes, r: Record)
    ensures DecodeRecord(src) == Ok(r) <==> SaysRecord(src, r)
    ensures DecodeRecord(src).Err? ==> DecodeRecord(src).error == if src == [] then Panicked else Corrupted
  {
    hide TakeField, Varint.StartsWithField;
    if src != [] && TakeField(src[1..]).Some? {
      var (key, rest) := TakeField(src[1..]).value;
      TakeFieldIff(src[1..], key, rest);
      if TakeField(rest).Some? { TakeFieldIff(rest, TakeField(rest).value.0, TakeField(rest).value.1); }
    }
    if SaysRecord(src, r) {
      if r.Delete? {
        var rest :| Varint.StartsWithField(src[1..], r.key, rest);
        TakeFieldIff(src[1..], r.key, rest);
      } else {
        var rest, end :| Varint.StartsWithField(src[1..], r.key, rest) && Varint.StartsWithField(rest, r.value, end);
        TakeFieldIff(src[1..], r.key, rest);
        TakeFieldIff(rest, r.value, end);
      }
    }
  }

  lemma FieldIsNoLonger(src: Bytes)
    requires TakeField(src).Some?
    ensures |Field(TakeField(src).value.0)| + |TakeField(src).value.1| <= |src|
  {
    hide Varint.Scan, Varint.Encode;
    Varint.StartIsMidway();
    Varint.DecodedIsNoShorter(Varint.START, src);
  }

  /** A decoded record is never longer, written again, than what it was read from. */
  lemma DecodedIsNoLonger(src: Bytes)
    requires DecodeRecord(src).Ok?
    ensures |EncodeRecord(DecodeRecord(src).value)| <= |src|
  {
    hide Field, TakeField;
    FieldIsNoLonger(src[1..]);
    var rest := TakeField(src[1..]).value.1;
    if src[0] != KIND_DELETE { FieldIsNoLonger(rest); }
  }

  // ------------------------------------------------------------------ frames

  /** `len.to_le_bytes()` of a 32-bit length. */
  function LittleEndian(n: nat): (b: Bytes)
    ensures |b| == 4
  {
    [n % 256, n / 256 % 256, n / 0x1_0000 % 256, n / 0x100_0000 % 256]
  }

  function FromLittleEndian(b: Bytes): nat
    requires |b| == 4
  {
    var lo: nat, mid: nat, up: nat, top: nat := b[0], b[1], b[2], b[3];
    lo + 256 * mid + 0x1_0000 * up + 0x100_0000 * top
  }

  lemma LengthRoundTrip(n: nat)
    requires n <= U32_MAX
    ensures FromLittleEndian(LittleEndian(n)) == n
  {
    var a, b, c := n / 256, n / 0x1_0000, n / 0x100_0000;
    assert n == 256 * a + n % 256;
    assert a == 256 * b + a % 256 by { assert b == a / 256; }
    assert b == 256 * c + b % 256 by { assert c == b / 256; }
    assert c % 256 == c;
  }

  predicate Fits(r: Record) {
    |EncodeRecord(r)| <= MAX_RECORD_LEN
  }

  /** Length, checksum, body. */
  function FrameOf(body: Bytes): (f: Bytes)
    ensures |f| == FRAME_HEAD + |body|
  {
    LittleEndian(|body|) + Crc32.LittleEndian(Crc32.Checksum(body)) + body
  }

  /** A small frame: its length first, lowest byte in front, then its checksum. */
  lemma FrameLayout()
    ensures FrameOf([5, 6, 7]) == [3, 0, 0, 0] + Crc32.LittleEndian(Crc32.Checksum([5, 6, 7])) + [5, 6, 7]
    ensures LittleEndian(0x0102_0304) == [4, 3, 2, 1]
  {
    hide Crc32.Checksum, Crc32.LittleEndian;
  }

  function EncodeFrame(r: Record): (f: Bytes)
    ensures |f| == FRAME_HEAD + |EncodeRecord(r)|
  {
    FrameOf(EncodeRecord(r))
  }

  /** The body of the frame at `offset`, unless it is cut, too long or damaged. */
  function ReadFrameAt(file: Bytes, offset: nat): Option<Bytes> {
    if offset + FRAME_HEAD > |file| then None
    else
      var len := FromLittleEndian(file[offset..offset + 4]);
      var crc := Crc32.WordOf(file[offset + 4..offset + FRAME_HEAD]);
      if len > MAX_RECORD_LEN || offset + FRAME_HEAD + len > |file| then None
      else
        var body := file[offset + FRAME_HEAD..offset + FRAME_HEAD + len];
        if Crc32.Checksum(body) != crc then None else Some(body)
  }

  lemma LengthWritten(b: Bytes)
    requires |b| == 4
    ensures LittleEndian(FromLittleEndian(b)) == b
  {
    var n := FromLittleEndian(b);
    assert n / 256 == b[1] as nat + 256 * b[2] as nat + 0x1_0000 * b[3] as nat;
    assert n / 0x1_0000 == b[2] as nat + 256 * b[3] as nat;
    assert n / 0x100_0000 == b[3] as nat;
  }

  lemma ReadsWritten(file: Bytes, offset: nat, body: Bytes)
    requires |body| <= MAX_RECORD_LEN && offset + FRAME_HEAD + |body| <= |file|
    requires file[offset..offset + FRAME_HEAD + |body|] == FrameOf(body)
    ensures ReadFrameAt(file, offset) == Some(body)
  {
    hide Crc32.Checksum, Crc32.LittleEndian, Crc32.WordOf, LittleEndian, FromLittleEndian;
    var f, len, crc := FrameOf(body), LittleEndian(|body|), Crc32.LittleEndian(Crc32.Checksum(body));
    assert f[..4] == len && f[4..FRAME_HEAD] == crc && f[FRAME_HEAD..] == body;
    var end := offset + FRAME_HEAD + |body|;
    assert file[offset..end] == f;
    assert forall k :: 0 <= k < |f| ==> file[offset + k] == f[k];
    assert file[offset..offset + 4] == f[..4];
    assert file[offset + 4..offset + FRAME_HEAD] == f[4..FRAME_HEAD];
    assert file[offset + FRAME_HEAD..end] == f[FRAME_HEAD..];
    LengthRoundTrip(|body|);
    Crc32.LittleEndianRoundTrip(Crc32.Checksum(body));
  }

  /** A reader accepts exactly what a writer writes: the length, the right checksum and
      a body within the limit, whatever record the body may be. */
  lemma ReadsIff(file: Bytes, offset: nat, body: Bytes)
    ensures ReadFrameAt(file, offset) == Some(body) <==>
            && |body| <= MAX_RECORD_LEN && offset + FRAME_HEAD + |body| <= |file|
            && file[offset..offset + FRAME_HEAD + |body|] == FrameOf(body)
  {
    hide Crc32.Checksum, Crc32.LittleEndian, Crc32.WordOf, LittleEndian, FromLittleEndian;
    if offset + FRAME_HEAD <= |file| {
      var len, crc := file[offset..offset + 4], file[offset + 4..offset + FRAME_HEAD];
      LengthWritten(len);
      Crc32.WordOfRoundTrip(crc);
      if ReadFrameAt(file, offset) == Some(body) {
        var end := offset + FRAME_HEAD + |body|;
        assert file[offset..end] == len + crc + file[offset + FRAME_HEAD..end];
      }
      if |body| <= MAX_RECORD_LEN && offset + FRAME_HEAD + |body| <= |file|
          && file[offset..offset + FRAME_HEAD + |body|] == FrameOf(body) {
        ReadsWritten(file, offset, body);
      }
    }
  }

  /** The frame of a record reads back exactly when its body is within the reader's limit. */
  lemma FrameReadsBack(before: Bytes, r: Record, after: Bytes)
    requires |EncodeRecord(r)| <= U32_MAX
    ensures ReadFrameAt(before + EncodeFrame(r) + after, |before|) == if Fits(r) then Some(EncodeRecord(r)) else None
  {
    hide Crc32.Divide, Crc32.LittleEndian, Crc32.WordOf, EncodeRecord, LittleEndian, FromLittleEndian;
    var body := EncodeRecord(r);
    var file, at := before + EncodeFrame(r) + after, |before|;
    assert file[at..at + 4] == LittleEndian(|body|);
    assert file[at + 4..at + FRAME_HEAD] == Crc32.LittleEndian(Crc32.Checksum(body));
    LengthRoundTrip(|body|);
    Crc32.LittleEndianRoundTrip(Crc32.Checksum(body));
    if Fits(r) {
      assert file[at + FRAME_HEAD..at + FRAME_HEAD + |body|] == body;
    }
  }

  /** A frame cut short reads as nothing. */
  lemma CutFrameIsNothing(before: Bytes, r: Record, k: nat)
    requires k < |EncodeFrame(r)| && |EncodeRecord(r)| <= U32_MAX
    ensures ReadFrameAt(before + EncodeFrame(r)[..k], |before|) == None
  {
    hide Crc32.Divide, Crc32.LittleEndian, Crc32.WordOf, EncodeRecord, LittleEndian, FromLittleEndian;
    if k >= FRAME_HEAD {
      var file, at := before + EncodeFrame(r)[..k], |before|;
      assert file[at..at + 4] == LittleEndian(|EncodeRecord(r)|);
      LengthRoundTrip(|EncodeRecord(r)|);
    }
  }

  // ------------------------------------------------------------ segment files

  /** All frames of a file up to the first bad one, with their offsets; a body
      that is no record stops the reader with an error. */
  datatype Scan = Entries(entries: seq<(nat, Record)>) | Unreadable

  function ScanFile(file: Bytes, offset: nat): Scan
    decreases |file| - offset
  {
    match ReadFrameAt(file, offset)
    case None => Entries([])
    case Some(body) =>
      match DecodeRecord(body)
      case Ok(r) =>
        (match ScanFile(file, offset + FRAME_HEAD + |body|)
         case Entries(rest) => Entries([(offset, r)] + rest)
         case Unreadable => Unreadable)
      case Err(_) => Unreadable
  }

  function EncodeAll(log: seq<Record>): Bytes {
    if log == [] then [] else EncodeAll(log[..|log| - 1]) + EncodeFrame(log[|log| - 1])
  }

  predicate AllFit(log: seq<Record>) {
    forall r :: r in log ==> Fits(r)
  }

  lemma EncodeAllSnoc(log: seq<Record>, r: Record)
    ensures EncodeAll(log + [r]) == EncodeAll(log) + EncodeFrame(r)
  {
    assert (log + [r])[..|log|] == log;
  }

  lemma ConcatAssoc(a: Bytes, b: Bytes, c: Bytes)
    ensures (a + b) + c == a + (b + c)
  {}

  lemma EncodeAllNone()
    ensures EncodeAll([]) == []
  {}

  lemma {:induction false} EncodeAllConcat(a: seq<Record>, b: seq<Record>)
    ensures EncodeAll(a + b) == EncodeAll(a) + EncodeAll(b)
    decreases |b|
  {
    hide EncodeAll, EncodeFrame;
    if b == [] {
      assert a + b == a;
      EncodeAllNone();
    } else {
      var front, last := b[..|b| - 1], b[|b| - 1];
      assert a + b == (a + front) + [last] && b == front + [last];
      EncodeAllConcat(a, front);
      EncodeAllSnoc(a + front, last);
      EncodeAllSnoc(front, last);
      ConcatAssoc(EncodeAll(a), EncodeAll(front), EncodeFrame(last));
    }
  }

  /** The records of a file. */
  function LogOf(file: Bytes): seq<Record> {
    match ScanFile(file, 0)
    case Entries(entries) => seq(|entries|, i requires 0 <= i < |entries| => entries[i].1)
    case Unreadable => []
  }

  ghost predicate StartsOversized(tail: Bytes, r: Record) {
    !Fits(r) && |EncodeRecord(r)| <= U32_MAX && EncodeFrame(r) <= tail
  }

  ghost predicate TornFrom(tail: Bytes, r: Record) {
    Fits(r) && |tail| < |EncodeFrame(r)| && tail == EncodeFrame(r)[..|tail|]
  }

  /** What a reader stops at: the end, a frame that was being written, or one it refuses. */
  ghost predicate Tail(tail: Bytes) {
    tail == [] || (exists r :: TornFrom(tail, r)) || exists r :: StartsOversized(tail, r)
  }

  ghost predicate Holds(file: Bytes, log: seq<Record>) {
    AllFit(log) && EncodeAll(log) <= file && Tail(file[|EncodeAll(log)|..])
  }

  /** Whole frames, then something the reader stops at. */
  ghost predicate Stops(file: Bytes, log: seq<Record>) {
    AllFit(log) && EncodeAll(log) <= file && ReadFrameAt(file, |EncodeAll(log)|) == None
  }

  function OffsetOf(log: seq<Record>, i: nat): nat
    requires i <= |log|
  {
    |EncodeAll(log[..i])|
  }

  lemma FitsMeans(r: Record)
    requires Fits(r)
    ensures |EncodeRecord(r)| <= MAX_RECORD_LEN
    ensures |r.key| <= U64_MAX && (r.Put? ==> |r.value| <= U64_MAX)
  {}

  lemma TailIsNothing(file: Bytes, log: seq<Record>)
    requires Holds(file, log)
    ensures ReadFrameAt(file, |EncodeAll(log)|) == None
  {
    hide EncodeFrame, EncodeRecord;
    var whole := EncodeAll(log);
    var tail := file[|whole|..];
    assert file == whole + tail;
    if r :| TornFrom(tail, r) {
      CutFrameIsNothing(whole, r, |tail|);
    } else if r :| StartsOversized(tail, r) {
      var rest := tail[|EncodeFrame(r)|..];
      assert file == whole + EncodeFrame(r) + rest;
      FrameReadsBack(whole, r, rest);
    } else {
      assert tail == [];
    }
  }

  lemma Around<T>(s: seq<T>, i: nat)
    requires i < |s|
    ensures s[..i + 1] == s[..i] + [s[i]] && s == s[..i + 1] + s[i + 1..]
  {}

  /** A log around its `i`-th record. */
  lemma EncodeAllAround(log: seq<Record>, i: nat)
    requires i < |log|
    ensures EncodeAll(log[..i + 1]) == EncodeAll(log[..i]) + EncodeFrame(log[i])
    ensures EncodeAll(log) == (EncodeAll(log[..i]) + EncodeFrame(log[i])) + EncodeAll(log[i + 1..])
  {
    hide EncodeAll, EncodeFrame;
    Around(log, i);
    EncodeAllSnoc(log[..i], log[i]);
    EncodeAllConcat(log[..i + 1], log[i + 1..]);
  }

  lemma ReadAt(file: Bytes, log: seq<Record>, i: nat)
    requires AllFit(log) && EncodeAll(log) <= file && i < |log|
    ensures ReadFrameAt(file, OffsetOf(log, i)) == Some(EncodeRecord(log[i]))
    ensures OffsetOf(log, i + 1) == OffsetOf(log, i) + FRAME_HEAD + |EncodeRecord(log[i])|
  {
    hide ReadFrameAt, EncodeAll, EncodeRecord, EncodeFrame;
    EncodeAllAround(log, i);
    FitsMeans(log[i]);
    var rest, torn := EncodeAll(log[i + 1..]), file[|EncodeAll(log)|..];
    var front := EncodeAll(log[..i]) + EncodeFrame(log[i]);
    ConcatAssoc(front, rest, torn);
    assert file == front + (rest + torn);
    FrameReadsBack(EncodeAll(log[..i]), log[i], rest + torn);
  }

  /** Such a file scans to exactly the records of the whole frames. */
  lemma {:induction false} ScanHolds(file: Bytes, log: seq<Record>, i: nat)
    requires Stops(file, log) && i <= |log|
    ensures ScanFile(file, OffsetOf(log, i)) == Entries(seq(|log| - i, k requires 0 <= k < |log| - i =>
        (OffsetOf(log, i + k), log[i + k])))
    decreases |log| - i
  {
    hide ReadFrameAt, DecodeRecord, EncodeFrame, EncodeRecord, Fits;
    var at := OffsetOf(log, i);
    if i == |log| {
      assert log[..i] == log;
    } else {
      ReadAt(file, log, i);
      ScanHolds(file, log, i + 1);
      RecordRoundTrip(log[i]) by { FitsMeans(log[i]); }
      var rest := seq(|log| - (i + 1), k requires 0 <= k < |log| - (i + 1) =>
          (OffsetOf(log, i + 1 + k), log[i + 1 + k]));
      assert seq(|log| - i, k requires 0 <= k < |log| - i => (OffsetOf(log, i + k), log[i + k])) ==
          [(at, log[i])] + rest;
    }
  }

  lemma LogOfStops(file: Bytes, log: seq<Record>)
    requires Stops(file, log)
    ensures LogOf(file) == log && ScanFile(file, 0).Entries?
  {
    assert OffsetOf(log, 0) == 0 by { assert log[..0] == []; }
    ScanHolds(file, log, 0);
  }

  lemma LogOfHolds(file: Bytes, log: seq<Record>)
    requires Holds(file, log)
    ensures LogOf(file) == log && ScanFile(file, 0).Entries?
  {
    hide EncodeAll, ReadFrameAt, EncodeFrame, ScanFile, LogOf, Fits;
    TailIsNothing(file, log);
    LogOfStops(file, log);
  }

  // ------------------------------------------------------------------- damage

  /** How many records lie wholly within the first `c` bytes. */
  function WholeWithin(log: seq<Record>, c: nat): (k: nat)
    ensures k <= |log|
  {
    if log == [] then 0
    else if |EncodeAll(log)| <= c then |log|
    else WholeWithin(log[..|log| - 1], c)
  }

  lemma {:induction false} EncodedPrefixes(log: seq<Record>, i: nat, j: nat)
    requires i <= j <= |log|
    ensures EncodeAll(log[..i]) <= EncodeAll(log[..j])
  {
    assert log[..j] == log[..i] + log[i..j];
    EncodeAllConcat(log[..i], log[i..j]);
  }

  /** `WholeWithin` is the longest prefix whose frames all survive. */
  lemma {:induction false} WholeWithinIsLongest(log: seq<Record>, c: nat)
    ensures |EncodeAll(log[..WholeWithin(log, c)])| <= c
    ensures WholeWithin(log, c) < |log| ==> c < |EncodeAll(log[..WholeWithin(log, c) + 1])|
    decreases |log|
  {
    EncodeAllNone();
    hide EncodeAll;
    var k := WholeWithin(log, c);
    assert log[..|log|] == log;
    if log != [] && |EncodeAll(log)| > c {
      var front := log[..|log| - 1];
      WholeWithinIsLongest(front, c);
      assert k == WholeWithin(front, c) && front[..k] == log[..k];
      if k < |front| { assert front[..k + 1] == log[..k + 1]; }
    }
  }

  lemma AllWithin(log: seq<Record>, c: nat)
    requires |EncodeAll(log)| <= c
    ensures WholeWithin(log, c) == |log|
  {
    hide EncodeAll;
  }

  lemma NotAllWithin(log: seq<Record>, c: nat)
    requires log != [] && |EncodeAll(log)| > c
    ensures WholeWithin(log, c) == WholeWithin(log[..|log| - 1], c)
  {
    hide EncodeAll;
  }

  lemma LastFrame(log: seq<Record>)
    requires log != []
    ensures |EncodeAll(log[..|log| - 1])| < |EncodeAll(log)|
  {
    hide EncodeRecord;
  }

  lemma {:induction false} NothingLeft(log: seq<Record>)
    ensures WholeWithin(log, 0) == 0
  {
    if log != [] {
      LastFrame(log);
      hide EncodeAll;
      NothingLeft(log[..|log| - 1]);
    }
  }

  /** A cut in the last byte costs the last record. */
  lemma OneByteShort(log: seq<Record>)
    requires log != []
    ensures |EncodeAll(log)| > 0 && WholeWithin(log, |EncodeAll(log)| - 1) == |log| - 1
    ensures WholeWithin(log, |EncodeAll(log)|) == |log|
  {
    hide EncodeAll, WholeWithin;
    LastFrame(log);
    NotAllWithin(log, |EncodeAll(log)| - 1);
    AllWithin(log, |EncodeAll(log)|);
    AllWithin(log[..|log| - 1], |EncodeAll(log)| - 1);
  }

  /** A cut leaves whole frames and the beginning of one. */
  lemma {:induction false} CutHolds(log: seq<Record>, c: nat)
    requires AllFit(log) && c <= |EncodeAll(log)|
    ensures Holds(EncodeAll(log)[..c], log[..WholeWithin(log, c)])
  {
    hide EncodeFrame, EncodeRecord, Fits;
    var k := WholeWithin(log, c);
    WholeWithinIsLongest(log, c);
    var whole, cut := EncodeAll(log[..k]), EncodeAll(log)[..c];
    EncodedPrefixes(log, k, |log|);
    assert log[..|log|] == log;
    assert whole <= cut;
    if k < |log| {
      EncodedPrefixes(log, k + 1, |log|);
      assert log[..k + 1][..k] == log[..k];
      var tail := cut[|whole|..];
      assert EncodeAll(log[..k + 1]) == whole + EncodeFrame(log[k]);
      assert tail == EncodeFrame(log[k])[..|tail|];
      assert TornFrom(tail, log[k]);
    }
  }

  /** So a cut file holds exactly the records whose frames it has whole. */
  lemma CutKeepsWholeFrames(log: seq<Record>, c: nat)
    requires AllFit(log) && c <= |EncodeAll(log)|
    ensures LogOf(EncodeAll(log)[..c]) == log[..WholeWithin(log, c)]
  {
    CutHolds(log, c);
    LogOfHolds(EncodeAll(log)[..c], log[..WholeWithin(log, c)]);
  }

  /** A record beyond the limit ends its file for every reader: it is lost, with
      whatever is written after it. */
  lemma OversizedEndsTheFile(log: seq<Record>, r: Record, rest: Bytes)
    requires AllFit(log) && !Fits(r) && |EncodeRecord(r)| <= U32_MAX
    ensures LogOf(EncodeAll(log) + (EncodeFrame(r) + rest)) == log
  {
    hide EncodeAll, EncodeFrame, EncodeRecord, Fits, LogOf;
    var tail := EncodeFrame(r) + rest;
    assert (EncodeAll(log) + tail)[|EncodeAll(log)|..] == tail;
    assert StartsOversized(tail, r);
    LogOfHolds(EncodeAll(log) + tail, log);
  }

  /** Four consecutive bytes of a body, or the checksum before it. */
  predicate InBodyOrSum(at: nat, offset: nat, len: nat) {
    at == offset + 4 || offset + FRAME_HEAD <= at <= at + 4 <= offset + FRAME_HEAD + len
  }

  lemma SameLength(file: Bytes, damaged: Bytes, offset: nat, body: Bytes, other: Bytes)
    requires |body| <= MAX_RECORD_LEN && |other| <= MAX_RECORD_LEN && |damaged| == |file|
    requires offset + FRAME_HEAD + |body| <= |file| && file[offset..offset + FRAME_HEAD + |body|] == FrameOf(body)
    requires offset + FRAME_HEAD + |other| <= |file| && damaged[offset..offset + FRAME_HEAD + |other|] == FrameOf(other)
    requires forall i :: offset <= i < offset + 4 ==> file[i] == damaged[i]
    ensures |body| == |other|
  {
    hide Crc32.Checksum, Crc32.LittleEndian, LittleEndian;
    assert file[offset..offset + 4] == FrameOf(body)[..4] == LittleEndian(|body|);
    assert damaged[offset..offset + 4] == FrameOf(other)[..4] == LittleEndian(|other|);
    assert file[offset..offset + 4] == damaged[offset..offset + 4];
    LengthRoundTrip(|body|);
    LengthRoundTrip(|other|);
  }

  lemma EqualAround(a: Bytes, b: Bytes, from: nat, until: nat, at: nat)
    requires Crc32.BurstAt(a, b, at) && from <= at <= at + 4 <= until <= |a| && a[from..until] == b[from..until]
    ensures b == a
  {
    forall i | 0 <= i < |a| ensures a[i] == b[i] {
      if from <= i < until { assert a[i] == a[from..until][i - from] == b[from..until][i - from]; }
    }
  }

  /** If both are read they are the same file. */
  lemma BothRead(file: Bytes, offset: nat, body: Bytes, damaged: Bytes, other: Bytes, at: nat)
    requires ReadFrameAt(file, offset) == Some(body) && ReadFrameAt(damaged, offset) == Some(other)
    requires Crc32.BurstAt(file, damaged, at) && InBodyOrSum(at, offset, |body|)
    ensures damaged == file
  {
    hide ReadFrameAt, Crc32.Checksum, Crc32.LittleEndian, LittleEndian;
    ReadsIff(file, offset, body);
    ReadsIff(damaged, offset, other);
    SameLength(file, damaged, offset, body, other);
    var end := offset + FRAME_HEAD + |body|;
    var f, g := file[offset..end], damaged[offset..end];
    var p, q := Crc32.LittleEndian(Crc32.Checksum(body)), Crc32.LittleEndian(Crc32.Checksum(other));
    assert forall k :: 0 <= k < |f| && !(at <= offset + k < at + 4) ==>
        f[k] == file[offset + k] == damaged[offset + k] == g[k];
    assert f[FRAME_HEAD..] == body && g[FRAME_HEAD..] == other && f[4..FRAME_HEAD] == p && g[4..FRAME_HEAD] == q;
    if at == offset + 4 {
      assert body == other;
    } else {
      assert p == q;
      Crc32.LittleEndianRoundTrip(Crc32.Checksum(body));
      Crc32.LittleEndianRoundTrip(Crc32.Checksum(other));
      if body != other { Crc32.BurstIsDetected(body, other, at - (offset + FRAME_HEAD)); }
    }
    assert f == g;
    EqualAround(file, damaged, offset, end, at);
  }

  /** A frame whose body or checksum is damaged within four consecutive bytes is not read. */
  lemma DamagedFrameIsNothing(file: Bytes, offset: nat, body: Bytes, damaged: Bytes, at: nat)
    requires ReadFrameAt(file, offset) == Some(body)
    requires Crc32.BurstAt(file, damaged, at) && InBodyOrSum(at, offset, |body|) && damaged != file
    ensures ReadFrameAt(damaged, offset) == None
  {
    hide ReadFrameAt;
    if ReadFrameAt(damaged, offset).Some? {
      BothRead(file, offset, body, damaged, ReadFrameAt(damaged, offset).value, at);
    }
  }

  /** Damage in the body or the checksum of record `i` leaves exactly the records before it. */
  lemma DamageEndsTheFile(log: seq<Record>, i: nat, damaged: Bytes, at: nat)
    requires AllFit(log) && i < |log|
    requires Crc32.BurstAt(EncodeAll(log), damaged, at) && damaged != EncodeAll(log)
    requires InBodyOrSum(at, OffsetOf(log, i), |EncodeRecord(log[i])|)
    ensures LogOf(damaged) == log[..i] && ScanFile(damaged, 0).Entries?
  {
    hide EncodeFrame, EncodeRecord, Fits, ReadFrameAt, LogOf, ScanFile;
    var file, whole := EncodeAll(log), EncodeAll(log[..i]);
    ReadAt(file, log, i);
    EncodedPrefixes(log, i, |log|);
    assert log[..|log|] == log;
    hide EncodeAll;
    DamagedFrameIsNothing(file, OffsetOf(log, i), EncodeRecord(log[i]), damaged, at);
    assert whole == file[..|whole|] == damaged[..|whole|];
    LogOfStops(damaged, log[..i]);
  }

  lemma {:induction false} UnreadableFrom(log: seq<Record>, body: Bytes, rest: Bytes, i: nat)
    requires AllFit(log) && i <= |log| && |body| <= MAX_RECORD_LEN && DecodeRecord(body).Err?
    ensures ScanFile(EncodeAll(log) + (FrameOf(body) + rest), OffsetOf(log, i)) == Unreadable
    decreases |log| - i
  {
    hide ReadFrameAt, DecodeRecord, EncodeAll, EncodeFrame, EncodeRecord, Fits, FrameOf;
    var file, at := EncodeAll(log) + (FrameOf(body) + rest), OffsetOf(log, i);
    if i == |log| {
      assert log[..i] == log;
      var end := at + FRAME_HEAD + |body|;
      assert file[at..end] == FrameOf(body);
      ReadsIff(file, at, body);
    } else {
      ReadAt(file, log, i);
      UnreadableFrom(log, body, rest, i + 1);
      RecordRoundTrip(log[i]) by { FitsMeans(log[i]); }
    }
  }

  /** A good frame whose body is no record makes its file unreadable, whatever follows. */
  lemma BadBodyIsUnreadable(log: seq<Record>, body: Bytes, rest: Bytes)
    requires AllFit(log) && |body| <= MAX_RECORD_LEN && DecodeRecord(body).Err?
    ensures ScanFile(EncodeAll(log) + (FrameOf(body) + rest), 0) == Unreadable
  {
    assert OffsetOf(log, 0) == 0 by { assert log[..0] == []; }
    UnreadableFrom(log, body, rest, 0);
  }
}
