/**
 The incremental decoder: bytes arrive in arbitrary chunks, frames come out.

 `Step` is a machine that takes one byte at a time and is the reference;
 `FrameDecoder` is the decoder itself, which consumes whole runs of bytes.
 */
module Codec {
  import opened Wrappers
  import opened Frame
  import Crc32
  import Varint

  datatype Stage =
    | Seq(dec: Varint.Decoder)
    | Ack(dec: Varint.Decoder)
    | Len(dec: Varint.Decoder)
    | Payload(payload: Bytes, remaining: nat)
    | Crc(payload: Bytes, filled: Bytes)

  datatype Partial = Partial(cmd: Cmd, flags: byte, seqNo: u64, ack: u64, crc: bv32, stage: Stage)

  // ------------------------------------------------------- the byte machine

  /** Between frames with less than a header in hand, or inside a frame. */
  datatype Machine = Between(header: Bytes) | Inside(partial: Partial)

  datatype Next = Continue(machine: Machine) | Emit(frame: Frame) | Fail(error: ProtocolError)

  const IDLE := Between([])

  function TwoBytes(high: nat, low: nat): nat {
    high * 256 + low
  }

  /** Check the five header bytes and open a frame. */
  function ParseHeader(h: Bytes): Result<Partial, ProtocolError>
    requires |h| == HEADER_LEN
  {
    var magic := TwoBytes(h[0], h[1]);
    if magic != MAGIC then Err(BadMagic(magic))
    else if h[2] != VERSION then Err(UnsupportedVersion(h[2]))
    else
      match TryFrom(h[3])
      case Err(e) => Err(e)
      case Ok(cmd) => Ok(Partial(cmd, h[4], 0, 0, Crc32.Divide(Crc32.ONES, h), Seq(Varint.START)))
  }

  function StepHeader(header: Bytes, b: byte): Next {
    var h := header + [b];
    if |h| != HEADER_LEN then Continue(Between(h))
    else match ParseHeader(h) case Err(e) => Fail(e) case Ok(p) => Continue(Inside(p))
  }

  /** What a finished varint does to the frame under way. */
  function FinishField(max: nat, p: Partial, v: u64): Result<Partial, ProtocolError>
    requires p.stage.Seq? || p.stage.Ack? || p.stage.Len?
  {
    match p.stage
    case Seq(_) => Ok(p.(seqNo := v, stage := Ack(Varint.START)))
    case Ack(_) => Ok(p.(ack := v, stage := Len(Varint.START)))
    case Len(_) => if v > max then Err(FrameTooLarge(v, max)) else Ok(p.(stage := Payload([], v)))
  }

  function WithDecoder(p: Partial, d: Varint.Decoder): Partial
    requires p.stage.Seq? || p.stage.Ack? || p.stage.Len?
  {
    p.(stage := match p.stage case Seq(_) => Seq(d) case Ack(_) => Ack(d) case Len(_) => Len(d))
  }

  function StepField(max: nat, p: Partial, b: byte): Next
    requires p.stage.Seq? || p.stage.Ack? || p.stage.Len?
  {
    var q := p.(crc := Crc32.DivideByte(p.crc, b));
    match Varint.PushByte(p.stage.dec, b)
    case TooLong => Fail(VarintTooLong)
    case More(d) => Continue(Inside(WithDecoder(q, d)))
    case Done(v) => match FinishField(max, q, v) case Err(e) => Fail(e) case Ok(r) => Continue(Inside(r))
  }

  /** The frame is complete when its four checksum bytes are in and right. */
  function Finish(p: Partial, payload: Bytes, filled: Bytes): Next
    requires |filled| == CRC_LEN
  {
    var got, expected := Crc32.FromBigEndian(filled), Crc32.Xor(p.crc, Crc32.ONES);
    if got != expected then Fail(CrcMismatch(expected, got))
    else Emit(Frame(p.cmd, p.flags, p.seqNo, p.ack, payload))
  }

  function StepCrc(p: Partial, payload: Bytes, filled: Bytes, b: byte): Next {
    if |filled + [b]| != CRC_LEN then Continue(Inside(p.(stage := Crc(payload, filled + [b]))))
    else Finish(p, payload, filled + [b])
  }

  function Step(max: nat, m: Machine, b: byte): Next {
    match m
    case Between(header) => StepHeader(header, b)
    case Inside(p) =>
      match p.stage
      case Payload(payload, remaining) =>
        if remaining == 0 then StepCrc(p, payload, [], b)
        else
          var q := p.(crc := Crc32.DivideByte(p.crc, b));
          Continue(Inside(q.(stage := if remaining == 1 then Crc(payload + [b], [])
              else Payload(payload + [b], remaining - 1))))
      case Crc(payload, filled) => StepCrc(p, payload, filled, b)
      case _ => StepField(max, p, b)
  }

  datatype Fed = Fed(frames: seq<Frame>, machine: Machine) | Failed(error: ProtocolError)

  function Prepend(frames: seq<Frame>, r: Fed): Fed {
    match r
    case Failed(_) => r
    case Fed(more, m) => Fed(frames + more, m)
  }

  /** The frames completed by a byte string, and where it leaves the machine. */
  function Feed(max: nat, m: Machine, bytes: Bytes): Fed
    decreases |bytes|
  {
    if bytes == [] then Fed([], m)
    else
      match Step(max, m, bytes[0])
      case Fail(e) => Failed(e)
      case Continue(next) => Feed(max, next, bytes[1..])
      case Emit(frame) => Prepend([frame], Feed(max, IDLE, bytes[1..]))
  }

  /** A failure is final; otherwise go on from where the first part ended. */
  function Then(max: nat, r: Fed, bytes: Bytes): Fed {
    match r
    case Failed(_) => r
    case Fed(frames, m) => Prepend(frames, Feed(max, m, bytes))
  }

  lemma PrependTwice(a: seq<Frame>, b: seq<Frame>, r: Fed)
    ensures Prepend(a, Prepend(b, r)) == Prepend(a + b, r)
  {
    if r.Fed? { assert a + (b + r.frames) == (a + b) + r.frames; }
  }

  lemma PrependNone(r: Fed)
    ensures Prepend([], r) == r
  {
    if r.Fed? { assert [] + r.frames == r.frames; }
  }

  lemma {:induction false} FeedConcat(max: nat, m: Machine, a: Bytes, b: Bytes)
    ensures Feed(max, m, a + b) == Then(max, Feed(max, m, a), b)
    decreases |a|
  {
    hide Step;
    if a == [] {
      assert a + b == b;
      PrependNone(Feed(max, m, b));
    } else {
      assert (a + b)[0] == a[0] && (a + b)[1..] == a[1..] + b;
      match Step(max, m, a[0])
      case Fail(_) =>
      case Continue(next) => FeedConcat(max, next, a[1..], b);
      case Emit(frame) =>
        FeedConcat(max, IDLE, a[1..], b);
        var r := Feed(max, IDLE, a[1..]);
        if r.Fed? { PrependTwice([frame], r.frames, Feed(max, r.machine, b)); }
    }
  }

  function Flatten(chunks: seq<Bytes>): Bytes {
    if chunks == [] then [] else Flatten(chunks[..|chunks| - 1]) + chunks[|chunks| - 1]
  }

  /** One call per chunk, stopping at the first failure. */
  function FeedChunks(max: nat, m: Machine, chunks: seq<Bytes>): Fed {
    if chunks == [] then Fed([], m)
    else Then(max, FeedChunks(max, m, chunks[..|chunks| - 1]), chunks[|chunks| - 1])
  }

  /** Decoding does not depend on how the stream is cut into chunks: same
      frames, same final state, same error. */
  lemma {:induction false} ChunkingIsInvisible(max: nat, m: Machine, chunks: seq<Bytes>)
    ensures FeedChunks(max, m, chunks) == Feed(max, m, Flatten(chunks))
  {
    hide Step;
    if chunks != [] {
      ChunkingIsInvisible(max, m, chunks[..|chunks| - 1]);
      FeedConcat(max, m, Flatten(chunks[..|chunks| - 1]), chunks[|chunks| - 1]);
    }
  }

  // ----------------------------------------------------- whole runs of bytes

  /** The machine run until it completes one frame, fails or starves. */
  datatype One = Starved(machine: Machine) | Complete(frame: Frame, rest: Bytes) | Broken(error: ProtocolError)

  function RunOne(max: nat, m: Machine, bytes: Bytes): One
    decreases |bytes|
  {
    if bytes == [] then Starved(m)
    else
      match Step(max, m, bytes[0])
      case Fail(e) => Broken(e)
      case Continue(next) => RunOne(max, next, bytes[1..])
      case Emit(frame) => Complete(frame, bytes[1..])
  }

  /** Run on from the frame a parsing step leaves, or stop at its error. */
  function GoOn(max: nat, r: Result<Partial, ProtocolError>, rest: Bytes): One {
    match r
    case Err(e) => Broken(e)
    case Ok(p) => RunOne(max, Inside(p), rest)
  }

  lemma {:induction false} FeedViaRunOne(max: nat, m: Machine, bytes: Bytes)
    ensures Feed(max, m, bytes) == match RunOne(max, m, bytes)
                                   case Starved(n) => Fed([], n)
                                   case Broken(e) => Failed(e)
                                   case Complete(f, rest) => Prepend([f], Feed(max, IDLE, rest))
    ensures RunOne(max, m, bytes).Complete? ==> |RunOne(max, m, bytes).rest| < |bytes|
    decreases |bytes|
  {
    hide Step;
    if bytes != [] && Step(max, m, bytes[0]).Continue? {
      FeedViaRunOne(max, Step(max, m, bytes[0]).machine, bytes[1..]);
    }
  }

  lemma {:induction false} RunOneHeader(max: nat, h: Bytes, bytes: Bytes)
    requires |h| < HEADER_LEN
    ensures RunOne(max, Between(h), bytes) ==
            if |h + bytes| < HEADER_LEN then Starved(Between(h + bytes))
            else GoOn(max, ParseHeader((h + bytes)[..HEADER_LEN]), (h + bytes)[HEADER_LEN..])
    decreases |bytes|
  {
    hide ParseHeader;
    if bytes == [] {
      assert h + bytes == h;
    } else {
      var g := h + [bytes[0]];
      assert g + bytes[1..] == h + bytes;
      if |g| == HEADER_LEN {
        assert (h + bytes)[..HEADER_LEN] == g && (h + bytes)[HEADER_LEN..] == bytes[1..];
      } else {
        RunOneHeader(max, g, bytes[1..]);
      }
    }
  }

  datatype VarScan = VarDone(value: u64, used: nat) | VarStarved(dec: Varint.Decoder) | VarTooLong

  /** A varint read from the front of `bytes`. */
  function ScanVar(d: Varint.Decoder, bytes: Bytes): (r: VarScan)
    ensures r.VarDone? ==> 1 <= r.used <= |bytes|
    decreases |bytes|
  {
    if bytes == [] then VarStarved(d)
    else
      match Varint.PushByte(d, bytes[0])
      case Done(v) => VarDone(v, 1)
      case TooLong => VarTooLong
      case More(next) => match ScanVar(next, bytes[1..]) case VarDone(v, n) => VarDone(v, n + 1) case r => r
  }

  lemma DivideCons(c: bv32, bytes: Bytes, k: nat)
    requires 1 <= k <= |bytes|
    ensures Crc32.Divide(c, bytes[..k]) == Crc32.Divide(Crc32.DivideByte(c, bytes[0]), bytes[1..][..k - 1])
  {
    assert bytes[..k] == [bytes[0]] + bytes[1..][..k - 1];
    Crc32.DivideConcat(c, [bytes[0]], bytes[1..][..k - 1]);
    hide Crc32.DivideByte;
    assert Crc32.Divide(c, []) == c;
    assert [bytes[0]][..0] == [];
    assert Crc32.Divide(c, [bytes[0]]) == Crc32.DivideByte(c, bytes[0]);
  }

  predicate InField(p: Partial) {
    p.stage.Seq? || p.stage.Ack? || p.stage.Len?
  }

  /** What a varint stage makes of the rest of the buffer, once its varint is scanned. */
  function AfterScan(max: nat, p: Partial, scan: VarScan, bytes: Bytes): One
    requires InField(p) && (scan.VarDone? ==> scan.used <= |bytes|)
  {
    match scan
    case VarTooLong => Broken(VarintTooLong)
    case VarStarved(d) => Starved(Inside(WithDecoder(p.(crc := Crc32.Divide(p.crc, bytes)), d)))
    case VarDone(v, k) => GoOn(max, FinishField(max, p.(crc := Crc32.Divide(p.crc, bytes[..k])), v), bytes[k..])
  }

  lemma FinishIgnoresDecoder(max: nat, p: Partial, d: Varint.Decoder, v: u64)
    requires InField(p)
    ensures FinishField(max, WithDecoder(p, d), v) == FinishField(max, p, v)
  {}

  /** Scanning one byte more changes nothing but the count. */
  lemma AfterScanMore(max: nat, p: Partial, d: Varint.Decoder, bytes: Bytes)
    requires InField(p) && bytes != [] && Varint.PushByte(p.stage.dec, bytes[0]) == Varint.More(d)
    ensures var q := WithDecoder(p.(crc := Crc32.DivideByte(p.crc, bytes[0])), d);
            AfterScan(max, q, ScanVar(d, bytes[1..]), bytes[1..]) == AfterScan(max, p,
                ScanVar(p.stage.dec, bytes), bytes)
  {
    hide Crc32.Divide, Crc32.DivideByte, Varint.PushByte, FinishField, GoOn;
    match ScanVar(d, bytes[1..])
    case VarTooLong =>
    case VarStarved(_) =>
      DivideCons(p.crc, bytes, |bytes|);
      assert bytes[..|bytes|] == bytes && bytes[1..][..|bytes| - 1] == bytes[1..];
    case VarDone(v, k) =>
      DivideCons(p.crc, bytes, k + 1);
      FinishIgnoresDecoder(max, p.(crc := Crc32.Divide(p.crc, bytes[..k + 1])), d, v);
      assert bytes[1..][k..] == bytes[k + 1..];
  }

  lemma DivideNone(c: bv32)
    ensures Crc32.Divide(c, []) == c
  {}

  /** A varint stage consumes exactly its varint. */
  lemma {:induction false} RunOneField(max: nat, p: Partial, bytes: Bytes)
    requires InField(p)
    ensures RunOne(max, Inside(p), bytes) == AfterScan(max, p, ScanVar(p.stage.dec, bytes), bytes)
    decreases |bytes|
  {
    hide Crc32.Divide, Crc32.DivideByte, Varint.PushByte, FinishField;
    if bytes == [] {
      assert Crc32.Divide(p.crc, bytes) == p.crc by { DivideNone(p.crc); }
    } else {
      var q := p.(crc := Crc32.DivideByte(p.crc, bytes[0]));
      match Varint.PushByte(p.stage.dec, bytes[0])
      case TooLong =>
      case Done(_) =>
        DivideCons(p.crc, bytes, 1);
        DivideNone(q.crc);
        assert bytes[1..][..0] == [];
      case More(d) =>
        RunOneField(max, WithDecoder(q, d), bytes[1..]);
        hide AfterScan;
        AfterScanMore(max, p, d, bytes);
    }
  }

  function TakePayload(p: Partial, chunk: Bytes): Partial
    requires p.stage.Payload? && |chunk| <= p.stage.remaining
  {
    p.(crc := Crc32.Divide(p.crc, chunk),
       stage := if |chunk| == p.stage.remaining then Crc(p.stage.payload + chunk, [])
                else Payload(p.stage.payload + chunk, p.stage.remaining - |chunk|))
  }

  lemma StepCrcIgnoresStage(p: Partial, stage: Stage, payload: Bytes, filled: Bytes, b: byte)
    ensures StepCrc(p.(stage := stage), payload, filled, b) == StepCrc(p, payload, filled, b)
  {}

  /** A run of payload bytes goes in at once. */
  lemma {:induction false} RunOnePayload(max: nat, p: Partial, bytes: Bytes, k: nat)
    requires p.stage.Payload? && k <= p.stage.remaining && k <= |bytes|
    requires p.stage.remaining == 0 ==> bytes != []
    ensures RunOne(max, Inside(p), bytes) == RunOne(max, Inside(TakePayload(p, bytes[..k])), bytes[k..])
    decreases k
  {
    hide Crc32.Divide, Crc32.DivideByte, StepCrc;
    if k == 0 {
      DivideNone(p.crc);
      assert bytes[..0] == [] && bytes[0..] == bytes && p.stage.payload + [] == p.stage.payload;
      if p.stage.remaining == 0 {
        StepCrcIgnoresStage(p, Crc(p.stage.payload, []), p.stage.payload, [], bytes[0]);
      } else {
        assert TakePayload(p, []) == p;
      }
    } else {
      var q := TakePayload(p, bytes[..1]);
      DivideCons(p.crc, bytes, 1);
      DivideNone(Crc32.DivideByte(p.crc, bytes[0]));
      assert bytes[..1] == [bytes[0]] && bytes[1..][..0] == [];
      assert Step(max, Inside(p), bytes[0]) == Continue(Inside(q));
      if k > 1 {
        RunOnePayload(max, q, bytes[1..], k - 1);
        DivideCons(p.crc, bytes, k);
        assert bytes[1..][k - 1..] == bytes[k..];
        assert p.stage.payload + bytes[..k] == (p.stage.payload + bytes[..1]) + bytes[1..][..k - 1];
      }
    }
  }

  lemma FinishDecides(p: Partial, payload: Bytes, filled: Bytes)
    requires |filled| == CRC_LEN
    ensures !Finish(p, payload, filled).Continue?
  {}

  lemma FinishIgnoresStage(p: Partial, stage: Stage, payload: Bytes, filled: Bytes)
    requires |filled| <= CRC_LEN
    ensures |filled| == CRC_LEN ==> Finish(p.(stage := stage), payload, filled) == Finish(p, payload, filled)
  {}

  /** The last four bytes close the frame. */
  lemma {:induction false} RunOneCrc(max: nat, p: Partial, bytes: Bytes, k: nat)
    requires p.stage.Crc? && |p.stage.filled| < CRC_LEN && 1 <= k <= |bytes| && |p.stage.filled| + k <= CRC_LEN
    ensures var filled := p.stage.filled + bytes[..k];
            RunOne(max, Inside(p), bytes) ==
            if |filled| < CRC_LEN then RunOne(max, Inside(p.(stage := Crc(p.stage.payload, filled))), bytes[k..])
            else match Finish(p, p.stage.payload, filled)
                 case Fail(e) => Broken(e)
                 case Emit(f) => Complete(f, bytes[k..])
                 case Continue(_) => Starved(IDLE)
    decreases k
  {
    hide Finish;
    var filled := p.stage.filled + [bytes[0]];
    assert bytes[..1] == [bytes[0]];
    assert Step(max, Inside(p), bytes[0]) == StepCrc(p, p.stage.payload, p.stage.filled, bytes[0]);
    if |filled| == CRC_LEN {
      FinishDecides(p, p.stage.payload, filled);
    } else if k > 1 {
      RunOneCrc(max, p.(stage := Crc(p.stage.payload, filled)), bytes[1..], k - 1);
      assert filled + bytes[1..][..k - 1] == p.stage.filled + bytes[..k];
      assert bytes[1..][k - 1..] == bytes[k..];
      FinishIgnoresStage(p, Crc(p.stage.payload, filled), p.stage.payload, p.stage.filled + bytes[..k]);
    }
  }

  // --------------------------------------------------------- the real decoder

  predicate StageOk(p: Partial) {
    p.stage.Crc? ==> |p.stage.filled| < CRC_LEN
  }

  function Rank(stage: Stage): nat {
    match stage
    case Seq(_) => 4
    case Ack(_) => 3
    case Len(_) => 2
    case Payload(_, _) => 1
    case Crc(_, _) => 0
  }

  lemma RunOneNothing(max: nat, m: Machine)
    ensures RunOne(max, m, []) == Starved(m)
  {}

  /** A short header waiting in the buffer has been fed already. */
  lemma BufferedFeed(max: nat, m: Machine, held: Bytes, chunk: Bytes)
    requires |held| < HEADER_LEN && (m == IDLE || held == [])
    ensures Prepend([], Feed(max, m, held + chunk)) == Feed(max, if m == IDLE then Between(held) else m, chunk)
  {
    hide RunOne, Step;
    if m == IDLE {
      RunOneHeader(max, [], held);
      assert [] + held == held;
      FeedViaRunOne(max, m, held);
      FeedConcat(max, m, held, chunk);
    } else {
      assert held + chunk == chunk;
    }
    PrependNone(Feed(max, m, held + chunk));
    PrependNone(Feed(max, Between(held), chunk));
  }

  class FrameDecoder {
    const maxFrameLen: nat
    const table: seq<bv32>
    var buf: Bytes
    var current: Option<Partial>

    /** What holds between calls: less than a header waits, or a frame is under way. */
    ghost predicate Valid()
      reads this
    {
      && Crc32.IsTable(table)
      && (current.None? ==> |buf| < HEADER_LEN)
      && (current.Some? ==> buf == [] && StageOk(current.value))
    }

    /** The machine this decoder stands for between calls. */
    ghost function Abstract(): Machine
      reads this
    {
      if current.None? then Between(buf) else Inside(current.value)
    }

    constructor WithMaxFrameLen(maxFrameLen: nat, table: seq<bv32>)
      requires Crc32.IsTable(table)
      ensures Valid() && Abstract() == IDLE && this.maxFrameLen == maxFrameLen
    {
      this.maxFrameLen := maxFrameLen;
      this.table := table;
      buf, current := [], None;
    }

    /** Feed the varint decoder from the front of the buffer until it is done or the buffer is empty. */
    method FeedVarint(start: Varint.Decoder, crcBefore: bv32)
      returns (r: Result<Option<u64>, ProtocolError>, dec: Varint.Decoder, crc: bv32)
      requires Crc32.IsTable(table)
      modifies this`buf
      ensures match ScanVar(start, old(buf))
              case VarTooLong => r == Err(VarintTooLong)
              case VarStarved(d) => r == Ok(None) && dec == d && buf == [] && crc == Crc32.Divide(crcBefore, old(buf))
              case VarDone(v, k) =>
                r == Ok(Some(v)) && buf == old(buf)[k..] && crc == Crc32.Divide(crcBefore, old(buf)[..k])
    {
      hide Crc32.Divide, Varint.PushByte, Crc32.IsTable;
      dec, crc := start, crcBefore;
      var d := new Varint.VarIntDecoder();
      d.Resume(start);
      ghost var n := 0;
      DivideNone(crcBefore);
      assert old(buf)[..0] == [];
      while buf != []
        invariant n <= |old(buf)| && buf == old(buf)[n..] && dec == d.View()
        invariant crc == Crc32.Divide(crcBefore, old(buf)[..n])
        invariant ScanVar(start, old(buf)) == match ScanVar(dec, buf)
                                              case VarDone(v, k) => VarDone(v, k + n)
                                              case s => s
        decreases |buf|
      {
        var b := buf[0];
        buf := buf[1..];
        crc := Crc32.UpdateState(table, crc, [b]);
        assert old(buf)[..n + 1] == old(buf)[..n] + [b];
        Crc32.DivideConcat(crcBefore, old(buf)[..n], [b]);
        n := n + 1;
        var p := d.Push(b);
        match p
        case Done(v) => return Ok(Some(v)), dec, crc;
        case TooLong => return Err(VarintTooLong), dec, crc;
        case More(next) => dec := next;
      }
      assert old(buf)[..n] == old(buf);
      return Ok(None), dec, crc;
    }

    /** Advance the frame under way as far as the buffer allows. */
    method Advance(start: Partial) returns (r: Result<Option<Frame>, ProtocolError>, p: Partial)
      requires Crc32.IsTable(table) && StageOk(start)
      modifies this`buf
      ensures match RunOne(maxFrameLen, Inside(start), old(buf))
              case Broken(e) => r == Err(e)
              case Complete(f, rest) => r == Ok(Some(f)) && buf == rest
              case Starved(m) => r == Ok(None) && m == Inside(p) && buf == [] && StageOk(p)
    {
      hide Crc32.Divide, Crc32.IsTable, Crc32.FromBigEndian, Crc32.Xor, ScanVar, RunOne;
      p := start;
      while true
        invariant StageOk(p)
        invariant RunOne(maxFrameLen, Inside(p), buf) == RunOne(maxFrameLen, Inside(start), old(buf))
        decreases |buf|, Rank(p.stage)
      {
        match p.stage
        case Seq(d) =>
          RunOneField(maxFrameLen, p, buf);
          var v, dec, crc := FeedVarint(d, p.crc);
          if v.Err? { return Err(v.error), p; }
          p := p.(crc := crc);
          if v.value.None? { return Ok(None), p.(stage := Seq(dec)); }
          p := p.(seqNo := v.value.value, stage := Ack(Varint.START));
        case Ack(d) =>
          RunOneField(maxFrameLen, p, buf);
          var v, dec, crc := FeedVarint(d, p.crc);
          if v.Err? { return Err(v.error), p; }
          p := p.(crc := crc);
          if v.value.None? { return Ok(None), p.(stage := Ack(dec)); }
          p := p.(ack := v.value.value, stage := Len(Varint.START));
        case Len(d) =>
          RunOneField(maxFrameLen, p, buf);
          var v, dec, crc := FeedVarint(d, p.crc);
          if v.Err? { return Err(v.error), p; }
          p := p.(crc := crc);
          if v.value.None? { return Ok(None), p.(stage := Len(dec)); }
          if v.value.value > maxFrameLen { return Err(FrameTooLarge(v.value.value, maxFrameLen)), p; }
          p := p.(stage := Payload([], v.value.value));
        case Payload(payload, remaining) =>
          if buf == [] {
            RunOneNothing(maxFrameLen, Inside(p));
            return Ok(None), p;
          }
          var take := if remaining <= |buf| then remaining else |buf|;
          var chunk := buf[..take];
          RunOnePayload(maxFrameLen, p, buf, take);
          var crc := Crc32.UpdateState(table, p.crc, chunk);
          buf := buf[take..];
          p := p.(crc := crc, stage := if take == remaining then Crc(payload + chunk, [])
              else Payload(payload + chunk, remaining - take));
        case Crc(payload, filled) =>
          if buf == [] {
            RunOneNothing(maxFrameLen, Inside(p));
            return Ok(None), p;
          }
          var take := if CRC_LEN - |filled| <= |buf| then CRC_LEN - |filled| else |buf|;
          RunOneCrc(maxFrameLen, p, buf, take);
          var full := filled + buf[..take];
          buf := buf[take..];
          p := p.(stage := Crc(payload, full));
          if |full| < CRC_LEN {
            assert buf == [];
            RunOneNothing(maxFrameLen, Inside(p));
            return Ok(None), p;
          }
          var got := Crc32.FromBigEndian(full);
          var expected := Crc32.Xor(p.crc, Crc32.ONES);
          if got != expected { return Err(CrcMismatch(expected, got)), p; }
          return Ok(Some(Frame(p.cmd, p.flags, p.seqNo, p.ack, payload))), p;
      }
    }

    /** The machine to run on the whole buffer. */
    ghost function Pending(): Machine
      reads this
    {
      if current.None? then IDLE else Inside(current.value)
    }

    method NextFrame() returns (r: Result<Option<Frame>, ProtocolError>)
      requires Crc32.IsTable(table) && (current.Some? ==> StageOk(current.value))
      modifies this
      ensures match RunOne(maxFrameLen, old(Pending()), old(buf))
              case Broken(e) => r == Err(e)
              case Complete(f, rest) => r == Ok(Some(f)) && buf == rest && current == None
              case Starved(m) => r == Ok(None) && m == Abstract() && Valid()
    {
      hide Crc32.Divide, Crc32.IsTable, RunOne;
      if current.None? {
        RunOneHeader(maxFrameLen, [], buf);
        assert [] + buf == buf;
        if |buf| < HEADER_LEN { return Ok(None); }
        var header := buf[..HEADER_LEN];
        buf := buf[HEADER_LEN..];
        var magic := TwoBytes(header[0], header[1]);
        if magic != MAGIC { return Err(BadMagic(magic)); }
        if header[2] != VERSION { return Err(UnsupportedVersion(header[2])); }
        var cmd := TryFrom(header[3]);
        if cmd.Err? { return Err(cmd.error); }
        var crc := Crc32.UpdateState(table, Crc32.ONES, header);
        current := Some(Partial(cmd.value, header[4], 0, 0, crc, Seq(Varint.START)));
      }
      var done, partial := Advance(current.value);
      match done
      case Err(e) => return Err(e);
      case Ok(Some(f)) =>
        current := None;
        return Ok(Some(f));
      case Ok(None) =>
        current := Some(partial);
        return Ok(None);
    }

    /** Take in a chunk and return every frame it completes. */
    method Decode(chunk: Bytes) returns (r: Result<seq<Frame>, ProtocolError>)
      requires Valid()
      modifies this
      ensures match Feed(maxFrameLen, old(Abstract()), chunk)
              case Failed(e) => r == Err(e)
              case Fed(frames, m) => r == Ok(frames) && Abstract() == m && Valid()
    {
      hide Crc32.IsTable, Step;
      BufferedFeed(maxFrameLen, Pending(), buf, chunk);
      assert current.Some? ==> buf + chunk == chunk;
      buf := buf + chunk;
      var frames := [];
      while true
        invariant Crc32.IsTable(table) && (current.Some? ==> StageOk(current.value))
        invariant Prepend(frames, Feed(maxFrameLen, Pending(), buf)) == Feed(maxFrameLen, old(Abstract()), chunk)
        decreases |buf|
      {
        FeedViaRunOne(maxFrameLen, Pending(), buf);
        var next := NextFrame();
        match next
        case Err(e) => return Err(e);
        case Ok(None) =>
          assert frames + [] == frames;
          return Ok(frames);
        case Ok(Some(f)) =>
          PrependTwice(frames, [f], Feed(maxFrameLen, IDLE, buf));
          frames := frames + [f];
      }
    }
  }

  // ---------------------------------------------------- decoding what was encoded

  /** Both ways of scanning a varint find the same. */
  lemma {:induction false} ScanVarIsScan(d: Varint.Decoder, bytes: Bytes)
    ensures match Varint.Scan(d, bytes)
            case Some((v, n)) => ScanVar(d, bytes) == VarDone(v, n)
            case None => !ScanVar(d, bytes).VarDone?
    decreases |bytes|
  {
    hide Varint.PushByte;
    if bytes != [] && Varint.PushByte(d, bytes[0]).More? {
      ScanVarIsScan(Varint.PushByte(d, bytes[0]).next, bytes[1..]);
    }
  }

  /** More bytes than a varint may have, none of which ends it. */
  predicate Overlong(bytes: Bytes) {
    |bytes| > Varint.MAX_VARINT_LEN && forall i :: 0 <= i < Varint.MAX_VARINT_LEN ==> bytes[i] >= 128
  }

  lemma {:induction false} ScanVarStops(d: Varint.Decoder, bytes: Bytes)
    requires d.count <= Varint.MAX_VARINT_LEN
    ensures var left := Varint.MAX_VARINT_LEN - d.count;
            ScanVar(d, bytes).VarTooLong? <==> |bytes| > left && forall i :: 0 <= i < left ==> bytes[i] >= 128
    decreases |bytes|
  {
    hide Varint.Accumulate;
    if bytes != [] && Varint.PushByte(d, bytes[0]).More? {
      ScanVarStops(Varint.PushByte(d, bytes[0]).next, bytes[1..]);
      assert forall i :: 1 <= i < |bytes| ==> bytes[i] == bytes[1..][i - 1];
    }
  }

  /** A varint takes its stage to the next one, with the number it means. */
  lemma FieldDecodes(max: nat, p: Partial, b: Bytes, rest: Bytes)
    requires InField(p) && p.stage.dec == Varint.START && Varint.IsVarint(b)
    ensures RunOne(max, Inside(p), b + rest) ==
            GoOn(max, FinishField(max, p.(crc := Crc32.Divide(p.crc, b)), Varint.Meaning(b)), rest)
  {
    hide Crc32.Divide, Varint.Scan, Varint.Meaning, FinishField, RunOne;
    var wire := b + rest;
    Varint.VarintDecodes(b, rest);
    ScanVarIsScan(Varint.START, wire);
    RunOneField(max, p, wire);
    assert wire[..|b|] == b && wire[|b|..] == rest;
  }

  lemma HeaderDecodes(cmd: Cmd, flags: byte)
    ensures ParseHeader(FixedHeader(cmd, flags)) == Ok(Partial(cmd, flags, 0, 0, Crc32.Divide(Crc32.ONES,
        FixedHeader(cmd, flags)), Seq(Varint.START)))
  {
    hide Crc32.Divide;
    CommandBytes(ToByte(cmd), cmd);
  }

  ghost predicate AllVarints(vs: seq<Bytes>) {
    forall v :: v in vs ==> Varint.IsVarint(v)
  }

  /** The three varints, after a header whose checksum state is `p.crc`. */
  lemma VarintsDecode(max: nat, p: Partial, a: Bytes, b: Bytes, c: Bytes, rest: Bytes)
    requires Varint.IsVarint(a) && Varint.IsVarint(b) && Varint.IsVarint(c) && p.stage == Seq(Varint.START)
    ensures var len := Varint.Meaning(c);
            RunOne(max, Inside(p), a + b + c + rest) ==
            if len > max then Broken(FrameTooLarge(len, max))
            else RunOne(max, Inside(p.(seqNo := Varint.Meaning(a), ack := Varint.Meaning(b),
                                       crc := Crc32.Divide(p.crc, a + b + c), stage := Payload([], len))), rest)
  {
    hide Crc32.Divide, Varint.IsVarint, Varint.Meaning, RunOne;
    assert a + b + c + rest == a + (b + (c + rest));
    FieldDecodes(max, p, a, b + (c + rest));
    var p1 := p.(seqNo := Varint.Meaning(a), crc := Crc32.Divide(p.crc, a), stage := Ack(Varint.START));
    FieldDecodes(max, p1, b, c + rest);
    var p2 := p1.(ack := Varint.Meaning(b), crc := Crc32.Divide(p1.crc, b), stage := Len(Varint.START));
    FieldDecodes(max, p2, c, rest);
    Crc32.DivideConcat(p.crc, a, b);
    Crc32.DivideConcat(p.crc, a + b, c);
  }

  /** What the checksum of a frame covers, by its parts. */
  datatype Covered = Covered(header: Bytes, seqNo: Bytes, ack: Bytes, len: Bytes, payload: Bytes)

  function Written(w: Covered): Bytes {
    w.header + (w.seqNo + w.ack + w.len) + w.payload
  }

  /** These parts say `f`; the varints need not be the shortest. */
  predicate Says(w: Covered, f: Frame) {
    && w.header == Header(f) && w.payload == f.payload
    && Varint.IsVarint(w.seqNo) && Varint.Meaning(w.seqNo) == f.seqNo
    && Varint.IsVarint(w.ack) && Varint.Meaning(w.ack) == f.ack
    && Varint.IsVarint(w.len) && Varint.Meaning(w.len) == |f.payload|
  }

  /** The frame under way once the first fields and the payload length are in. */
  function AfterFields(w: Covered, f: Frame): Partial {
    Partial(f.cmd, f.flags, f.seqNo, f.ack, Crc32.Divide(Crc32.ONES, w.header + (w.seqNo + w.ack + w.len)),
        Payload([], |f.payload|))
  }

  lemma FieldsDecode(max: nat, w: Covered, f: Frame, rest: Bytes)
    requires Says(w, f)
    ensures RunOne(max, IDLE, w.header + (w.seqNo + w.ack + w.len) + rest) ==
            if |f.payload| > max then Broken(FrameTooLarge(|f.payload|, max))
            else RunOne(max, Inside(AfterFields(w, f)), rest)
  {
    hide Crc32.Divide, RunOne, FixedHeader, Varint.IsVarint, Varint.Meaning, ParseHeader;
    var h, fields := w.header, w.seqNo + w.ack + w.len;
    var wire := h + fields + rest;
    RunOneHeader(max, [], wire);
    assert [] + wire == wire && wire[..HEADER_LEN] == h && wire[HEADER_LEN..] == fields + rest;
    HeaderDecodes(f.cmd, f.flags);
    VarintsDecode(max, Partial(f.cmd, f.flags, 0, 0, Crc32.Divide(Crc32.ONES, h), Seq(Varint.START)), w.seqNo, w.ack,
        w.len, rest);
    Crc32.DivideConcat(Crc32.ONES, h, fields);
  }

  /** Payload and checksum. */
  lemma EndDecodes(max: nat, p: Partial, payload: Bytes, sum: Bytes, rest: Bytes)
    requires p.stage == Payload([], |payload|) && |sum| == CRC_LEN
    ensures var expected, got := Crc32.Xor(Crc32.Divide(p.crc, payload), Crc32.ONES), Crc32.FromBigEndian(sum);
            RunOne(max, Inside(p), payload + (sum + rest)) ==
            if got != expected then Broken(CrcMismatch(expected, got))
            else Complete(Frame(p.cmd, p.flags, p.seqNo, p.ack, payload), rest)
  {
    hide Crc32.Divide, Crc32.FromBigEndian, Crc32.Xor, RunOne;
    var tail := payload + (sum + rest);
    RunOnePayload(max, p, tail, |payload|);
    assert tail[..|payload|] == payload && tail[|payload|..] == sum + rest && [] + payload == payload;
    RunOneCrc(max, TakePayload(p, payload), sum + rest, CRC_LEN);
    assert (sum + rest)[..CRC_LEN] == sum && (sum + rest)[CRC_LEN..] == rest && [] + sum == sum;
  }

  /** Any frame on the wire with any four bytes after it: it is handed out exactly when
      its payload is within the limit and the four bytes are its checksum. */
  lemma WireDecodes(max: nat, w: Covered, f: Frame, sum: Bytes, rest: Bytes)
    requires Says(w, f) && |sum| == CRC_LEN
    ensures var expected, got := Crc32.Checksum(Written(w)), Crc32.FromBigEndian(sum);
            RunOne(max, IDLE, Written(w) + sum + rest) ==
            if |f.payload| > max then Broken(FrameTooLarge(|f.payload|, max))
            else if got != expected then Broken(CrcMismatch(expected, got))
            else Complete(f, rest)
  {
    hide Crc32.Divide, Crc32.FromBigEndian, Crc32.Xor, RunOne, Header, Varint.IsVarint, Varint.Meaning;
    var front := w.header + (w.seqNo + w.ack + w.len);
    assert Written(w) + sum + rest == front + (w.payload + (sum + rest));
    FieldsDecode(max, w, f, w.payload + (sum + rest));
    if |f.payload| <= max {
      EndDecodes(max, AfterFields(w, f), w.payload, sum, rest);
      Crc32.DivideConcat(Crc32.ONES, front, w.payload);
    }
  }

  function Shortest(f: Frame): Covered {
    Covered(Header(f), Varint.Encode(f.seqNo), Varint.Encode(f.ack), Varint.Encode(|f.payload|), f.payload)
  }

  lemma ShortestSays(f: Frame)
    requires |f.payload| <= U64_MAX
    ensures Says(Shortest(f), f) && Written(Shortest(f)) == Body(f)
  {
    hide Varint.Encode, Varint.IsVarint, Varint.Meaning, Header;
    Varint.EncodingIsVarint(f.seqNo);
    Varint.EncodingIsVarint(f.ack);
    Varint.EncodingIsVarint(|f.payload|);
  }

  /** One encoded frame, whatever follows it: decoded when its payload is within the limit, refused otherwise. */
  lemma FrameDecodes(max: nat, f: Frame, rest: Bytes)
    requires |f.payload| <= U64_MAX
    ensures RunOne(max, IDLE, Encode(f) + rest) ==
            if |f.payload| <= max then Complete(f, rest) else Broken(FrameTooLarge(|f.payload|, max))
  {
    hide Crc32.Checksum, Crc32.BigEndian, Crc32.FromBigEndian, RunOne, Body, Says, Shortest, Written;
    ShortestSays(f);
    WireDecodes(max, Shortest(f), f, Crc32.BigEndian(Crc32.Checksum(Body(f))), rest);
    Crc32.BigEndianRoundTrip(Crc32.Checksum(Body(f)));
  }

  // ------------------------------------------------------- what decodes at all

  /** The bytes of a frame: what its checksum covers, and the checksum. */
  ghost predicate IsFrame(wire: Bytes, f: Frame) {
    exists w :: Says(w, f) && wire == Written(w) + Crc32.BigEndian(Crc32.Checksum(Written(w)))
  }

  lemma HeaderSays(h: Bytes) returns (cmd: Cmd)
    requires |h| == HEADER_LEN && ParseHeader(h).Ok?
    ensures h == FixedHeader(cmd, h[4])
    ensures ParseHeader(h) == Ok(Partial(cmd, h[4], 0, 0, Crc32.Divide(Crc32.ONES, h), Seq(Varint.START)))
  {
    hide Crc32.Divide;
    cmd := TryFrom(h[3]).value;
    CommandBytes(h[3], cmd);
  }

  /** One number, or the end of what can be read. */
  lemma NextNumber(max: nat, p: Partial, bytes: Bytes) returns (used: nat)
    requires InField(p) && p.stage.dec == Varint.START
    ensures used <= |bytes|
    ensures used > 0 ==> Varint.IsVarint(bytes[..used])
    ensures used == 0 ==>
              var r := RunOne(max, Inside(p), bytes);
              if Overlong(bytes) then r == Broken(VarintTooLong) else r.Starved?
  {
    RunOneField(max, p, bytes);
    ScanVarIsScan(Varint.START, bytes);
    ScanVarStops(Varint.START, bytes);
    hide Varint.Scan, ScanVar, RunOne, Crc32.Divide, Varint.Groups;
    if Varint.Scan(Varint.START, bytes).Some? {
      var (v, n) := Varint.Scan(Varint.START, bytes).value;
      Varint.DecodesIff(bytes, v, n);
      used := n;
    } else {
      used := 0;
    }
  }

  /** The numbers a stream starts with, and what follows them. */
  datatype Numbers = Numbers(numbers: seq<Bytes>, rest: Bytes)

  lemma {:induction false} FlattenCons(a: Bytes, vs: seq<Bytes>)
    ensures Flatten([a] + vs) == a + Flatten(vs)
  {
    if vs == [] {
      assert ([a] + vs)[..0] == [];
    } else {
      assert ([a] + vs)[..|vs|] == [a] + vs[..|vs| - 1];
      FlattenCons(a, vs[..|vs| - 1]);
    }
  }

  function Missing(stage: Stage): nat {
    match stage case Seq(_) => 3 case Ack(_) => 2 case Len(_) => 1 case _ => 0
  }

  lemma NoNumbers(bytes: Bytes)
    ensures Flatten([]) + bytes == bytes && AllVarints([])
  {}

  lemma OneMoreNumber(a: Bytes, vs: seq<Bytes>, bytes: Bytes, rest: Bytes)
    requires Varint.IsVarint(a) && AllVarints(vs) && bytes == Flatten(vs) + rest
    ensures a + bytes == Flatten([a] + vs) + rest && AllVarints([a] + vs)
  {
    hide Varint.IsVarint, Flatten;
    FlattenCons(a, vs);
  }

  /** As many numbers as a stage and its next ones want; if there are fewer, nothing
      follows that can become the next. */
  lemma {:induction false} ReadNumbers(max: nat, p: Partial, bytes: Bytes) returns (read: Numbers)
    requires InField(p) && p.stage.dec == Varint.START
    ensures |read.numbers| <= Missing(p.stage) && AllVarints(read.numbers)
    ensures bytes == Flatten(read.numbers) + read.rest
    ensures |read.numbers| < Missing(p.stage) ==>
              var r := RunOne(max, Inside(p), bytes);
              if Overlong(read.rest) then r == Broken(VarintTooLong) else r.Starved?
    decreases Missing(p.stage)
  {
    hide RunOne, Crc32.Divide, Varint.IsVarint, Varint.Meaning, Overlong, AllVarints, Flatten;
    var used := NextNumber(max, p, bytes);
    if used == 0 {
      NoNumbers(bytes);
      return Numbers([], bytes);
    }
    var a, rest := bytes[..used], bytes[used..];
    assert bytes == a + rest;
    FieldDecodes(max, p, a, rest);
    if p.stage.Len? {
      NoNumbers(rest);
      OneMoreNumber(a, [], rest, rest);
      return Numbers([a] + [], rest);
    }
    var q := FinishField(max, p.(crc := Crc32.Divide(p.crc, a)), Varint.Meaning(a)).value;
    var more := ReadNumbers(max, q, rest);
    OneMoreNumber(a, more.numbers, rest, more.rest);
    return Numbers([a] + more.numbers, more.rest);
  }

  lemma FlattenThree(vs: seq<Bytes>)
    requires |vs| == 3
    ensures Flatten(vs) == vs[0] + vs[1] + vs[2]
  {
    FlattenCons(vs[0], vs[1..]);
    FlattenCons(vs[1], vs[2..]);
    FlattenCons(vs[2], []);
    assert vs == [vs[0]] + vs[1..] && vs[1..] == [vs[1]] + vs[2..] && vs[2..] == [vs[2]] + [];
  }

  /** A good header, and some numbers behind it. */
  ghost predicate Opens(bytes: Bytes, cmd: Cmd, flags: byte, numbers: seq<Bytes>, rest: Bytes) {
    AllVarints(numbers) && bytes == FixedHeader(cmd, flags) + (Flatten(numbers) + rest)
  }

  lemma AfterHeader(max: nat, bytes: Bytes, cmd: Cmd, flags: byte)
    requires |bytes| >= HEADER_LEN && bytes[..HEADER_LEN] == FixedHeader(cmd, flags)
    ensures var p := Partial(cmd, flags, 0, 0, Crc32.Divide(Crc32.ONES, FixedHeader(cmd, flags)), Seq(Varint.START));
            RunOne(max, IDLE, bytes) == RunOne(max, Inside(p), bytes[HEADER_LEN..])
  {
    hide RunOne, Crc32.Divide, ParseHeader, FixedHeader;
    HeaderDecodes(cmd, flags);
    RunOneHeader(max, [], bytes);
    assert [] + bytes == bytes;
  }

  /** How a stream with a good header goes on. */
  lemma ReadAll(max: nat, bytes: Bytes, cmd: Cmd, flags: byte) returns (read: Numbers)
    requires |bytes| >= HEADER_LEN && bytes[..HEADER_LEN] == FixedHeader(cmd, flags)
    ensures |read.numbers| <= 3 && Opens(bytes, cmd, flags, read.numbers, read.rest)
    ensures |read.numbers| < 3 ==>
              var r := RunOne(max, IDLE, bytes);
              if Overlong(read.rest) then r == Broken(VarintTooLong) else r.Starved?
  {
    hide RunOne, Crc32.Divide, ParseHeader, FixedHeader, AllVarints, Flatten, Overlong;
    AfterHeader(max, bytes, cmd, flags);
    var p := Partial(cmd, flags, 0, 0, Crc32.Divide(Crc32.ONES, FixedHeader(cmd, flags)), Seq(Varint.START));
    read := ReadNumbers(max, p, bytes[HEADER_LEN..]);
  }

  /** Too few bytes for payload and checksum. */
  lemma CutEnd(max: nat, p: Partial, bytes: Bytes)
    requires p.stage.Payload? && p.stage.payload == [] && |bytes| < p.stage.remaining + CRC_LEN
    ensures RunOne(max, Inside(p), bytes).Starved?
  {
    hide RunOne, Crc32.Divide, Finish;
    var n := p.stage.remaining;
    if bytes == [] {
      RunOneNothing(max, Inside(p));
    } else if |bytes| <= n {
      RunOnePayload(max, p, bytes, |bytes|);
      RunOneNothing(max, Inside(TakePayload(p, bytes[..|bytes|])));
      assert bytes[|bytes|..] == [];
    } else {
      RunOnePayload(max, p, bytes, n);
      var q, sum := TakePayload(p, bytes[..n]), bytes[n..];
      RunOneCrc(max, q, sum, |sum|);
      assert sum[|sum|..] == [] && [] + sum == sum && sum[..|sum|] == sum;
      RunOneNothing(max, Inside(q.(stage := Crc(q.stage.payload, sum))));
    }
  }

  /** Three numbers, but more payload than allowed. */
  lemma TooLarge(max: nat, bytes: Bytes, cmd: Cmd, flags: byte, vs: seq<Bytes>, rest: Bytes)
    requires Opens(bytes, cmd, flags, vs, rest) && |vs| == 3
    ensures Varint.Meaning(vs[2]) > max ==>
        RunOne(max, IDLE, bytes) == Broken(FrameTooLarge(Varint.Meaning(vs[2]), max))
    ensures var len := Varint.Meaning(vs[2]);
            len <= max && |rest| < len + CRC_LEN ==> RunOne(max, IDLE, bytes).Starved?
  {
    hide RunOne, Crc32.Divide, ParseHeader, FixedHeader, Flatten, Varint.IsVarint, Varint.Meaning;
    assert vs[0] in vs && vs[1] in vs && vs[2] in vs;
    FlattenThree(vs);
    var h, fields := FixedHeader(cmd, flags), vs[0] + vs[1] + vs[2];
    assert bytes[..HEADER_LEN] == h && bytes[HEADER_LEN..] == fields + rest;
    AfterHeader(max, bytes, cmd, flags);
    var p := Partial(cmd, flags, 0, 0, Crc32.Divide(Crc32.ONES, h), Seq(Varint.START));
    VarintsDecode(max, p, vs[0], vs[1], vs[2], rest);
    var len := Varint.Meaning(vs[2]);
    if len <= max && |rest| < len + CRC_LEN {
      CutEnd(max, p.(seqNo := Varint.Meaning(vs[0]), ack := Varint.Meaning(vs[1]),
                     crc := Crc32.Divide(p.crc, fields), stage := Payload([], len)), rest);
    }
  }

  lemma {:induction false} NumbersThenOverlong(max: nat, p: Partial, vs: seq<Bytes>, rest: Bytes)
    requires InField(p) && p.stage.dec == Varint.START && |vs| < Missing(p.stage) && AllVarints(vs) && Overlong(rest)
    ensures RunOne(max, Inside(p), Flatten(vs) + rest) == Broken(VarintTooLong)
    decreases |vs|
  {
    if vs == [] {
      NoNumbers(rest);
      RunOneField(max, p, rest);
      ScanVarStops(Varint.START, rest);
    } else {
      hide RunOne, Crc32.Divide, Varint.IsVarint, Varint.Meaning, Overlong, Flatten;
      var a, more := vs[0], vs[1..];
      assert a in vs && vs == [a] + more;
      FlattenCons(a, more);
      assert Flatten(vs) + rest == a + (Flatten(more) + rest);
      FieldDecodes(max, p, a, Flatten(more) + rest);
      var q := FinishField(max, p.(crc := Crc32.Divide(p.crc, a)), Varint.Meaning(a)).value;
      NumbersThenOverlong(max, q, more, rest);
    }
  }

  /** The checksum the bytes have, and the one they carry. */
  predicate Sums(w: Covered, sum: Bytes, expected: bv32, received: bv32) {
    |sum| == CRC_LEN && expected == Crc32.Checksum(Written(w)) && received == Crc32.FromBigEndian(sum)
  }

  /** The stream starts with the parts of `f`, within the limit, and four more bytes. */
  ghost predicate Carries(max: nat, bytes: Bytes, w: Covered, f: Frame, sum: Bytes, rest: Bytes) {
    Says(w, f) && |f.payload| <= max && |sum| == CRC_LEN && bytes == Written(w) + sum + rest
  }

  /** Why the first frame of a stream is refused, in terms of its bytes. */
  ghost predicate Refused(max: nat, bytes: Bytes, e: ProtocolError) {
    && |bytes| >= HEADER_LEN
    && (e.BadMagic? ==> e.magic == TwoBytes(bytes[0], bytes[1]) && bytes[..2] != [0x49, 0x4D])
    && (e.UnsupportedVersion? ==> bytes[..2] == [0x49, 0x4D] && e.version == bytes[2] != 1)
    && (e.UnknownCommand? ==>
          bytes[..3] == [0x49, 0x4D, 1] && e.command == bytes[3] && forall cmd: Cmd :: ToByte(cmd) != bytes[3])
    && (e.VarintTooLong? ==>
          exists cmd, flags, vs, rest :: Opens(bytes, cmd, flags, vs, rest) && |vs| < 3 && Overlong(rest))
    && (e.FrameTooLarge? ==>
          && e.max == max < e.len
          && exists cmd, flags, vs, rest ::
               Opens(bytes, cmd, flags, vs, rest) && |vs| == 3 && Varint.Meaning(vs[2]) == e.len)
    && (e.CrcMismatch? ==>
          && e.expected != e.received
          && exists w, f, sum, rest :: Carries(max, bytes, w, f, sum, rest) && Sums(w, sum, e.expected, e.received))
  }

  /** The first frame of a stream: its bytes, whole and with their own checksum. */
  ghost predicate HandsOut(max: nat, bytes: Bytes, f: Frame, rest: Bytes) {
    |f.payload| <= max && exists wire :: IsFrame(wire, f) && bytes == wire + rest
  }

  lemma BadHeaders(max: nat, bytes: Bytes)
    requires |bytes| >= HEADER_LEN && ParseHeader(bytes[..HEADER_LEN]).Err?
    ensures RunOne(max, IDLE, bytes) == Broken(ParseHeader(bytes[..HEADER_LEN]).error)
    ensures !RunOne(max, IDLE, bytes).error.VarintTooLong? && !RunOne(max, IDLE, bytes).error.FrameTooLarge?
    ensures !RunOne(max, IDLE, bytes).error.CrcMismatch?
    ensures Refused(max, bytes, ParseHeader(bytes[..HEADER_LEN]).error)
  {
    hide RunOne, Crc32.Divide;
    RunOneHeader(max, [], bytes);
    assert [] + bytes == bytes;
    var h := bytes[..HEADER_LEN];
    assert bytes[..2] == [h[0], h[1]] && bytes[..3] == [h[0], h[1], h[2]];
    if h[3] < 1 || h[3] > 8 {
      forall cmd: Cmd ensures ToByte(cmd) != h[3] {}
    }
  }

  /** The parts of a first frame that has all its bytes. */
  lemma SplitCovered(max: nat, bytes: Bytes, cmd: Cmd, flags: byte, vs: seq<Bytes>, rest: Bytes)
      returns (w: Covered, f: Frame, sum: Bytes, tail: Bytes)
    requires Opens(bytes, cmd, flags, vs, rest) && |vs| == 3
    requires Varint.Meaning(vs[2]) <= max && |rest| >= Varint.Meaning(vs[2]) + CRC_LEN
    ensures Carries(max, bytes, w, f, sum, tail)
  {
    hide Varint.IsVarint, Varint.Meaning, Flatten, FixedHeader;
    assert vs[0] in vs && vs[1] in vs && vs[2] in vs;
    FlattenThree(vs);
    var len := Varint.Meaning(vs[2]);
    w := Covered(FixedHeader(cmd, flags), vs[0], vs[1], vs[2], rest[..len]);
    f := Frame(cmd, flags, Varint.Meaning(vs[0]), Varint.Meaning(vs[1]), rest[..len]);
    sum, tail := rest[len..len + CRC_LEN], rest[len + CRC_LEN..];
    assert rest == rest[..len] + sum + tail;
  }

  lemma RightSum(max: nat, bytes: Bytes, w: Covered, f: Frame, sum: Bytes, rest: Bytes)
    requires Carries(max, bytes, w, f, sum, rest) && Crc32.FromBigEndian(sum) == Crc32.Checksum(Written(w))
    ensures HandsOut(max, bytes, f, rest)
  {
    hide Crc32.Checksum, Crc32.FromBigEndian, Crc32.BigEndian, Says, Written;
    Crc32.FromBigEndianRoundTrip(sum);
    assert IsFrame(Written(w) + sum, f);
  }

  lemma Carried(max: nat, bytes: Bytes, w: Covered, f: Frame, sum: Bytes, rest: Bytes)
    requires Carries(max, bytes, w, f, sum, rest)
    ensures |sum| == CRC_LEN
    ensures var expected, got := Crc32.Checksum(Written(w)), Crc32.FromBigEndian(sum);
            RunOne(max, IDLE, bytes) ==
            if got != expected then Broken(CrcMismatch(expected, got)) else Complete(f, rest)
  {
    hide RunOne, Crc32.Checksum, Crc32.FromBigEndian, Says, Written;
    WireDecodes(max, w, f, sum, rest);
  }

  /** What becomes of a stream shows in its bytes. */
  lemma Dissect(max: nat, bytes: Bytes)
    ensures var r := RunOne(max, IDLE, bytes);
            (r.Broken? ==> Refused(max, bytes, r.error)) && (r.Complete? ==> HandsOut(max, bytes, r.frame, r.rest))
  {
    hide RunOne, Crc32.Divide, Crc32.Checksum, Crc32.FromBigEndian, ParseHeader, Opens, Carries, Varint.Meaning,
        FixedHeader, Overlong, HandsOut;
    RunOneHeader(max, [], bytes);
    assert [] + bytes == bytes;
    if |bytes| < HEADER_LEN {
    } else if ParseHeader(bytes[..HEADER_LEN]).Err? {
      BadHeaders(max, bytes);
    } else {
      var h := bytes[..HEADER_LEN];
      var cmd := HeaderSays(h);
      var read := ReadAll(max, bytes, cmd, h[4]);
      if |read.numbers| == 3 {
        TooLarge(max, bytes, cmd, h[4], read.numbers, read.rest);
        var len := Varint.Meaning(read.numbers[2]);
        if len <= max && |read.rest| >= len + CRC_LEN {
          var w, f, sum, rest := SplitCovered(max, bytes, cmd, h[4], read.numbers, read.rest);
          Carried(max, bytes, w, f, sum, rest);
          if Crc32.FromBigEndian(sum) == Crc32.Checksum(Written(w)) { RightSum(max, bytes, w, f, sum, rest); }
        }
      }
    }
  }

  lemma OverlongIsRefused(max: nat, bytes: Bytes, cmd: Cmd, flags: byte, vs: seq<Bytes>, rest: Bytes)
    requires Opens(bytes, cmd, flags, vs, rest) && |vs| < 3 && Overlong(rest)
    ensures RunOne(max, IDLE, bytes) == Broken(VarintTooLong)
  {
    hide RunOne, Crc32.Divide, ParseHeader, FixedHeader, Flatten, AllVarints, Overlong;
    assert bytes[..HEADER_LEN] == FixedHeader(cmd, flags) && bytes[HEADER_LEN..] == Flatten(vs) + rest;
    AfterHeader(max, bytes, cmd, flags);
    var p := Partial(cmd, flags, 0, 0, Crc32.Divide(Crc32.ONES, FixedHeader(cmd, flags)), Seq(Varint.START));
    NumbersThenOverlong(max, p, vs, rest);
  }

  lemma BadHeaderIsRefused(max: nat, bytes: Bytes, e: ProtocolError)
    requires Refused(max, bytes, e) && (e.BadMagic? || e.UnsupportedVersion? || e.UnknownCommand?)
    ensures RunOne(max, IDLE, bytes) == Broken(e)
  {
    hide RunOne, Crc32.Divide;
    RunOneHeader(max, [], bytes);
    assert [] + bytes == bytes;
    var h := bytes[..HEADER_LEN];
    assert bytes[..2] == [h[0], h[1]] && bytes[..3] == [h[0], h[1], h[2]];
    if e.UnknownCommand? && TryFrom(h[3]).Ok? { CommandBytes(h[3], TryFrom(h[3]).value); }
  }

  lemma RefusedIsBroken(max: nat, bytes: Bytes, e: ProtocolError)
    requires Refused(max, bytes, e)
    ensures RunOne(max, IDLE, bytes) == Broken(e)
  {
    hide RunOne, Crc32.Checksum, Crc32.FromBigEndian, Opens, Carries, Overlong, Varint.Meaning, Written, FixedHeader;
    if e.VarintTooLong? {
      var cmd, flags, vs, rest :| Opens(bytes, cmd, flags, vs, rest) && |vs| < 3 && Overlong(rest);
      OverlongIsRefused(max, bytes, cmd, flags, vs, rest);
    } else if e.FrameTooLarge? {
      var cmd, flags, vs, rest :|
        Opens(bytes, cmd, flags, vs, rest) && |vs| == 3 && Varint.Meaning(vs[2]) == e.len;
      TooLarge(max, bytes, cmd, flags, vs, rest);
    } else if e.CrcMismatch? {
      var w, f, sum, rest :| Carries(max, bytes, w, f, sum, rest) && Sums(w, sum, e.expected, e.received);
      Carried(max, bytes, w, f, sum, rest);
    } else {
      BadHeaderIsRefused(max, bytes, e);
    }
  }

  lemma HandedOutIsComplete(max: nat, bytes: Bytes, f: Frame, rest: Bytes)
    requires HandsOut(max, bytes, f, rest)
    ensures RunOne(max, IDLE, bytes) == Complete(f, rest)
  {
    hide RunOne, Crc32.Checksum, Crc32.FromBigEndian, Crc32.BigEndian, Says, Written;
    var wire :| IsFrame(wire, f) && bytes == wire + rest;
    var w :| Says(w, f) && wire == Written(w) + Crc32.BigEndian(Crc32.Checksum(Written(w)));
    Crc32.BigEndianRoundTrip(Crc32.Checksum(Written(w)));
    WireDecodes(max, w, f, Crc32.BigEndian(Crc32.Checksum(Written(w))), rest);
  }

  /** A frame is handed out exactly when the stream starts with all of its bytes and the
      right checksum, and its payload is within the limit. */
  lemma HandsOutIff(max: nat, bytes: Bytes, f: Frame, rest: Bytes)
    ensures RunOne(max, IDLE, bytes) == Complete(f, rest) <==> HandsOut(max, bytes, f, rest)
  {
    hide RunOne, HandsOut;
    Dissect(max, bytes);
    if HandsOut(max, bytes, f, rest) { HandedOutIsComplete(max, bytes, f, rest); }
  }

  /** Every refusal, with what it reports, is decided by the bytes. */
  lemma RefusedIff(max: nat, bytes: Bytes, e: ProtocolError)
    ensures RunOne(max, IDLE, bytes) == Broken(e) <==> Refused(max, bytes, e)
  {
    hide RunOne, Refused;
    Dissect(max, bytes);
    if Refused(max, bytes, e) { RefusedIsBroken(max, bytes, e); }
  }

  /** What is handed out came with the fixed bytes in front and the checksum of all
      before it behind. */
  lemma HandedOutIsSound(max: nat, bytes: Bytes)
    requires RunOne(max, IDLE, bytes).Complete?
    ensures var r := RunOne(max, IDLE, bytes); var used := |bytes| - |r.rest|;
            && HEADER_LEN + |r.frame.payload| + CRC_LEN <= used <= |bytes| && bytes[used..] == r.rest
            && bytes[..HEADER_LEN] == [0x49, 0x4D, 1, ToByte(r.frame.cmd), r.frame.flags]
            && bytes[used - CRC_LEN..used] == Crc32.BigEndian(Crc32.Checksum(bytes[..used - CRC_LEN]))
            && bytes[used - CRC_LEN - |r.frame.payload|..used - CRC_LEN] == r.frame.payload
  {
    hide RunOne, Crc32.Checksum, Crc32.BigEndian, Varint.IsVarint, Varint.Meaning;
    var r := RunOne(max, IDLE, bytes);
    HandsOutIff(max, bytes, r.frame, r.rest);
    var wire :| IsFrame(wire, r.frame) && bytes == wire + r.rest;
    var w :| Says(w, r.frame) && wire == Written(w) + Crc32.BigEndian(Crc32.Checksum(Written(w)));
    assert bytes[..|Written(w)|] == Written(w);
  }

  /** Whatever the stream, the frames decoded are the ones it starts with, one after the
      other, each with its right checksum. */
  lemma {:induction false} StreamIsFrames(max: nat, bytes: Bytes) returns (wires: seq<Bytes>, tail: Bytes)
    requires Feed(max, IDLE, bytes).Fed?
    ensures var frames := Feed(max, IDLE, bytes).frames;
            && |wires| == |frames| && bytes == Flatten(wires) + tail
            && forall i :: 0 <= i < |frames| ==> IsFrame(wires[i], frames[i]) && |frames[i].payload| <= max
    ensures RunOne(max, IDLE, tail) == Starved(Feed(max, IDLE, bytes).machine)
    decreases |bytes|
  {
    hide Step, RunOne, IsFrame, Flatten;
    FeedViaRunOne(max, IDLE, bytes);
    var r := RunOne(max, IDLE, bytes);
    if r.Starved? {
      NoNumbers(bytes);
      return [], bytes;
    }
    HandsOutIff(max, bytes, r.frame, r.rest);
    var wire :| IsFrame(wire, r.frame) && bytes == wire + r.rest;
    var more, end := StreamIsFrames(max, r.rest);
    FlattenCons(wire, more);
    return [wire] + more, end;
  }

  // -------------------------------------------------------------------- damage

  lemma DamagedSums(a: Bytes, b: Bytes, at: nat)
    requires Crc32.BurstAt(a + Crc32.BigEndian(Crc32.Checksum(a)), b + Crc32.BigEndian(Crc32.Checksum(b)), at)
    requires at + 4 <= |a| || at >= |a|
    ensures a == b
  {
    hide Crc32.Checksum, Crc32.BigEndian;
    var p, q := Crc32.BigEndian(Crc32.Checksum(a)), Crc32.BigEndian(Crc32.Checksum(b));
    var x, y := a + p, b + q;
    assert forall i :: 0 <= i < |a| ==> x[i] == a[i] && y[i] == b[i];
    if at < |a| && a != b {
      assert forall i :: 0 <= i < CRC_LEN ==> x[|a| + i] == p[i] && y[|a| + i] == q[i];
      Crc32.BigEndianRoundTrip(Crc32.Checksum(a));
      Crc32.BigEndianRoundTrip(Crc32.Checksum(b));
      Crc32.BurstIsDetected(a, b, at);
    }
  }

  /** A frame damaged within four consecutive bytes, of the part the checksum covers or
      of the checksum, never comes out as a frame of the same length. */
  lemma DamagedIsNoFrame(wire: Bytes, f: Frame, damaged: Bytes, g: Frame, at: nat)
    requires IsFrame(wire, f) && Crc32.BurstAt(wire, damaged, at) && damaged != wire
    requires at + 4 <= |wire| - CRC_LEN || at >= |wire| - CRC_LEN
    ensures !IsFrame(damaged, g)
  {
    hide Crc32.Checksum, Crc32.BigEndian, Says, Written;
    var w :| Says(w, f) && wire == Written(w) + Crc32.BigEndian(Crc32.Checksum(Written(w)));
    if IsFrame(damaged, g) {
      var v :| Says(v, g) && damaged == Written(v) + Crc32.BigEndian(Crc32.Checksum(Written(v)));
      DamagedSums(Written(w), Written(v), at);
    }
  }

  lemma SameHeader(f: Frame, g: Frame)
    requires f.cmd == g.cmd && f.flags == g.flags
    ensures Header(f) == Header(g)
  {}

  /** The same damage in the payload or in the checksum is always reported as such. */
  lemma DamageIsReported(max: nat, w: Covered, f: Frame, damaged: Bytes, at: nat, rest: Bytes)
    requires Says(w, f) && |f.payload| <= max
    requires var wire := Written(w) + Crc32.BigEndian(Crc32.Checksum(Written(w)));
             && Crc32.BurstAt(wire, damaged, at) && damaged != wire && |Written(w)| - |f.payload| <= at
             && (at + 4 <= |Written(w)| || at >= |Written(w)|)
    ensures var r := RunOne(max, IDLE, damaged + rest); r.Broken? && r.error.CrcMismatch?
    ensures var r := Feed(max, IDLE, damaged + rest); r.Failed? && r.error.CrcMismatch?
  {
    FeedViaRunOne(max, IDLE, damaged + rest);
    hide RunOne, Crc32.Checksum, Crc32.BigEndian, Crc32.FromBigEndian, Varint.IsVarint, Varint.Meaning, Header;
    var sum := Crc32.BigEndian(Crc32.Checksum(Written(w)));
    var wire, front, n := Written(w) + sum, w.header + (w.seqNo + w.ack + w.len), |Written(w)|;
    assert forall i :: 0 <= i < |front| ==> wire[i] == front[i];
    var v := w.(payload := damaged[|front|..n]);
    var g := f.(payload := damaged[|front|..n]);
    assert damaged[..|front|] == front;
    assert damaged == Written(v) + damaged[n..] && damaged + rest == Written(v) + damaged[n..] + rest;
    assert Says(v, g) by { assert Header(g) == Header(f) by { SameHeader(f, g); } }
    hide Says, Written;
    WireDecodes(max, v, g, damaged[n..], rest);
    if Crc32.FromBigEndian(damaged[n..]) == Crc32.Checksum(Written(v)) {
      Crc32.FromBigEndianRoundTrip(damaged[n..]);
      DamagedSums(Written(w), Written(v), at);
    }
  }

  function EncodeAll(frames: seq<Frame>): Bytes {
    if frames == [] then [] else Encode(frames[0]) + EncodeAll(frames[1..])
  }

  predicate Fits(max: nat, f: Frame) {
    |f.payload| <= max && |f.payload| <= U64_MAX
  }

  /** The encodings of any frames, end to end, decode to exactly those frames. */
  lemma {:induction false} StreamRoundTrip(max: nat, frames: seq<Frame>)
    requires forall f :: f in frames ==> Fits(max, f)
    ensures Feed(max, IDLE, EncodeAll(frames)) == Fed(frames, IDLE)
  {
    hide Encode, Step;
    if frames != [] {
      var rest := EncodeAll(frames[1..]);
      StreamRoundTrip(max, frames[1..]);
      assert Fits(max, frames[0]);
      FrameDecodes(max, frames[0], rest);
      FeedViaRunOne(max, IDLE, EncodeAll(frames));
      assert frames == [frames[0]] + frames[1..];
    }
  }

  /** Between its chunks a stream of frames may be cut anywhere. */
  lemma ChunkedRoundTrip(max: nat, frames: seq<Frame>, chunks: seq<Bytes>)
    requires forall f :: f in frames ==> Fits(max, f)
    requires Flatten(chunks) == EncodeAll(frames)
    ensures FeedChunks(max, IDLE, chunks) == Fed(frames, IDLE)
  {
    ChunkingIsInvisible(max, IDLE, chunks);
    StreamRoundTrip(max, frames);
  }

  lemma StepLeavesIdle(max: nat, m: Machine, b: byte)
    ensures Step(max, m, b) != Continue(IDLE)
  {
    hide Varint.PushByte, FinishField, ParseHeader, Crc32.DivideByte;
    if m.Between? { assert |m.header + [b]| > 0; }
  }

  lemma {:induction false} NeverBackToIdle(max: nat, m: Machine, bytes: Bytes)
    requires bytes != [] && Feed(max, m, bytes).Fed? && Feed(max, m, bytes).frames == []
    ensures Feed(max, m, bytes).machine != IDLE
    decreases |bytes|
  {
    hide Step;
    StepLeavesIdle(max, m, bytes[0]);
    assert Step(max, m, bytes[0]).Continue?;
    if |bytes| > 1 { NeverBackToIdle(max, Step(max, m, bytes[0]).machine, bytes[1..]); }
  }

  /** No frame appears before its last byte, and none is refused before it. */
  lemma CutFrameWaits(max: nat, f: Frame, k: nat)
    requires Fits(max, f) && k < |Encode(f)|
    ensures var r := Feed(max, IDLE, Encode(f)[..k]); r.Fed? && r.frames == []
  {
    hide Encode, Step, Feed;
    var head, tail := Encode(f)[..k], Encode(f)[k..];
    assert head + tail == Encode(f) == EncodeAll([f]) by { assert EncodeAll([f]) == Encode(f) + EncodeAll([]); }
    StreamRoundTrip(max, [f]);
    FeedConcat(max, IDLE, head, tail);
    var r := Feed(max, IDLE, head);
    assert r.Fed?;
    if r.frames != [] {
      var s := Feed(max, r.machine, tail);
      assert r.frames + s.frames == [f];
      assert s.frames == [];
      NeverBackToIdle(max, r.machine, tail);
    }
  }
}
