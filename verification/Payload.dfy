/** Message payloads: fields in varints and length-prefixed bytes, read with a cursor. */
module Payload {
  import opened Wrappers
  import Varint

  datatype ProtocolError = PayloadTooShort(need: nat, got: nat) | TrailingBytes(extra: nat)

  datatype Msg = Msg(from: u64, to: u64, msgId: u64, clientMsgId: u64, content: Bytes)

  // --------------------------------------------------------------------- encoding

  function PutVarints(vs: seq<u64>): Bytes {
    if vs == [] then [] else Varint.Encode(vs[0]) + PutVarints(vs[1..])
  }

  function PutBytes(b: Bytes): Bytes {
    Varint.Encode(|b|) + b
  }

  function Fields(m: Msg): seq<u64> {
    [m.from, m.to, m.msgId, m.clientMsgId]
  }

  function EncodeMsg(m: Msg): Bytes {
    PutVarints(Fields(m)) + PutBytes(m.content)
  }

  function EncodeEach(ms: seq<Msg>): Bytes {
    if ms == [] then [] else PutBytes(EncodeMsg(ms[0])) + EncodeEach(ms[1..])
  }

  function EncodeSyncResp(ms: seq<Msg>): Bytes {
    Varint.Encode(|ms|) + EncodeEach(ms)
  }

  lemma SmallVarints(v: u64, vs: seq<u64>)
    requires v < 128
    ensures PutVarints([v] + vs) == [v] + PutVarints(vs)
  {
    assert ([v] + vs)[1..] == vs;
  }

  /** A small message, byte for byte. */
  lemma MsgLayout()
    ensures EncodeMsg(Msg(1, 2, 3, 4, [5])) == [1, 2, 3, 4, 1, 5]
    ensures EncodeSyncResp([Msg(1, 2, 3, 4, [5])]) == [1, 6, 1, 2, 3, 4, 1, 5]
  {
    var m := Msg(1, 2, 3, 4, [5]);
    SmallVarints(1, [2, 3, 4]);
    SmallVarints(2, [3, 4]);
    SmallVarints(3, [4]);
    SmallVarints(4, []);
    assert [1] + [2, 3, 4] == Fields(m) && [2] + [3, 4] == [2, 3, 4] && [3] + [4] == [3, 4] && [4] + [] == [4];
    assert [m][1..] == [];
  }

  // ---------------------------------------------------------------------- reading

  type Read<T> = Result<(T, Bytes), ProtocolError>

  function ReadVarint(src: Bytes): Read<u64> {
    match Varint.Scan(Varint.START, src)
    case None => Err(PayloadTooShort(1, 0))
    case Some((value, used)) => Ok((value, src[used..]))
  }

  function ReadVarints(src: Bytes, n: nat): (r: Read<seq<u64>>)
    ensures r.Ok? ==> |r.value.0| == n
  {
    if n == 0 then Ok(([], src))
    else
      match ReadVarint(src)
      case Err(e) => Err(e)
      case Ok((v, rest)) =>
        match ReadVarints(rest, n - 1)
        case Err(e) => Err(e)
        case Ok((vs, tail)) => Ok(([v] + vs, tail))
  }

  function ReadBytes(src: Bytes): Read<Bytes> {
    match ReadVarint(src)
    case Err(e) => Err(e)
    case Ok((len, rest)) =>
      if |rest| < len then Err(PayloadTooShort(len - |rest|, |rest|)) else Ok((rest[..len], rest[len..]))
  }

  function DecodeMsg(src: Bytes): Result<Msg, ProtocolError> {
    match ReadVarints(src, 4)
    case Err(e) => Err(e)
    case Ok((vs, rest)) =>
      match ReadBytes(rest)
      case Err(e) => Err(e)
      case Ok((content, tail)) =>
        if |tail| > 0 then Err(TrailingBytes(|tail|)) else Ok(Msg(vs[0], vs[1], vs[2], vs[3], content))
  }

  function DecodeEach(src: Bytes, n: nat): Read<seq<Msg>> {
    if n == 0 then Ok(([], src))
    else
      match ReadBytes(src)
      case Err(e) => Err(e)
      case Ok((one, rest)) =>
        match DecodeMsg(one)
        case Err(e) => Err(e)
        case Ok(m) =>
          match DecodeEach(rest, n - 1)
          case Err(e) => Err(e)
          case Ok((ms, tail)) => Ok(([m] + ms, tail))
  }

  function DecodeSyncResp(src: Bytes): Result<seq<Msg>, ProtocolError> {
    match ReadVarint(src)
    case Err(e) => Err(e)
    case Ok((count, rest)) =>
      match DecodeEach(rest, count)
      case Err(e) => Err(e)
      case Ok((ms, tail)) => if |tail| > 0 then Err(TrailingBytes(|tail|)) else Ok(ms)
  }

  // ------------------------------------------------------------------ round trips

  lemma VarintReads(v: u64, rest: Bytes)
    ensures ReadVarint(Varint.Encode(v) + rest) == Ok((v, rest))
  {
    hide Varint.Scan, Varint.Encode;
    Varint.RoundTrip(v, rest);
    assert (Varint.Encode(v) + rest)[|Varint.Encode(v)|..] == rest;
  }

  lemma CutVarintFails(v: u64, k: nat)
    requires k < |Varint.Encode(v)|
    ensures ReadVarint(Varint.Encode(v)[..k]) == Err(PayloadTooShort(1, 0))
  {
    Varint.CutNeverDecodes(Varint.START, v, k);
  }

  lemma {:induction false} VarintsRead(vs: seq<u64>, rest: Bytes)
    ensures ReadVarints(PutVarints(vs) + rest, |vs|) == Ok((vs, rest))
    decreases |vs|
  {
    hide ReadVarint;
    if vs == [] {
      assert PutVarints(vs) + rest == rest;
    } else {
      var tail := PutVarints(vs[1..]) + rest;
      assert PutVarints(vs) + rest == Varint.Encode(vs[0]) + tail;
      VarintReads(vs[0], tail);
      VarintsRead(vs[1..], rest);
      assert [vs[0]] + vs[1..] == vs;
    }
  }

  lemma {:induction false} CutVarintsFail(vs: seq<u64>, k: nat)
    requires k < |PutVarints(vs)|
    ensures ReadVarints(PutVarints(vs)[..k], |vs|) == Err(PayloadTooShort(1, 0))
    decreases |vs|
  {
    hide ReadVarint;
    var head, tail := Varint.Encode(vs[0]), PutVarints(vs[1..]);
    if k < |head| {
      assert PutVarints(vs)[..k] == head[..k];
      CutVarintFails(vs[0], k);
    } else {
      assert PutVarints(vs)[..k] == head + tail[..k - |head|];
      VarintReads(vs[0], tail[..k - |head|]);
      CutVarintsFail(vs[1..], k - |head|);
    }
  }

  lemma BytesRead(b: Bytes, rest: Bytes)
    requires |b| <= U64_MAX
    ensures ReadBytes(PutBytes(b) + rest) == Ok((b, rest))
  {
    hide ReadVarint;
    assert PutBytes(b) + rest == Varint.Encode(|b|) + (b + rest);
    VarintReads(|b|, b + rest);
    assert (b + rest)[..|b|] == b && (b + rest)[|b|..] == rest;
  }

  lemma CutBytesFail(b: Bytes, k: nat)
    requires |b| <= U64_MAX && k < |PutBytes(b)|
    ensures ReadBytes(PutBytes(b)[..k]).Err? && ReadBytes(PutBytes(b)[..k]).error.PayloadTooShort?
  {
    hide ReadVarint;
    var head := Varint.Encode(|b|);
    if k < |head| {
      assert PutBytes(b)[..k] == head[..k];
      CutVarintFails(|b|, k);
    } else {
      assert PutBytes(b)[..k] == head + b[..k - |head|];
      VarintReads(|b|, b[..k - |head|]);
    }
  }

  /** A message decodes to itself, and anything after it is counted as trailing. */
  lemma MsgRoundTrip(m: Msg, extra: Bytes)
    requires |m.content| <= U64_MAX
    ensures DecodeMsg(EncodeMsg(m)) == Ok(m)
    ensures extra != [] ==> DecodeMsg(EncodeMsg(m) + extra) == Err(TrailingBytes(|extra|))
  {
    hide ReadVarints, ReadBytes, PutVarints, PutBytes;
    assert EncodeMsg(m) + extra == PutVarints(Fields(m)) + (PutBytes(m.content) + extra);
    VarintsRead(Fields(m), PutBytes(m.content) + extra);
    VarintsRead(Fields(m), PutBytes(m.content));
    BytesRead(m.content, extra);
    BytesRead(m.content, []);
    assert PutBytes(m.content) + [] == PutBytes(m.content);
  }

  /** A message cut anywhere is too short. */
  lemma CutMsgFails(m: Msg, k: nat)
    requires |m.content| <= U64_MAX && k < |EncodeMsg(m)|
    ensures DecodeMsg(EncodeMsg(m)[..k]).Err? && DecodeMsg(EncodeMsg(m)[..k]).error.PayloadTooShort?
  {
    hide ReadVarints, ReadBytes, PutVarints, PutBytes;
    var head := PutVarints(Fields(m));
    if k < |head| {
      assert EncodeMsg(m)[..k] == head[..k];
      CutVarintsFail(Fields(m), k);
    } else {
      assert EncodeMsg(m)[..k] == head + PutBytes(m.content)[..k - |head|];
      VarintsRead(Fields(m), PutBytes(m.content)[..k - |head|]);
      CutBytesFail(m.content, k - |head|);
    }
  }

  lemma {:induction false} EachRoundTrip(ms: seq<Msg>, rest: Bytes)
    requires forall m :: m in ms ==> |m.content| <= U64_MAX && |EncodeMsg(m)| <= U64_MAX
    ensures DecodeEach(EncodeEach(ms) + rest, |ms|) == Ok((ms, rest))
    decreases |ms|
  {
    hide DecodeMsg, EncodeMsg, ReadBytes, PutBytes;
    if ms == [] {
      assert EncodeEach(ms) + rest == rest;
    } else {
      var tail := EncodeEach(ms[1..]) + rest;
      assert EncodeEach(ms) + rest == PutBytes(EncodeMsg(ms[0])) + tail;
      BytesRead(EncodeMsg(ms[0]), tail);
      MsgRoundTrip(ms[0], []);
      EachRoundTrip(ms[1..], rest);
      assert [ms[0]] + ms[1..] == ms;
    }
  }

  /** A batch of messages decodes to itself. */
  lemma SyncRespRoundTrip(ms: seq<Msg>)
    requires |ms| <= U64_MAX && forall m :: m in ms ==> |m.content| <= U64_MAX && |EncodeMsg(m)| <= U64_MAX
    ensures DecodeSyncResp(EncodeSyncResp(ms)) == Ok(ms)
  {
    hide DecodeEach, EncodeEach, ReadVarint;
    VarintReads(|ms|, EncodeEach(ms));
    EachRoundTrip(ms, []);
    assert EncodeEach(ms) + [] == EncodeEach(ms);
  }

  // -------------------------------------------------------------- what is accepted

  /** A number is read exactly where a varint for it stands. */
  lemma ReadVarintIff(src: Bytes, v: u64, rest: Bytes)
    ensures ReadVarint(src) == Ok((v, rest)) <==> Varint.StartsWith(src, v, rest)
    ensures ReadVarint(src).Err? ==> ReadVarint(src).error == PayloadTooShort(1, 0)
  {
    hide Varint.Scan, Varint.StartsWith;
    Varint.StartsWithIff(src, v, rest);
  }

  /** Numbers stand at the front, one after the other. */
  ghost predicate StartsWithAll(src: Bytes, vs: seq<u64>, rest: Bytes)
    decreases |vs|
  {
    if vs == [] then src == rest
    else exists mid :: Varint.StartsWith(src, vs[0], mid) && StartsWithAll(mid, vs[1..], rest)
  }

  lemma {:induction false} ReadVarintsIff(src: Bytes, vs: seq<u64>, rest: Bytes)
    ensures ReadVarints(src, |vs|) == Ok((vs, rest)) <==> StartsWithAll(src, vs, rest)
    ensures ReadVarints(src, |vs|).Err? ==> ReadVarints(src, |vs|).error == PayloadTooShort(1, 0)
    decreases |vs|
  {
    hide ReadVarint, Varint.StartsWith;
    if vs != [] {
      ReadVarintIff(src, vs[0], rest);
      if ReadVarint(src).Ok? {
        var (v, mid) := ReadVarint(src).value;
        ReadVarintIff(src, v, mid);
        ReadVarintsIff(mid, vs[1..], rest);
        assert vs == [vs[0]] + vs[1..];
      }
      forall mid | Varint.StartsWith(src, vs[0], mid)
        ensures ReadVarint(src) == Ok((vs[0], mid)) {
        ReadVarintIff(src, vs[0], mid);
      }
    }
  }

  /** A length is there, but fewer bytes after it. */
  ghost predicate IsShort(src: Bytes, need: nat, got: nat) {
    exists len: u64, rest :: Varint.StartsWith(src, len, rest) && |rest| < len && need == len - |rest| && got == |rest|
  }

  lemma ReadBytesIff(src: Bytes, b: Bytes, rest: Bytes)
    ensures ReadBytes(src) == Ok((b, rest)) <==> Varint.StartsWithField(src, b, rest)
    ensures ReadBytes(src).Err? ==>
              var e := ReadBytes(src).error;
              && e.PayloadTooShort?
              && if ReadVarint(src).Err? then e == PayloadTooShort(1, 0) else IsShort(src, e.need, e.got)
  {
    hide ReadVarint, Varint.StartsWith;
    ReadVarintIff(src, 0, rest);
    if ReadVarint(src).Ok? {
      var (len, more) := ReadVarint(src).value;
      ReadVarintIff(src, len, more);
      if ReadBytes(src).Ok? { assert more == ReadBytes(src).value.0 + ReadBytes(src).value.1; }
    }
    if Varint.StartsWithField(src, b, rest) {
      ReadVarintIff(src, |b|, b + rest);
      assert (b + rest)[..|b|] == b && (b + rest)[|b|..] == rest;
    }
  }

  /** The four numbers and the content of a message, and what follows it. */
  ghost predicate SaysMsg(src: Bytes, m: Msg, tail: Bytes) {
    exists rest :: StartsWithAll(src, Fields(m), rest) && Varint.StartsWithField(rest, m.content, tail)
  }

  lemma SaysMsgIff(src: Bytes, m: Msg, tail: Bytes)
    ensures SaysMsg(src, m, tail) <==>
            var r := ReadVarints(src, 4);
            r.Ok? && r.value.0 == Fields(m) && ReadBytes(r.value.1) == Ok((m.content, tail))
  {
    hide StartsWithAll, Varint.StartsWithField, ReadVarints, ReadBytes;
    if SaysMsg(src, m, tail) {
      var rest :| StartsWithAll(src, Fields(m), rest) && Varint.StartsWithField(rest, m.content, tail);
      ReadVarintsIff(src, Fields(m), rest);
      ReadBytesIff(rest, m.content, tail);
    }
    if ReadVarints(src, 4).Ok? && ReadVarints(src, 4).value.0 == Fields(m) {
      ReadVarintsIff(src, Fields(m), ReadVarints(src, 4).value.1);
      ReadBytesIff(ReadVarints(src, 4).value.1, m.content, tail);
    }
  }

  /** A message is decoded exactly from bytes that say it and nothing more; bytes after it
      are counted, and anything else is too short. */
  lemma MsgDecodesIff(src: Bytes, m: Msg, extra: nat)
    ensures DecodeMsg(src) == Ok(m) <==> SaysMsg(src, m, [])
    ensures DecodeMsg(src) == Err(TrailingBytes(extra)) <==>
            extra > 0 && exists n: Msg, tail :: SaysMsg(src, n, tail) && |tail| == extra
    ensures DecodeMsg(src).Err? && DecodeMsg(src).error.PayloadTooShort? ==>
              var e := DecodeMsg(src).error;
              || e == PayloadTooShort(1, 0)
              || exists vs, rest :: |vs| == 4 && StartsWithAll(src, vs, rest) && IsShort(rest, e.need, e.got)
  {
    hide SaysMsg, StartsWithAll, ReadVarints, ReadBytes, IsShort;
    SaysMsgIff(src, m, []);
    if n: Msg, tail :| SaysMsg(src, n, tail) && |tail| == extra { SaysMsgIff(src, n, tail); }
    if ReadVarints(src, 4).Ok? {
      var (vs, rest) := ReadVarints(src, 4).value;
      ReadVarintsIff(src, vs, rest);
      if ReadBytes(rest).Ok? {
        var (content, tail) := ReadBytes(rest).value;
        SaysMsgIff(src, Msg(vs[0], vs[1], vs[2], vs[3], content), tail);
        assert vs == Fields(Msg(vs[0], vs[1], vs[2], vs[3], content));
      } else {
        ReadBytesIff(rest, [], []);
      }
    } else {
      ReadVarintsIff(src, [0, 0, 0, 0], []);
    }
  }

  /** Messages, each behind its length. */
  ghost predicate SaysEach(src: Bytes, ms: seq<Msg>, tail: Bytes)
    decreases |ms|
  {
    if ms == [] then src == tail
    else exists one, rest ::
      Varint.StartsWithField(src, one, rest) && SaysMsg(one, ms[0], []) && SaysEach(rest, ms[1..], tail)
  }

  lemma {:induction false} EachDecodesIff(src: Bytes, ms: seq<Msg>, tail: Bytes)
    ensures DecodeEach(src, |ms|) == Ok((ms, tail)) <==> SaysEach(src, ms, tail)
    decreases |ms|
  {
    hide ReadBytes, DecodeMsg, SaysMsg, Varint.StartsWithField;
    if ms != [] {
      forall one, rest | Varint.StartsWithField(src, one, rest) ensures ReadBytes(src) == Ok((one, rest)) {
        ReadBytesIff(src, one, rest);
      }
      if ReadBytes(src).Ok? {
        var (one, rest) := ReadBytes(src).value;
        ReadBytesIff(src, one, rest);
        MsgDecodesIff(one, ms[0], 0);
        EachDecodesIff(rest, ms[1..], tail);
        assert ms == [ms[0]] + ms[1..];
      }
    }
  }

  lemma {:induction false} EachCount(src: Bytes, n: nat)
    ensures DecodeEach(src, n).Ok? ==> |DecodeEach(src, n).value.0| == n
    decreases n
  {
    hide ReadBytes, DecodeMsg;
    if n > 0 && ReadBytes(src).Ok? { EachCount(ReadBytes(src).value.1, n - 1); }
  }

  /** A batch is decoded exactly from its number, that many messages, and nothing more. */
  lemma SyncRespDecodesIff(src: Bytes, ms: seq<Msg>)
    ensures DecodeSyncResp(src) == Ok(ms) <==>
            |ms| <= U64_MAX && exists rest :: Varint.StartsWith(src, |ms|, rest) && SaysEach(rest, ms, [])
  {
    hide DecodeEach, SaysEach, ReadVarint, Varint.StartsWith;
    if ReadVarint(src).Ok? {
      var (count, rest) := ReadVarint(src).value;
      ReadVarintIff(src, count, rest);
      if count == |ms| { EachDecodesIff(rest, ms, []); }
      EachCount(rest, count);
    }
    if |ms| <= U64_MAX {
      if rest :| Varint.StartsWith(src, |ms|, rest) && SaysEach(rest, ms, []) { ReadVarintIff(src, |ms|, rest); }
    }
  }

  /** The next message of a batch fails: its length or bytes are missing, or it is wrong in itself. */
  ghost predicate FailsAt(src: Bytes, e: ProtocolError) {
    || ReadBytes(src) == Err(e)
    || exists one, rest :: Varint.StartsWithField(src, one, rest) && DecodeMsg(one) == Err(e)
  }

  lemma {:induction false} EachFails(src: Bytes, n: nat) returns (ms: seq<Msg>, mid: Bytes)
    requires DecodeEach(src, n).Err?
    ensures |ms| < n && SaysEach(src, ms, mid) && FailsAt(mid, DecodeEach(src, n).error)
    decreases n
  {
    hide ReadBytes, DecodeMsg, SaysMsg, Varint.StartsWithField;
    if ReadBytes(src).Err? { return [], src; }
    var (one, rest) := ReadBytes(src).value;
    ReadBytesIff(src, one, rest);
    if DecodeMsg(one).Err? { return [], src; }
    var m := DecodeMsg(one).value;
    MsgDecodesIff(one, m, 0);
    var more, end := EachFails(rest, n - 1);
    assert ([m] + more)[1..] == more;
    return [m] + more, end;
  }

  /** A batch is refused for the first of its messages that fails, or for bytes after the last. */
  lemma SyncRespFails(src: Bytes, e: ProtocolError)
    requires DecodeSyncResp(src) == Err(e)
    ensures if ReadVarint(src).Err? then e == PayloadTooShort(1, 0)
            else exists count: u64, rest, ms, mid ::
              && Varint.StartsWith(src, count, rest) && SaysEach(rest, ms, mid)
              && if |ms| < count then FailsAt(mid, e) else |ms| == count && mid != [] && e == TrailingBytes(|mid|)
  {
    hide DecodeEach, SaysEach, ReadVarint, Varint.StartsWith, FailsAt;
    ReadVarintIff(src, 0, []);
    if ReadVarint(src).Ok? {
      var (count, rest) := ReadVarint(src).value;
      ReadVarintIff(src, count, rest);
      if DecodeEach(rest, count).Err? {
        var ms, mid := EachFails(rest, count);
      } else {
        var (ms, tail) := DecodeEach(rest, count).value;
        EachCount(rest, count);
        EachDecodesIff(rest, ms, tail);
      }
    }
  }

  // ------------------------------------------------------------------- the cursor

  class Reader {
    var src: Bytes

    constructor (src: Bytes)
      ensures this.src == src
    {
      this.src := src;
    }

    method NextVarint() returns (r: Result<u64, ProtocolError>)
      modifies this
      ensures var read := ReadVarint(old(src));
              if read.Ok? then r == Ok(read.value.0) && src == read.value.1 else r == Err(read.error) && src == old(src)
    {
      var decoded := Varint.DecodeU64(src);
      match decoded
      case None => return Err(PayloadTooShort(1, 0));
      case Some((value, used)) =>
        src := src[used..];
        return Ok(value);
    }

    method NextBytes() returns (r: Result<Bytes, ProtocolError>)
      modifies this
      ensures var read := ReadBytes(old(src));
              && (read.Ok? ==> r == Ok(read.value.0) && src == read.value.1)
              && (read.Err? ==>
                    && r == Err(read.error)
                    && src == if ReadVarint(old(src)).Ok? then ReadVarint(old(src)).value.1 else old(src))
    {
      var read := NextVarint();
      if read.Err? { return Err(read.error); }
      var len := read.value;
      if |src| < len { return Err(PayloadTooShort(len - |src|, |src|)); }
      r := Ok(src[..len]);
      src := src[len..];
    }

    method Finish() returns (r: Result<bool, ProtocolError>)
      ensures r == if src == [] then Ok(true) else Err(TrailingBytes(|src|))
    {
      return if |src| == 0 then Ok(true) else Err(TrailingBytes(|src|));
    }
  }

  lemma OneMore(src: Bytes, n: nat)
    requires ReadVarint(src).Ok?
    ensures var rest := ReadVarints(ReadVarint(src).value.1, n); var all := ReadVarints(src, n + 1);
            if rest.Ok? then all == Ok(([ReadVarint(src).value.0] + rest.value.0, rest.value.1))
                else all == Err(rest.error)
  {
    hide ReadVarint;
  }

  method Decode(src: Bytes) returns (r: Result<Msg, ProtocolError>)
    ensures r == DecodeMsg(src)
  {
    hide ReadVarint, ReadBytes;
    var reader := new Reader(src);
    ghost var s0 := src;
    var from := reader.NextVarint();
    if from.Err? { return Err(from.error); }
    OneMore(s0, 3);
    ghost var s1 := reader.src;
    var to := reader.NextVarint();
    if to.Err? { return Err(to.error); }
    OneMore(s1, 2);
    ghost var s2 := reader.src;
    var msgId := reader.NextVarint();
    if msgId.Err? { return Err(msgId.error); }
    OneMore(s2, 1);
    ghost var s3 := reader.src;
    var clientMsgId := reader.NextVarint();
    if clientMsgId.Err? { return Err(clientMsgId.error); }
    OneMore(s3, 0);
    assert ReadVarints(reader.src, 0) == Ok(([], reader.src));
    assert [from.value] + ([to.value] + ([msgId.value] + ([clientMsgId.value] + []))) ==
        [from.value, to.value, msgId.value, clientMsgId.value];
    assert ReadVarints(src, 4) == Ok(([from.value, to.value, msgId.value, clientMsgId.value], reader.src));
    hide ReadVarints;
    var content := reader.NextBytes();
    if content.Err? { return Err(content.error); }
    var end := reader.Finish();
    if end.Err? { return Err(end.error); }
    return Ok(Msg(from.value, to.value, msgId.value, clientMsgId.value, content.value));
  }

  function AfterSome(done: seq<Msg>, more: Read<seq<Msg>>): Read<seq<Msg>> {
    match more
    case Err(e) => Err(e)
    case Ok((ms, tail)) => Ok((done + ms, tail))
  }

  lemma AfterNone(more: Read<seq<Msg>>)
    ensures AfterSome([], more) == more
  {
    if more.Ok? { assert [] + more.value.0 == more.value.0; }
  }

  method DecodeBatch(src: Bytes) returns (r: Result<seq<Msg>, ProtocolError>)
    ensures r == DecodeSyncResp(src)
  {
    hide ReadVarint, ReadBytes, DecodeMsg;
    var reader := new Reader(src);
    var count := reader.NextVarint();
    if count.Err? { return Err(count.error); }
    ghost var rest := reader.src;
    var messages: seq<Msg> := [];
    AfterNone(DecodeEach(rest, count.value));
    for i := 0 to count.value
      invariant fresh(reader)
      invariant DecodeEach(rest, count.value) == AfterSome(messages, DecodeEach(reader.src, count.value - i))
    {
      var one := reader.NextBytes();
      if one.Err? { return Err(one.error); }
      var m := Decode(one.value);
      if m.Err? { return Err(m.error); }
      ghost var tail := DecodeEach(reader.src, count.value - i - 1);
      if tail.Ok? { assert messages + ([m.value] + tail.value.0) == (messages + [m.value]) + tail.value.0; }
      messages := messages + [m.value];
    }
    assert messages + [] == messages;
    var end := reader.Finish();
    if end.Err? { return Err(end.error); }
    return Ok(messages);
  }
}
