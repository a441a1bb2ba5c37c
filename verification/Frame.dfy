/** The wire frame: fixed header, three varints, payload, checksum. */
module Frame {
  import opened Wrappers
  import Crc32
  import Varint

  datatype Cmd = Handshake | HandshakeAck | Ping | Pong | Msg | MsgAck | SyncReq | SyncResp

  datatype ProtocolError =
    | BadMagic(magic: nat)
    | UnsupportedVersion(version: byte)
    | UnknownCommand(command: byte)
    | VarintTooLong
    | FrameTooLarge(len: nat, max: nat)
    | CrcMismatch(expected: bv32, received: bv32)

  const MAGIC: nat := 0x494D
  const VERSION: byte := 1
  const HEADER_LEN: nat := 5
  const CRC_LEN: nat := 4

  datatype Frame = Frame(cmd: Cmd, flags: byte, seqNo: u64, ack: u64, payload: Bytes)

  function ToByte(cmd: Cmd): byte {
    match cmd
    case Handshake => 1
    case HandshakeAck => 2
    case Ping => 3
    case Pong => 4
    case Msg => 5
    case MsgAck => 6
    case SyncReq => 7
    case SyncResp => 8
  }

  function TryFrom(value: byte): Result<Cmd, ProtocolError> {
    match value
    case 1 => Ok(Handshake)
    case 2 => Ok(HandshakeAck)
    case 3 => Ok(Ping)
    case 4 => Ok(Pong)
    case 5 => Ok(Msg)
    case 6 => Ok(MsgAck)
    case 7 => Ok(SyncReq)
    case 8 => Ok(SyncResp)
    case _ => Err(UnknownCommand(value))
  }

  /** A byte names a command exactly when it is the byte of that command. */
  lemma CommandBytes(value: byte, cmd: Cmd)
    ensures TryFrom(value) == Ok(cmd) <==> value == ToByte(cmd)
    ensures TryFrom(value).Ok? <==> 1 <= value <= 8
    ensures TryFrom(value).Err? ==> TryFrom(value).error == UnknownCommand(value)
  {}

  function FixedHeader(cmd: Cmd, flags: byte): (h: Bytes)
    ensures |h| == HEADER_LEN
  {
    [MAGIC / 256, MAGIC % 256, VERSION, ToByte(cmd), flags]
  }

  function Header(f: Frame): (h: Bytes)
    ensures |h| == HEADER_LEN
  {
    FixedHeader(f.cmd, f.flags)
  }

  function Fields(f: Frame): Bytes {
    Varint.Encode(f.seqNo) + Varint.Encode(f.ack) + Varint.Encode(|f.payload|)
  }

  /** Everything the checksum covers. */
  function Body(f: Frame): Bytes {
    Header(f) + Fields(f) + f.payload
  }

  function Encode(f: Frame): Bytes {
    Body(f) + Crc32.BigEndian(Crc32.Checksum(Body(f)))
  }

  /** A heartbeat with sequence number 1, byte for byte. */
  lemma PingLayout()
    ensures var head := [0x49, 0x4D, 1, 3, 0, 1, 0, 0];
            Encode(Frame(Ping, 0, 1, 0, [])) == head + Crc32.BigEndian(Crc32.Checksum(head))
  {
    hide Crc32.Checksum, Crc32.BigEndian;
    assert Body(Frame(Ping, 0, 1, 0, [])) == [0x49, 0x4D, 1, 3, 0, 1, 0, 0];
  }

  function EncodedLen(f: Frame): nat {
    HEADER_LEN + Varint.EncodedLen(f.seqNo) + Varint.EncodedLen(f.ack) + Varint.EncodedLen(|f.payload|) + |f.payload|
        + CRC_LEN
  }

  /** The length reserved up front is the length written. */
  lemma EncodedLenIsExact(f: Frame)
    ensures |Encode(f)| == EncodedLen(f)
  {
    Varint.EncodedLenIsExact(f.seqNo);
    Varint.EncodedLenIsExact(f.ack);
    Varint.EncodedLenIsExact(|f.payload|);
  }

  /** The first `i` of the three varint fields. */
  function FieldsUpTo(f: Frame, i: nat): Bytes
    requires i <= 3
  {
    if i == 0 then [] else FieldsUpTo(f, i - 1) + Varint.Encode([f.seqNo, f.ack, |f.payload|][i - 1])
  }

  lemma FieldsAreThree(f: Frame)
    ensures FieldsUpTo(f, 3) == Fields(f)
  {
    var a, b, c := Varint.Encode(f.seqNo), Varint.Encode(f.ack), Varint.Encode(|f.payload|);
    hide Varint.Encode;
    assert FieldsUpTo(f, 1) == FieldsUpTo(f, 0) + a == a;
    assert FieldsUpTo(f, 3) == FieldsUpTo(f, 2) + c && FieldsUpTo(f, 2) == FieldsUpTo(f, 1) + b;
  }

  method EncodeInto(f: Frame, table: seq<bv32>, dst: Bytes) returns (out: Bytes)
    requires |f.payload| <= U64_MAX && Crc32.IsTable(table)
    ensures out == dst + Encode(f)
  {
    hide Crc32.Divide, Crc32.IsTable, Crc32.BigEndian, Crc32.Xor, Varint.Encode, Header;
    var crc := new Crc32.Calculator(table);
    var head := Header(f);
    out := dst + head;
    crc.Update(head);
    assert head + FieldsUpTo(f, 0) == head;
    var values: seq<u64> := [f.seqNo, f.ack, |f.payload|];
    for i := 0 to 3
      invariant out == dst + (head + FieldsUpTo(f, i))
      invariant crc.table == table && crc.state == Crc32.Divide(Crc32.ONES, head + FieldsUpTo(f, i))
    {
      var scratch, n := Varint.EncodeU64(values[i]);
      out := out + scratch;
      crc.Update(scratch);
      Crc32.DivideConcat(Crc32.ONES, head + FieldsUpTo(f, i), scratch);
      assert (head + FieldsUpTo(f, i)) + scratch == head + FieldsUpTo(f, i + 1);
    }
    FieldsAreThree(f);
    out := out + f.payload;
    crc.Update(f.payload);
    Crc32.DivideConcat(Crc32.ONES, head + Fields(f), f.payload);
    var sum := crc.Finish();
    out := out + Crc32.BigEndian(sum);
  }
}
