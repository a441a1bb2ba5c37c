/** Variable-length integers: seven bits a byte, least significant group first. */
module Varint {
  import opened Wrappers
  import opened Arith

  const MAX_VARINT_LEN: nat := 10

  // ---------------------------------------------------------------- encoding

  function Encode(value: nat): Bytes {
    if value < 128 then [value] else [value % 128 + 128] + Encode(value / 128)
  }

  method EncodeU64(value: u64) returns (bytes: Bytes, written: nat)
    ensures bytes == Encode(value) && written == |bytes|
  {
    var rest: nat := value;
    bytes, written := [], 0;
    while true
      invariant bytes + Encode(rest) == Encode(value) && written == |bytes|
      decreases rest
    {
      var low := rest % 128;
      rest := rest / 128;
      if rest == 0 {
        bytes := bytes + [low];
        return bytes, written + 1;
      }
      bytes := bytes + [low + 128];
      written := written + 1;
    }
  }

  /** 64 minus the leading zeros. */
  function BitLength(value: nat): nat {
    if value == 0 then 0 else 1 + BitLength(value / 2)
  }

  function EncodedLen(value: nat): nat {
    var bits := BitLength(value);
    if bits == 0 then 1 else (bits + 6) / 7
  }

  lemma BitLengthOfSeptet(value: nat)
    requires value >= 128
    ensures BitLength(value) == 7 + BitLength(value / 128)
  {
    var a := value / 2; var b := a / 2; var c := b / 2; var d := c / 2; var e := d / 2; var f := e / 2;
    assert f / 2 == value / 128 && f > 0;
    assert BitLength(e) == 2 + BitLength(f / 2);
    assert BitLength(c) == 2 + BitLength(e);
    assert BitLength(a) == 2 + BitLength(c);
  }

  lemma {:induction false} BitLengthBound(value: nat, k: nat)
    requires value < Pow2(k)
    ensures BitLength(value) <= k
    decreases k
  {
    if value > 0 { BitLengthBound(value / 2, k - 1); }
  }

  /** The length computed up front is the length written. */
  lemma {:induction false} EncodedLenIsExact(value: nat)
    ensures |Encode(value)| == EncodedLen(value)
  {
    if value >= 128 {
      EncodedLenIsExact(value / 128);
      BitLengthOfSeptet(value);
      assert BitLength(value / 128) > 0;
    } else {
      assert value < Pow2(7);
      BitLengthBound(value, 7);
    }
  }

  lemma EncodingIsShort(value: u64)
    ensures 1 <= |Encode(value)| <= MAX_VARINT_LEN
  {
    Pow64();
    BitLengthBound(value, 64);
    EncodedLenIsExact(value);
  }

  // ---------------------------------------------------------------- decoding

  datatype Decoder = Decoder(value: u64, shift: nat, count: nat)
  datatype Push = Done(value: u64) | More(next: Decoder) | TooLong

  const START := Decoder(0, 0, 0)

  const TWO_64: nat := 0x1_0000_0000_0000_0000

  /** `value |= (byte & 0x7f) << shift` on 64 bits. */
  function Accumulate(value: u64, group: nat, shift: nat): u64 {
    BitOr(value, Scale(group, shift) % TWO_64) % TWO_64
  }

  function PushByte(d: Decoder, b: byte): Push {
    if d.count + 1 > MAX_VARINT_LEN then TooLong
    else
      var value := Accumulate(d.value, b % 128, d.shift);
      if b < 128 then Done(value) else More(Decoder(value, d.shift + 7, d.count + 1))
  }

  class VarIntDecoder {
    var value: u64
    var shift: nat
    var count: nat

    function View(): Decoder
      reads this
    {
      Decoder(value, shift, count)
    }

    constructor ()
      ensures View() == START
    {
      value, shift, count := 0, 0, 0;
    }

    /** Pick up where an earlier decoder stopped. */
    method Resume(d: Decoder)
      modifies this
      ensures View() == d
    {
      value, shift, count := d.value, d.shift, d.count;
    }

    method Push(b: byte) returns (r: Push)
      modifies this
      ensures r == PushByte(old(View()), b)
      ensures View() == match r
                        case More(next) => next
                        case Done(v) => old(View()).(value := v, count := old(View()).count + 1)
                        case TooLong => old(View()).(count := old(View()).count + 1)
    {
      count := count + 1;
      if count > MAX_VARINT_LEN { return TooLong; }
      value := Accumulate(value, b % 128, shift);
      if b < 128 { return Done(value); }
      shift := shift + 7;
      return More(View());
    }
  }

  /** What a decoder makes of a byte string: the value and the bytes it took. */
  function Scan(d: Decoder, src: Bytes): (r: Option<(u64, nat)>)
    ensures r.Some? ==> 1 <= r.value.1 <= |src|
    decreases |src|
  {
    if src == [] then None
    else
      match PushByte(d, src[0])
      case Done(v) => Some((v, 1))
      case TooLong => None
      case More(next) =>
        match Scan(next, src[1..])
        case None => None
        case Some(r) => Some((r.0, r.1 + 1))
  }

  method DecodeU64(src: Bytes) returns (r: Option<(u64, nat)>)
    ensures r == Scan(START, src)
  {
    var dec := new VarIntDecoder();
    for i := 0 to |src|
      invariant Scan(START, src) == match Scan(dec.View(), src[i..])
                                    case None => None
                                    case Some(q) => Some((q.0, q.1 + i))
    {
      hide PushByte;
      var before := dec.View();
      assert src[i..][0] == src[i] && src[i..][1..] == src[i + 1..];
      var p := dec.Push(src[i]);
      match p
      case Done(v) => return Some((v, i + 1));
      case More(_) =>
      case TooLong => return None;
    }
    return None;
  }

  /** `d` has read `d.count` groups of seven bits. */
  predicate Midway(d: Decoder) {
    d.count < MAX_VARINT_LEN && d.shift == 7 * d.count && d.value < Pow2(d.shift)
  }

  lemma StartIsMidway()
    ensures Midway(START)
  {}

  /** Feeding one group adds it above what was read. */
  lemma PushAdds(d: Decoder, b: byte)
    requires Midway(d) && d.value + Scale(b % 128, d.shift) < TWO_64
    ensures var v := d.value + Scale(b % 128, d.shift);
            PushByte(d, b) == if b < 128 then Done(v) else More(Decoder(v, d.shift + 7, d.count + 1))
  {
    hide Pow2, Scale, BitOr;
    BitOrAbove(d.value, b % 128, d.shift);
  }

  /** Ten groups leave no room for an eleventh. */
  lemma GroupsRunOut(d: Decoder, value: nat)
    requires Midway(d) && value >= 128 && d.value + Scale(value, d.shift) < TWO_64
    ensures d.count + 1 < MAX_VARINT_LEN
  {
    Pow64();
    ScaleGrows(128, value, d.shift);
  }

  lemma NextIsMidway(d: Decoder, b: byte)
    requires Midway(d)
    ensures d.value + Scale(b % 128, d.shift) < Pow2(d.shift + 7)
  {
    Pow2Adds(d.shift, 7);
    Pow64();
    ScaleSum(1, b % 128, d.shift);
    ScaleSum(1 + b % 128, 127 - b % 128, d.shift);
    assert Scale(1, d.shift) == Pow2(d.shift);
    assert Scale(128, d.shift) == Pow2(d.shift + 7);
  }

  lemma Septets(value: nat)
    ensures value == value % 128 + Scale(value / 128, 7)
  {
    Pow64();
  }

  lemma {:induction false} ScanEncoded(d: Decoder, value: nat, rest: Bytes)
    requires Midway(d) && d.value + Scale(value, d.shift) < TWO_64
    ensures Scan(d, Encode(value) + rest) == Some((d.value + Scale(value, d.shift), |Encode(value)|))
    decreases value
  {
    hide PushByte, Scale, Pow2;
    var wire := Encode(value) + rest;
    Septets(value);
    ScaleSplit(value % 128, value / 128, 7, d.shift);
    assert wire[0] % 128 == value % 128;
    PushAdds(d, wire[0]);
    if value >= 128 {
      var next := Decoder(d.value + Scale(value % 128, d.shift), d.shift + 7, d.count + 1);
      GroupsRunOut(d, value);
      NextIsMidway(d, wire[0]);
      assert wire[1..] == Encode(value / 128) + rest;
      ScanEncoded(next, value / 128, rest);
    } else {
      assert value / 128 == 0;
    }
  }

  /** Decoding an encoding gives the number back and takes exactly its bytes. */
  lemma RoundTrip(value: u64, rest: Bytes)
    ensures Scan(START, Encode(value) + rest) == Some((value, |Encode(value)|))
  {
    ScanEncoded(START, value, rest);
  }

  /** Whatever decodes, its own encoding is no longer than the bytes it was read from. */
  lemma {:induction false} DecodedIsNoShorter(d: Decoder, src: Bytes)
    requires Midway(d) && Scan(d, src).Some?
    ensures |Encode(Scan(d, src).value.0)| <= d.count + Scan(d, src).value.1
    decreases |src|
  {
    hide Accumulate, Pow2, Scale, Encode;
    var v := Scan(d, src).value.0;
    if d.count == MAX_VARINT_LEN - 1 {
      EncodingIsShort(v);
    } else {
      NextIsMidway(d, src[0]);
      Pow2Grows(d.shift + 7, 63);
      Pow64();
      PushAdds(d, src[0]);
      if src[0] < 128 {
        BitLengthBound(v, d.shift + 7);
        EncodedLenIsExact(v);
      } else {
        DecodedIsNoShorter(PushByte(d, src[0]).next, src[1..]);
      }
    }
  }

  /** A cut encoding never decodes. */
  lemma {:induction false} CutNeverDecodes(d: Decoder, value: nat, k: nat)
    requires k < |Encode(value)|
    ensures Scan(d, Encode(value)[..k]) == None
    decreases value
  {
    hide Accumulate;
    var cut := Encode(value)[..k];
    if k > 0 && PushByte(d, cut[0]).More? {
      assert cut[1..] == Encode(value / 128)[..k - 1];
      CutNeverDecodes(PushByte(d, cut[0]).next, value / 128, k - 1);
    }
  }

  // ------------------------------------------------------------- what decodes

  /** At most ten bytes, of which all but the last say that more follow. */
  predicate IsVarint(b: Bytes) {
    1 <= |b| <= MAX_VARINT_LEN && b[|b| - 1] < 128 && forall i :: 0 <= i < |b| - 1 ==> b[i] >= 128
  }

  /** The number whose digits to base 128 are the low seven bits, least first. */
  function Groups(b: Bytes): nat {
    if b == [] then 0 else b[0] % 128 + 128 * Groups(b[1..])
  }

  /** What ten groups hold beyond 64 bits is cut off. */
  function Meaning(b: Bytes): u64 {
    Groups(b) % TWO_64
  }

  lemma LastGroup(value: nat, group: nat)
    requires value < Pow2(63) && group < 128
    ensures (value + Scale(group, 63)) % TWO_64 == value + Scale(group % 2, 63)
    ensures Scale(group, 63) % TWO_64 == Scale(group % 2, 63)
  {
    Pow64();
    var q := group / 2;
    assert group == 2 * q + group % 2;
  }

  lemma PushLast(d: Decoder, b: byte)
    requires Midway(d) && d.shift == 63
    requires BitOr(d.value, Scale(b % 128, 63) % TWO_64) == d.value + Scale(b % 128 % 2, 63)
    requires (d.value + Scale(b % 128, 63)) % TWO_64 == d.value + Scale(b % 128 % 2, 63)
    ensures var v := (d.value + Scale(b % 128, 63)) % TWO_64;
            PushByte(d, b) == if b < 128 then Done(v) else More(Decoder(v, d.shift + 7, d.count + 1))
  {
    hide Pow2, Scale, BitOr;
  }

  /** Feeding one group adds it above what was read, on 64 bits. */
  lemma PushAddsOn64(d: Decoder, b: byte)
    requires Midway(d)
    ensures var v := (d.value + Scale(b % 128, d.shift)) % TWO_64;
            PushByte(d, b) == if b < 128 then Done(v) else More(Decoder(v, d.shift + 7, d.count + 1))
    ensures d.count + 1 < MAX_VARINT_LEN ==> d.value + Scale(b % 128, d.shift) < TWO_64
  {
    hide Pow2, Scale, BitOr;
    NextIsMidway(d, b);
    Pow64();
    if d.count + 1 < MAX_VARINT_LEN {
      Pow2Grows(d.shift + 7, 63);
      PushAdds(d, b);
    } else {
      LastGroup(d.value, b % 128);
      BitOrAbove(d.value, b % 128 % 2, 63);
      PushLast(d, b);
    }
  }

  lemma GroupsSplit(b: Bytes)
    requires b != []
    ensures Groups(b) == b[0] % 128 + Scale(Groups(b[1..]), 7)
  {
    Pow64();
    hide Pow2;
  }

  /** Groups in their proper form, whatever follows them. */
  lemma {:induction false} ScanFollows(d: Decoder, b: Bytes, rest: Bytes)
    requires Midway(d) && b != [] && d.count + |b| <= MAX_VARINT_LEN
    requires b[|b| - 1] < 128 && forall i :: 0 <= i < |b| - 1 ==> b[i] >= 128
    ensures Scan(d, b + rest) == Some(((d.value + Scale(Groups(b), d.shift)) % TWO_64, |b|))
    decreases |b|
  {
    hide PushByte, Scale, Pow2;
    var src := b + rest;
    PushAddsOn64(d, src[0]);
    ScaleSplit(b[0] % 128, Groups(b[1..]), 7, d.shift);
    GroupsSplit(b);
    if |b| > 1 {
      NextIsMidway(d, b[0]);
      assert src[1..] == b[1..] + rest;
      ScanFollows(PushByte(d, b[0]).next, b[1..], rest);
    } else {
      assert Groups(b[1..]) == 0;
    }
  }

  /** What is found has the proper form. */
  lemma {:induction false} ScanFinds(d: Decoder, src: Bytes)
    requires Scan(d, src).Some?
    ensures var b := src[..Scan(d, src).value.1];
            d.count + |b| <= MAX_VARINT_LEN && b[|b| - 1] < 128 && forall i :: 0 <= i < |b| - 1 ==> b[i] >= 128
    decreases |src|
  {
    hide Accumulate;
    if src[0] >= 128 { ScanFinds(PushByte(d, src[0]).next, src[1..]); }
  }

  lemma ScaleNone(s: nat)
    requires s == 0
    ensures forall a: nat :: Scale(a, s) == a
  {
    assert Pow2(0) == 1;
  }

  /** A varint decodes to what its groups say, whatever follows it. */
  lemma VarintDecodes(b: Bytes, rest: Bytes)
    requires IsVarint(b)
    ensures Scan(START, b + rest) == Some((Meaning(b), |b|))
  {
    hide Scan, Groups, Pow2, Scale;
    StartIsMidway();
    ScaleNone(START.shift);
    ScanFollows(START, b, rest);
  }

  /** A byte string decodes exactly when it starts with a varint, to the number the
      groups say and with exactly its bytes; longer encodings than needed are taken too. */
  lemma DecodesIff(src: Bytes, value: u64, used: nat)
    ensures Scan(START, src) == Some((value, used)) <==>
            used <= |src| && IsVarint(src[..used]) && value == Meaning(src[..used])
  {
    hide Scan, Meaning;
    if Scan(START, src) == Some((value, used)) {
      ScanFinds(START, src);
      assert src == src[..used] + src[used..];
      VarintDecodes(src[..used], src[used..]);
    } else if used <= |src| && IsVarint(src[..used]) {
      assert src == src[..used] + src[used..];
      VarintDecodes(src[..used], src[used..]);
    }
  }

  lemma EncodingIsVarint(value: u64)
    ensures IsVarint(Encode(value)) && Meaning(Encode(value)) == value
  {
    hide Scan, Encode;
    RoundTrip(value, []);
    assert Encode(value) + [] == Encode(value) && Encode(value)[..|Encode(value)|] == Encode(value);
    DecodesIff(Encode(value), value, |Encode(value)|);
  }

  /** A varint for `value` stands at the front, and `rest` follows it. */
  ghost predicate StartsWith(src: Bytes, value: u64, rest: Bytes) {
    exists a :: IsVarint(a) && Meaning(a) == value && src == a + rest
  }

  /** That is what a scan finds. */
  lemma StartsWithIff(src: Bytes, value: u64, rest: Bytes)
    ensures StartsWith(src, value, rest) <==>
            var r := Scan(START, src); r.Some? && r.value.0 == value && src[r.value.1..] == rest
  {
    hide Scan, Meaning, IsVarint;
    var r := Scan(START, src);
    if r.Some? {
      DecodesIff(src, r.value.0, r.value.1);
      assert src == src[..r.value.1] + src[r.value.1..];
    }
    if a :| IsVarint(a) && Meaning(a) == value && src == a + rest {
      VarintDecodes(a, rest);
    }
  }

  /** So does a length, with as many bytes after it. */
  ghost predicate StartsWithField(src: Bytes, b: Bytes, rest: Bytes) {
    |b| <= U64_MAX && StartsWith(src, |b|, b + rest)
  }
}
