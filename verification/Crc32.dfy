/**
 CRC-32 (the frame check sequence of IEEE 802.3): the table-driven calculator
 against bit-serial division, and its burst-error detection.
 */
module Crc32 {
  import opened Wrappers
  import opened Arith

  const POLY: bv32 := 0xEDB8_8320
  const ONES: bv32 := 0xFFFF_FFFF
  const NOT_BYTE: bv32 := 0xFFFF_FF00

  // The word operations have names so that proofs can treat them as an algebra.
  function Xor(a: bv32, b: bv32): bv32 { a ^ b }
  function Half(c: bv32): bv32 { c >> 1 }
  function Odd(c: bv32): bool { c & 1 != 0 }
  function LowByte(c: bv32): bv32 { c & 0xFF }
  function DropByte(c: bv32): bv32 { c >> 8 }
  function Double(c: bv32, bit: bool): bv32 { (c << 1) | (if bit then 1 else 0) }

  /** The register holding the binary digits of `n` (`u32::from`). */
  function FromNat(n: nat): bv32 {
    if n == 0 then 0 else Double(FromNat(n / 2), n % 2 == 1)
  }

  /** The number written in the `k` low bits of a register. */
  function Value(x: bv32, k: nat): nat
    decreases k
  {
    if k == 0 then 0 else (if Odd(x) then 1 else 0) + 2 * Value(Half(x), k - 1)
  }

  // ------------------------------------------- reference: bit-serial division

  /** Feed one message bit to the reflected division register. */
  function DivideBit(c: bv32, bit: bool): bv32 {
    if Odd(c) != bit then Xor(POLY, Half(c)) else Half(c)
  }

  /** Feed the `k` low bits of `b`, least significant first. */
  function DivideBits(c: bv32, b: nat, k: nat): bv32
    decreases k
  {
    if k == 0 then c else DivideBits(DivideBit(c, b % 2 == 1), b / 2, k - 1)
  }

  function DivideByte(c: bv32, b: byte): bv32 {
    DivideBits(c, b, 8)
  }

  function Divide(c: bv32, bytes: Bytes): bv32 {
    if bytes == [] then c else DivideByte(Divide(c, bytes[..|bytes| - 1]), bytes[|bytes| - 1])
  }

  /** The checksum of a message: all-ones register in, complement out. */
  function Checksum(bytes: Bytes): bv32 {
    Xor(Divide(ONES, bytes), ONES)
  }

  /** Feeding a message in pieces is feeding it whole. */
  lemma {:induction false} DivideConcat(c: bv32, a: Bytes, b: Bytes)
    ensures Divide(c, a + b) == Divide(Divide(c, a), b)
  {
    hide DivideByte;
    if b == [] {
      assert a + b == a;
    } else {
      assert (a + b)[..|a + b| - 1] == a + b[..|b| - 1];
      DivideConcat(c, a, b[..|b| - 1]);
    }
  }

  // ------------------------------------------------------ algebra of rounds

  lemma XorHalf(a: bv32, b: bv32)
    ensures Half(Xor(a, b)) == Xor(Half(a), Half(b))
  {}

  lemma XorOdd(a: bv32, b: bv32)
    ensures Odd(Xor(a, b)) == (Odd(a) != Odd(b))
  {}

  lemma XorAssoc(p: bv32, a: bv32, b: bv32)
    ensures Xor(Xor(p, a), b) == Xor(p, Xor(a, b))
  {}

  lemma XorSwap(p: bv32, a: bv32, b: bv32)
    ensures Xor(a, Xor(p, b)) == Xor(p, Xor(a, b))
  {}

  lemma XorTwice(p: bv32, x: bv32)
    ensures Xor(p, Xor(p, x)) == x
  {}

  lemma XorCancel(p: bv32, a: bv32, b: bv32)
    ensures Xor(Xor(p, a), Xor(p, b)) == Xor(a, b)
  {
    hide Xor;
    XorAssoc(p, a, Xor(p, b));
    XorSwap(p, a, b);
    XorTwice(p, Xor(a, b));
  }

  lemma XorInjective(p: bv32, a: bv32, b: bv32)
    requires Xor(p, a) == Xor(p, b) || Xor(a, p) == Xor(b, p)
    ensures a == b
  {}

  /** One round of the table generator. */
  function Round(c: bv32): bv32 {
    if Odd(c) then Xor(POLY, Half(c)) else Half(c)
  }

  function Rounds(c: bv32, k: nat): bv32
    decreases k
  {
    if k == 0 then c else Rounds(Round(c), k - 1)
  }

  lemma RoundXor(a: bv32, b: bv32)
    ensures Round(Xor(a, b)) == Xor(Round(a), Round(b))
  {
    hide Xor, Half, Odd;
    XorHalf(a, b);
    XorOdd(a, b);
    XorCancel(POLY, Half(a), Half(b));
    XorAssoc(POLY, Half(a), Half(b));
    XorSwap(POLY, Half(a), Half(b));
  }

  lemma {:induction false} RoundsXor(a: bv32, b: bv32, k: nat)
    ensures Rounds(Xor(a, b), k) == Xor(Rounds(a, k), Rounds(b, k))
    decreases k
  {
    hide Xor, Round;
    if k > 0 {
      RoundXor(a, b);
      RoundsXor(Round(a), Round(b), k - 1);
    }
  }

  lemma {:induction false} RoundsAdd(c: bv32, j: nat, k: nat)
    ensures Rounds(Rounds(c, j), k) == Rounds(c, j + k)
    decreases j
  {
    hide Round;
    if j > 0 { RoundsAdd(Round(c), j - 1, k); }
  }

  /** A round can be undone: the top bit tells whether the polynomial went in. */
  function Unround(c: bv32): bv32 {
    if c & 0x8000_0000 != 0 then ((c ^ POLY) << 1) | 1 else c << 1
  }

  lemma UnroundEven(c: bv32)
    requires c & 1 == 0
    ensures (c >> 1) & 0x8000_0000 == 0 && (c >> 1) << 1 == c
  {}

  lemma UnroundOdd(c: bv32)
    requires c & 1 != 0
    ensures (0xEDB8_8320 ^ (c >> 1)) & 0x8000_0000 != 0
    ensures (((0xEDB8_8320 ^ (c >> 1)) ^ 0xEDB8_8320) << 1) | 1 == c
  {}

  lemma RoundUndone(c: bv32)
    ensures Unround(Round(c)) == c
  {
    if c & 1 != 0 { UnroundOdd(c); } else { UnroundEven(c); }
  }

  lemma {:induction false} RoundsAreInjective(a: bv32, b: bv32, k: nat)
    requires Rounds(a, k) == Rounds(b, k)
    ensures a == b
    decreases k
  {
    hide Round, Unround;
    if k > 0 {
      RoundsAreInjective(Round(a), Round(b), k - 1);
      RoundUndone(a);
      RoundUndone(b);
    }
  }

  // ------------------------------------------------- numbers in a register

  /** All bits from `k` up. */
  function High(k: nat): bv32 {
    if k == 0 then ONES else High(k - 1) << 1
  }

  predicate Clear(x: bv32, mask: bv32) { x & mask == 0 }

  lemma DoubleFits(f: bv32, bit: bool, high: bv32)
    requires Clear(f, high)
    ensures Clear(Double(f, bit), high << 1)
  {}

  lemma DoubleUndone(f: bv32, bit: bool)
    requires Clear(f, NOT_BYTE)
    ensures Half(Double(f, bit)) == f && Odd(Double(f, bit)) == bit
  {}

  lemma HighFalls(x: bv32, high: bv32)
    requires Clear(x, high << 1)
    ensures Clear(Half(x), high)
  {}

  lemma ZeroFits(high: bv32)
    ensures Clear(0, high)
  {}

  lemma {:induction false} FromNatFits(n: nat, k: nat)
    requires n < Pow2(k)
    ensures Clear(FromNat(n), High(k))
    decreases k
  {
    if n > 0 {
      hide Double, Clear;
      FromNatFits(n / 2, k - 1);
      DoubleFits(FromNat(n / 2), n % 2 == 1, High(k - 1));
    } else {
      ZeroFits(High(k));
    }
  }

  lemma ByteMask()
    ensures High(8) == NOT_BYTE && Pow2(8) == 256
  {
    assert High(4) == 0xFFFF_FFF0;
    assert High(8) == NOT_BYTE;
    assert Pow2(8) == 256;
  }

  lemma ByteFits(b: byte)
    ensures Clear(FromNat(b), NOT_BYTE)
  {
    hide FromNat, Clear, High;
    ByteMask();
    FromNatFits(b, 8);
  }

  lemma ZeroIsEven()
    ensures Double(0, false) == 0 && Half(0) == 0 && !Odd(0)
  {}

  /** Halving a byte's register is halving the byte. */
  lemma FromNatHalf(b: byte)
    ensures Half(FromNat(b)) == FromNat(b / 2) && Odd(FromNat(b)) == (b % 2 == 1)
  {
    if b == 0 {
      ZeroIsEven();
    } else {
      hide Half, Odd, Double, Clear;
      ByteFits(b / 2);
      DoubleUndone(FromNat(b / 2), b % 2 == 1);
    }
  }

  lemma {:induction false} ValueOfFromNat(b: byte, k: nat)
    requires b < Pow2(k)
    ensures Value(FromNat(b), k) == b
    decreases k
  {
    hide FromNat, Half, Odd;
    if k > 0 {
      FromNatHalf(b);
      ValueOfFromNat(b / 2, k - 1);
    }
  }

  lemma DoubleHalf(x: bv32)
    ensures Double(Half(x), Odd(x)) == x
  {}

  lemma ValueStep(x: bv32, k: nat)
    requires Clear(x, High(k)) && k > 0
    ensures Clear(Half(x), High(k - 1))
  {
    hide Clear, Half;
    HighFalls(x, High(k - 1));
  }

  lemma NoValue(x: bv32)
    requires Clear(x, High(0))
    ensures x == FromNat(0)
  {}

  lemma FromNatUnfolds(v: nat)
    ensures FromNat(v) == Double(FromNat(v / 2), v % 2 == 1)
  {
    ZeroIsEven();
  }

  lemma {:induction false} FromNatOfValue(x: bv32, k: nat)
    requires Clear(x, High(k))
    ensures FromNat(Value(x, k)) == x && Value(x, k) < Pow2(k)
    decreases k
  {
    hide Half, Odd, Double, Clear, High, FromNat;
    if k == 0 {
      NoValue(x);
    } else {
      ValueStep(x, k);
      FromNatOfValue(Half(x), k - 1);
      var v := Value(x, k);
      assert v / 2 == Value(Half(x), k - 1) && (v % 2 == 1) == Odd(x);
      DoubleHalf(x);
      FromNatUnfolds(v);
    }
  }

  // ----------------------------------------------- a byte is eight rounds

  lemma RoundDivide(c: bv32, b: byte)
    ensures Round(Xor(c, FromNat(b))) == Xor(DivideBit(c, b % 2 == 1), FromNat(b / 2))
  {
    hide Xor, Half, Odd, FromNat;
    XorHalf(c, FromNat(b));
    XorOdd(c, FromNat(b));
    FromNatHalf(b);
    XorAssoc(POLY, Half(c), FromNat(b / 2));
  }

  lemma XorZero(c: bv32)
    ensures Xor(c, 0) == c
  {}

  /** A byte mixed into the register and `k` rounds is `k` bits of division. */
  lemma {:induction false} DivideIsRounds(c: bv32, b: byte, k: nat)
    requires b < Pow2(k)
    ensures DivideBits(c, b, k) == Rounds(Xor(c, FromNat(b)), k)
    decreases k
  {
    hide Xor, Round, DivideBit;
    if k > 0 {
      RoundDivide(c, b);
      DivideIsRounds(DivideBit(c, b % 2 == 1), b / 2, k - 1);
    } else {
      XorZero(c);
    }
  }

  lemma DivideByteIsRounds(c: bv32, b: byte)
    ensures DivideByte(c, b) == Rounds(Xor(c, FromNat(b)), 8)
  {
    hide Xor, Rounds, DivideBits, FromNat;
    ByteMask();
    DivideIsRounds(c, b, 8);
  }

  // ------------------------------------------------------- the lookup table

  predicate IsTable(table: seq<bv32>) {
    |table| == 256 && forall i: byte :: table[i] == Rounds(FromNat(i), 8)
  }

  method MakeTable() returns (table: array<bv32>)
    ensures fresh(table) && IsTable(table[..])
  {
    hide Odd, Xor, Half, FromNat;
    table := new bv32[256];
    var i := 0;
    while i < 256
      invariant 0 <= i <= 256
      invariant forall j: byte :: j < i ==> table[j] == Rounds(FromNat(j), 8)
    {
      var c := FromNat(i);
      var k := 0;
      while k < 8
        invariant 0 <= k <= 8
        invariant Rounds(c, 8 - k) == Rounds(FromNat(i), 8)
        invariant forall j: byte :: j < i ==> table[j] == Rounds(FromNat(j), 8)
      {
        c := if Odd(c) then Xor(POLY, Half(c)) else Half(c);
        k := k + 1;
      }
      table[i] := c;
      i := i + 1;
    }
  }

  lemma HalfEmpty(h: bv32, k: bv32)
    requires 0 < k <= 0xFF && h & k == 0 && k & 1 == 1
    ensures Round(h) == h >> 1 && (h >> 1) & (k >> 1) == 0
  {}

  lemma ShiftEight(h: bv32)
    ensures (((((((h >> 1) >> 1) >> 1) >> 1) >> 1) >> 1) >> 1) >> 1 == h >> 8
  {}

  /** While the low byte is empty a round is a plain shift. */
  lemma ShiftOnly(h: bv32)
    requires LowByte(h) == 0
    ensures Rounds(h, 8) == DropByte(h)
  {
    var h1 := h >> 1; var h2 := h1 >> 1; var h3 := h2 >> 1; var h4 := h3 >> 1;
    var h5 := h4 >> 1; var h6 := h5 >> 1; var h7 := h6 >> 1;
    HalfEmpty(h, 0xFF); HalfEmpty(h1, 0x7F); HalfEmpty(h2, 0x3F); HalfEmpty(h3, 0x1F);
    HalfEmpty(h4, 0xF); HalfEmpty(h5, 0x7); HalfEmpty(h6, 0x3); HalfEmpty(h7, 0x1);
    ShiftEight(h);
    hide Round;
    assert Rounds(h6, 2) == h7 >> 1 by { assert Rounds(h7, 1) == Rounds(h7 >> 1, 0); }
    assert Rounds(h4, 4) == Rounds(h6, 2);
    assert Rounds(h2, 6) == Rounds(h4, 4);
    assert Rounds(h, 8) == Rounds(h2, 6);
  }

  lemma Parts(x: bv32)
    ensures x == Xor(x & NOT_BYTE, LowByte(x))
    ensures LowByte(x & NOT_BYTE) == 0
    ensures DropByte(x & NOT_BYTE) == DropByte(x)
  {}

  /** One table step: the high bits shift down, the low byte is looked up. */
  lemma TableStep(x: bv32)
    ensures Rounds(x, 8) == Xor(DropByte(x), Rounds(LowByte(x), 8))
  {
    hide Rounds, Xor, LowByte, DropByte;
    Parts(x);
    RoundsXor(x & NOT_BYTE, LowByte(x), 8);
    ShiftOnly(x & NOT_BYTE);
  }

  lemma LowByteFits(x: bv32)
    ensures Clear(LowByte(x), NOT_BYTE)
  {}

  lemma SlotIsLowByte(x: bv32)
    ensures Value(LowByte(x), 8) < 256 && FromNat(Value(LowByte(x), 8)) == LowByte(x)
  {
    hide LowByte, Clear, FromNat, Value, High;
    LowByteFits(x);
    ByteMask();
    FromNatOfValue(LowByte(x), 8);
  }

  /** The table slot for a register value: its low byte. */
  function Slot(x: bv32): byte
  {
    SlotIsLowByte(x);
    Value(LowByte(x), 8)
  }

  lemma DropLow(state: bv32, x: bv32)
    requires Clear(x, NOT_BYTE)
    ensures DropByte(Xor(state, x)) == DropByte(state)
  {}

  lemma TableUpdate(table: seq<bv32>, state: bv32, b: byte)
    requires IsTable(table)
    ensures Xor(DropByte(state), table[Slot(Xor(state, FromNat(b)))]) == DivideByte(state, b)
  {
    hide Rounds, Xor, LowByte, DropByte, DivideByte, FromNat, Clear;
    var x := Xor(state, FromNat(b));
    SlotIsLowByte(x);
    TableStep(x);
    ByteFits(b);
    DropLow(state, FromNat(b));
    DivideByteIsRounds(state, b);
  }

  lemma TableSize(table: seq<bv32>)
    requires IsTable(table)
    ensures |table| == 256
  {}

  /** The calculator's inner loop: one lookup a byte. */
  method UpdateState(table: seq<bv32>, start: bv32, bytes: Bytes) returns (state: bv32)
    requires IsTable(table)
    ensures state == Divide(start, bytes)
  {
    hide IsTable, Xor, DropByte, Slot, FromNat, DivideByte;
    state := start;
    for i := 0 to |bytes|
      invariant state == Divide(start, bytes[..i])
    {
      assert bytes[..i + 1][..i] == bytes[..i];
      TableUpdate(table, state, bytes[i]);
      TableSize(table);
      state := Xor(DropByte(state), table[Slot(Xor(state, FromNat(bytes[i])))]);
    }
    assert bytes[..|bytes|] == bytes;
  }

  class Calculator {
    const table: seq<bv32>
    var state: bv32

    ghost predicate Valid() {
      IsTable(table)
    }

    constructor (table: seq<bv32>)
      requires IsTable(table)
      ensures this.table == table && state == ONES
    {
      this.table := table;
      state := ONES;
    }

    method Update(bytes: Bytes)
      requires Valid()
      modifies this
      ensures state == Divide(old(state), bytes)
    {
      state := UpdateState(table, state, bytes);
    }

    method Finish() returns (crc: bv32)
      ensures crc == Xor(state, ONES)
    {
      crc := Xor(state, ONES);
    }
  }

  /** The whole calculation in one call. */
  method ChecksumOf(bytes: Bytes) returns (crc: bv32)
    ensures crc == Checksum(bytes)
  {
    var table := MakeTable();
    var calculator := new Calculator(table[..]);
    calculator.Update(bytes);
    crc := calculator.Finish();
  }

  // --------------------------------------------------------- burst detection

  function UpByte(c: bv32): bv32 { c << 8 }

  lemma UpByteShifts(u: bv32)
    requires u < 0x0100_0000
    ensures LowByte(UpByte(u)) == 0 && DropByte(UpByte(u)) == u
  {}

  /** Mixing in after eight rounds is mixing in one byte higher before them. */
  lemma Commute(x: bv32, u: bv32)
    requires u < 0x0100_0000
    ensures Xor(Rounds(x, 8), u) == Rounds(Xor(x, UpByte(u)), 8)
  {
    hide Rounds, Xor, UpByte, LowByte, DropByte;
    UpByteShifts(u);
    RoundsXor(x, UpByte(u), 8);
    ShiftOnly(UpByte(u));
  }

  function UpBytes(u: bv32, j: nat): bv32
    decreases j
  {
    if j == 0 then u else UpBytes(UpByte(u), j - 1)
  }

  lemma UpFits(u: bv32, j: nat)
    requires Clear(u, NOT_BYTE) && j < 3
    ensures UpBytes(u, j) < 0x0100_0000
  {
    assert u < 0x100 && UpByte(u) < 0x1_0000 && UpByte(UpByte(u)) < 0x0100_0000;
    hide UpByte;
    assert UpBytes(UpByte(u), 0) == UpByte(u);
    assert UpBytes(u, 1) == UpBytes(UpByte(u), 0);
    assert UpBytes(u, 2) == UpBytes(UpByte(u), 1) == UpBytes(UpByte(UpByte(u)), 0);
  }

  lemma RoundsNone(c: bv32)
    ensures Rounds(c, 0) == c
  {}

  lemma {:induction false} CommuteMany(x: bv32, u: bv32, j: nat)
    requires forall i: nat :: i < j ==> UpBytes(u, i) < 0x0100_0000
    ensures Xor(Rounds(x, 8 * j), u) == Rounds(Xor(x, UpBytes(u, j)), 8 * j)
    decreases j
  {
    hide Rounds, Xor, UpByte;
    if j == 0 {
      assert Rounds(x, 0) == x by { RoundsNone(x); }
      RoundsNone(Xor(x, u));
    } else {
      var before := Rounds(x, 8 * (j - 1));
      RoundsAdd(x, 8 * (j - 1), 8);
      assert UpBytes(u, 0) < 0x0100_0000;
      Commute(before, u);
      assert forall i: nat :: i < j - 1 ==> UpBytes(UpByte(u), i) == UpBytes(u, i + 1);
      CommuteMany(x, UpByte(u), j - 1);
      RoundsAdd(Xor(x, UpBytes(u, j)), 8 * (j - 1), 8);
    }
  }

  /** The first bytes of a window, mixed in below one another. */
  function Mixed(c: bv32, w: Bytes, k: nat): bv32
    requires k <= |w|
  {
    if k == 0 then c else Xor(Mixed(c, w, k - 1), UpBytes(FromNat(w[k - 1]), k - 1))
  }

  lemma NextByte(x: bv32, b: byte, k: nat)
    requires k < 4
    ensures Rounds(Xor(Rounds(x, 8 * k), FromNat(b)), 8) == Rounds(Xor(x, UpBytes(FromNat(b), k)), 8 * (k + 1))
  {
    hide Rounds, Xor, UpByte, UpBytes, FromNat, Clear;
    ByteFits(b);
    forall i: nat | i < k ensures UpBytes(FromNat(b), i) < 0x0100_0000 { UpFits(FromNat(b), i); }
    CommuteMany(x, FromNat(b), k);
    RoundsAdd(Xor(x, UpBytes(FromNat(b), k)), 8 * k, 8);
  }

  lemma OneByte(c: bv32, w: Bytes, k: nat)
    requires k < |w| || k == 0
    ensures k < |w| ==> Divide(c, w[..k + 1]) == Rounds(Xor(Divide(c, w[..k]), FromNat(w[k])), 8)
    ensures k == 0 ==> Divide(c, w[..k]) == c
  {
    hide Rounds, Xor, FromNat, DivideByte;
    if k < |w| {
      assert w[..k + 1][..k] == w[..k];
      DivideByteIsRounds(Divide(c, w[..k]), w[k]);
    }
  }

  /** Up to four bytes of division are eight rounds each on the mixed register. */
  lemma {:induction false} WindowIsRounds(c: bv32, w: Bytes, k: nat)
    requires k <= |w| && k <= 4
    ensures Divide(c, w[..k]) == Rounds(Mixed(c, w, k), 8 * k)
  {
    hide Divide, Rounds, Xor, UpByte, UpBytes, FromNat;
    if k == 0 {
      OneByte(c, w, k);
      RoundsNone(c);
    } else {
      WindowIsRounds(c, w, k - 1);
      OneByte(c, w, k - 1);
      NextByte(Mixed(c, w, k - 1), w[k - 1], k - 1);
    }
  }

  /** Four bytes as one word, first byte lowest. */
  function Word(a: bv32, b: bv32, c: bv32, d: bv32): bv32 {
    Xor(Xor(Xor(a, UpByte(b)), UpByte(UpByte(c))), UpByte(UpByte(UpByte(d))))
  }

  lemma RawWordIsInjective(a: bv32, b: bv32, c: bv32, d: bv32, e: bv32, f: bv32, g: bv32, h: bv32)
    requires a & NOT_BYTE == 0 && b & NOT_BYTE == 0 && c & NOT_BYTE == 0 && d & NOT_BYTE == 0
    requires e & NOT_BYTE == 0 && f & NOT_BYTE == 0 && g & NOT_BYTE == 0 && h & NOT_BYTE == 0
    requires ((a ^ (b << 8)) ^ ((c << 8) << 8)) ^ (((d << 8) << 8) << 8) ==
        ((e ^ (f << 8)) ^ ((g << 8) << 8)) ^ (((h << 8) << 8) << 8)
    ensures a == e && b == f && c == g && d == h
  {}

  lemma WordIsInjective(a: bv32, b: bv32, c: bv32, d: bv32, e: bv32, f: bv32, g: bv32, h: bv32)
    requires Clear(a, NOT_BYTE) && Clear(b, NOT_BYTE) && Clear(c, NOT_BYTE) && Clear(d, NOT_BYTE)
    requires Clear(e, NOT_BYTE) && Clear(f, NOT_BYTE) && Clear(g, NOT_BYTE) && Clear(h, NOT_BYTE)
    requires Word(a, b, c, d) == Word(e, f, g, h)
    ensures a == e && b == f && c == g && d == h
  {
    RawWordIsInjective(a, b, c, d, e, f, g, h);
  }

  function WordOf(w: Bytes): bv32
    requires |w| == 4
  {
    Word(FromNat(w[0]), FromNat(w[1]), FromNat(w[2]), FromNat(w[3]))
  }

  lemma MixedIsWord(c: bv32, w: Bytes)
    requires |w| == 4
    ensures Mixed(c, w, 4) == Xor(c, WordOf(w))
  {
    hide Xor, UpByte, FromNat;
    var a, b, d, e := FromNat(w[0]), FromNat(w[1]), FromNat(w[2]), FromNat(w[3]);
    var v, x, y := UpByte(b), UpByte(UpByte(d)), UpByte(UpByte(UpByte(e)));
    assert UpBytes(a, 0) == a && UpBytes(b, 1) == UpBytes(v, 0) == v;
    assert UpBytes(d, 2) == UpBytes(UpByte(d), 1) == UpBytes(x, 0) == x;
    assert UpBytes(e, 3) == UpBytes(UpByte(e), 2) == UpBytes(UpByte(UpByte(e)), 1) == UpBytes(y, 0) == y;
    assert Mixed(c, w, 2) == Xor(Mixed(c, w, 1), v) && Mixed(c, w, 1) == Xor(c, a);
    assert Mixed(c, w, 4) == Xor(Mixed(c, w, 3), y) && Mixed(c, w, 3) == Xor(Mixed(c, w, 2), x);
    XorAssoc(c, a, v);
    XorAssoc(c, Xor(a, v), x);
    XorAssoc(c, Xor(Xor(a, v), x), y);
  }

  lemma FromNatIsInjective(a: byte, b: byte)
    requires FromNat(a) == FromNat(b)
    ensures a == b
  {
    hide FromNat;
    ByteMask();
    ValueOfFromNat(a, 8);
    ValueOfFromNat(b, 8);
  }

  lemma WordOfIsInjective(v: Bytes, w: Bytes)
    requires |v| == |w| == 4 && WordOf(v) == WordOf(w)
    ensures v == w
  {
    hide FromNat, Word, Clear;
    ByteFits(v[0]); ByteFits(v[1]); ByteFits(v[2]); ByteFits(v[3]);
    ByteFits(w[0]); ByteFits(w[1]); ByteFits(w[2]); ByteFits(w[3]);
    WordIsInjective(FromNat(v[0]), FromNat(v[1]), FromNat(v[2]), FromNat(v[3]),
                    FromNat(w[0]), FromNat(w[1]), FromNat(w[2]), FromNat(w[3]));
    forall k | 0 <= k < 4 ensures v[k] == w[k] {
      FromNatIsInjective(v[k], w[k]);
    }
  }

  /** From one register value, different windows of up to four bytes lead apart. */
  lemma WindowsLeadApart(c: bv32, v: Bytes, w: Bytes)
    requires |v| == |w| <= 4 && Divide(c, v) == Divide(c, w)
    ensures v == w
  {
    hide Rounds, Xor, WordOf, Divide;
    var zeros := seq(4 - |v|, _ => 0);
    DivideConcat(c, v, zeros);
    DivideConcat(c, w, zeros);
    var v4, w4 := v + zeros, w + zeros;
    assert v4[..4] == v4 && w4[..4] == w4;
    WindowIsRounds(c, v4, 4);
    WindowIsRounds(c, w4, 4);
    MixedIsWord(c, v4);
    MixedIsWord(c, w4);
    RoundsAreInjective(Xor(c, WordOf(v4)), Xor(c, WordOf(w4)), 32);
    XorInjective(c, WordOf(v4), WordOf(w4));
    WordOfIsInjective(v4, w4);
    assert v == (v + zeros)[..|v|] && w == (w + zeros)[..|v|];
  }

  /** Registers once apart stay apart. */
  lemma {:induction false} StayApart(c: bv32, d: bv32, bytes: Bytes)
    requires Divide(c, bytes) == Divide(d, bytes)
    ensures c == d
  {
    hide Rounds, Xor, FromNat, DivideByte;
    if bytes != [] {
      var front, last := bytes[..|bytes| - 1], bytes[|bytes| - 1];
      var x, y := Divide(c, front), Divide(d, front);
      DivideByteIsRounds(x, last);
      DivideByteIsRounds(y, last);
      RoundsAreInjective(Xor(x, FromNat(last)), Xor(y, FromNat(last)), 8);
      XorInjective(FromNat(last), x, y);
      StayApart(c, d, front);
    }
  }

  /** Equally long, and different at most at four places from `at` on. */
  predicate BurstAt(a: Bytes, b: Bytes, at: nat) {
    |a| == |b| && forall i :: 0 <= i < |a| && !(at <= i < at + 4) ==> a[i] == b[i]
  }

  /** Two messages of one length that differ only within four consecutive bytes
      never share a checksum. */
  lemma BurstIsDetected(a: Bytes, b: Bytes, at: nat)
    requires BurstAt(a, b, at) && a != b
    ensures Checksum(a) != Checksum(b)
  {
    hide Divide, Xor;
    var lo := if at < |a| then at else |a|;
    var hi := if at + 4 < |a| then at + 4 else |a|;
    assert a == a[..lo] + a[lo..hi] + a[hi..] && b == a[..lo] + b[lo..hi] + a[hi..];
    assert a[lo..hi] != b[lo..hi];
    DivideConcat(ONES, a[..lo] + a[lo..hi], a[hi..]);
    DivideConcat(ONES, a[..lo], a[lo..hi]);
    DivideConcat(ONES, a[..lo] + b[lo..hi], a[hi..]);
    DivideConcat(ONES, a[..lo], b[lo..hi]);
    if Checksum(a) == Checksum(b) {
      XorInjective(ONES, Divide(ONES, a), Divide(ONES, b));
      StayApart(Divide(ONES, a[..lo] + a[lo..hi]), Divide(ONES, a[..lo] + b[lo..hi]), a[hi..]);
      WindowsLeadApart(Divide(ONES, a[..lo]), a[lo..hi], b[lo..hi]);
    }
  }

  lemma DivideSnoc(c: bv32, bytes: Bytes, b: byte)
    ensures Divide(c, bytes + [b]) == DivideByte(Divide(c, bytes), b)
  {
    assert (bytes + [b])[..|bytes|] == bytes;
  }

  lemma HalfBytes(c: bv32, b: byte)
    ensures DivideByte(c, b) == DivideBits(DivideBits(c, b, 4), b / 16, 4)
  {
    hide DivideBit;
  }

  lemma FourBits(c: bv32, b: nat, c1: bv32, c2: bv32, c3: bv32, c4: bv32)
    requires DivideBit(c, b % 2 == 1) == c1 && DivideBit(c1, b / 2 % 2 == 1) == c2
    requires DivideBit(c2, b / 4 % 2 == 1) == c3 && DivideBit(c3, b / 8 % 2 == 1) == c4
    ensures DivideBits(c, b, 4) == c4
  {
    hide DivideBit;
    assert b / 2 / 2 == b / 4 && b / 4 / 2 == b / 8;
  }

  lemma LetterA()
    ensures DivideByte(0xFFFF_FFFF, 97) == 0x1748_41BC
  {
    hide DivideByte, DivideBits;
    HalfBytes(0xFFFF_FFFF, 97);
    FourBits(0xFFFF_FFFF, 97, 0x7FFF_FFFF, 0xD247_7CDF, 0x849B_3D4F, 0xAFF5_1D87);
    FourBits(0xAFF5_1D87, 6, 0xBA42_0DE3, 0x5D21_06F1, 0x2E90_8378, 0x1748_41BC);
  }

  lemma LetterB()
    ensures DivideByte(0x1748_41BC, 98) == 0x617C_B792
  {
    hide DivideByte, DivideBits;
    HalfBytes(0x1748_41BC, 98);
    FourBits(0x1748_41BC, 98, 0x0BA4_20DE, 0xE86A_934F, 0x998D_CA87, 0xA17E_6663);
    FourBits(0xA17E_6663, 6, 0xBD07_B011, 0x5E83_D808, 0xC2F9_6F24, 0x617C_B792);
  }

  lemma LetterC()
    ensures DivideByte(0x617C_B792, 99) == 0xCADB_BE3D
  {
    hide DivideByte, DivideBits;
    HalfBytes(0x617C_B792, 99);
    FourBits(0x617C_B792, 99, 0xDD06_D8E9, 0x6E83_6C74, 0x3741_B63A, 0x1BA0_DB1D);
    FourBits(0x1BA0_DB1D, 6, 0xE068_EEAE, 0x9D8C_F477, 0x4EC6_7A3B, 0xCADB_BE3D);
  }

  /** The checksum of "abc", as every implementation of CRC-32 has it. */
  lemma KnownAnswer()
    ensures Checksum([97, 98, 99]) == 0x3524_41C2 && Checksum([]) == 0
  {
    LetterA();
    LetterB();
    LetterC();
    hide DivideByte;
    DivideSnoc(ONES, [], 97);
    DivideSnoc(ONES, [97], 98);
    DivideSnoc(ONES, [97, 98], 99);
    assert Divide(ONES, []) == ONES;
    var none: Bytes := [];
    assert none + [97] == [97] && [97] + [98] == [97, 98] && [97, 98] + [99] == [97, 98, 99];
  }

  // ------------------------------------------------------ checksums as bytes

  /** The four bytes of a register, lowest first. */
  function LittleEndian(c: bv32): (b: Bytes)
    ensures |b| == 4
  {
    [Slot(c), Slot(DropByte(c)), Slot(DropByte(DropByte(c))), Slot(DropByte(DropByte(DropByte(c))))]
  }

  function BigEndian(c: bv32): (b: Bytes)
    ensures |b| == 4
  {
    var b := LittleEndian(c);
    [b[3], b[2], b[1], b[0]]
  }

  function FromBigEndian(b: Bytes): bv32
    requires |b| == 4
  {
    WordOf([b[3], b[2], b[1], b[0]])
  }

  lemma WordOfParts(c: bv32)
    ensures Word(LowByte(c), LowByte(DropByte(c)), LowByte(DropByte(DropByte(c))),
        LowByte(DropByte(DropByte(DropByte(c))))) == c
  {}

  lemma LittleEndianRoundTrip(c: bv32)
    ensures WordOf(LittleEndian(c)) == c
  {
    hide LowByte, DropByte, FromNat, Word;
    var c1 := DropByte(c); var c2 := DropByte(c1); var c3 := DropByte(c2);
    SlotIsLowByte(c); SlotIsLowByte(c1); SlotIsLowByte(c2); SlotIsLowByte(c3);
    WordOfParts(c);
  }

  lemma BigEndianRoundTrip(c: bv32)
    ensures FromBigEndian(BigEndian(c)) == c
  {
    hide WordOf, Slot, DropByte;
    var b := LittleEndian(c);
    assert [b[0], b[1], b[2], b[3]] == b;
    LittleEndianRoundTrip(c);
  }

  lemma WordOfRoundTrip(b: Bytes)
    requires |b| == 4
    ensures LittleEndian(WordOf(b)) == b
  {
    hide WordOf, Slot, DropByte;
    LittleEndianRoundTrip(WordOf(b));
    WordOfIsInjective(LittleEndian(WordOf(b)), b);
  }

  lemma FromBigEndianRoundTrip(b: Bytes)
    requires |b| == 4
    ensures BigEndian(FromBigEndian(b)) == b
  {
    hide WordOf, Slot, DropByte;
    WordOfRoundTrip([b[3], b[2], b[1], b[0]]);
    assert b == [b[0], b[1], b[2], b[3]];
  }

  lemma DropTwice(c: bv32)
    ensures LowByte(DropByte(c)) == (c >> 8) & 0xFF && LowByte(DropByte(DropByte(c))) == (c >> 16) & 0xFF
    ensures LowByte(DropByte(DropByte(DropByte(c)))) == c >> 24
  {}

  /** Which byte of a register goes where. */
  lemma BytesOfRegister(c: bv32)
    ensures var b := LittleEndian(c);
            && FromNat(b[0]) == c & 0xFF && FromNat(b[1]) == (c >> 8) & 0xFF
            && FromNat(b[2]) == (c >> 16) & 0xFF && FromNat(b[3]) == c >> 24
    ensures forall i :: 0 <= i < 4 ==> BigEndian(c)[i] == LittleEndian(c)[3 - i]
  {
    DropTwice(c);
    var c1 := DropByte(c); var c2 := DropByte(c1); var c3 := DropByte(c2);
    SlotIsLowByte(c); SlotIsLowByte(c1); SlotIsLowByte(c2); SlotIsLowByte(c3);
    assert LowByte(c) == c & 0xFF;
    hide DropByte, FromNat, LowByte;
  }
}
