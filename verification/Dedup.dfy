/** The sliding window that tells new sequence numbers from old ones, with one
    bitmap of 64 bits. */
module Dedup {
  import opened Wrappers
  import opened Arith

  const WINDOW_SIZE: nat := 64
  const TWO_64: nat := 0x1_0000_0000_0000_0000

  // ------------------------------------------------------------------------ bits

  predicate Bit(n: nat, i: nat)
    decreases i
  {
    if i == 0 then n % 2 == 1 else Bit(n / 2, i - 1)
  }

  lemma {:induction false} ZeroHasNoBits(i: nat)
    ensures !Bit(0, i)
    decreases i
  {
    if i > 0 { ZeroHasNoBits(i - 1); }
  }

  lemma {:induction false} HighBitsAreClear(n: nat, k: nat, i: nat)
    requires n < Pow2(k) && k <= i
    ensures !Bit(n, i)
    decreases k
  {
    if k == 0 { ZeroHasNoBits(i); } else { HighBitsAreClear(n / 2, k - 1, i - 1); }
  }

  lemma BitOrHalves(a: nat, b: nat)
    ensures BitOr(a, b) / 2 == BitOr(a / 2, b / 2)
    ensures BitOr(a, b) % 2 == 1 <==> a % 2 == 1 || b % 2 == 1
  {}

  lemma BitStep(n: nat, i: nat)
    requires i > 0
    ensures Bit(n, i) == Bit(n / 2, i - 1)
  {}

  lemma {:induction false} BitOrBits(a: nat, b: nat, i: nat)
    ensures Bit(BitOr(a, b), i) <==> Bit(a, i) || Bit(b, i)
    decreases i
  {
    BitOrHalves(a, b);
    hide BitOr;
    if i > 0 {
      hide Bit;
      BitStep(a, i);
      BitStep(b, i);
      BitStep(BitOr(a, b), i);
      BitOrBits(a / 2, b / 2, i - 1);
    }
  }

  lemma {:induction false} PowerBit(k: nat, i: nat)
    ensures Bit(Pow2(k), i) <==> i == k
    decreases i
  {
    if i > 0 {
      if k == 0 { assert Pow2(0) / 2 == 0; ZeroHasNoBits(i - 1); } else { PowerBit(k - 1, i - 1); }
    }
  }

  lemma {:induction false} BitOrBound(a: nat, b: nat, k: nat)
    requires a < Pow2(k) && b < Pow2(k)
    ensures BitOr(a, b) < Pow2(k)
    decreases k
  {
    if k > 0 && !(a == 0 && b == 0) { BitOrBound(a / 2, b / 2, k - 1); }
  }

  /** `bitmap | 1 << i` on 64 bits. */
  function WithBit(bitmap: u64, i: nat): (r: u64)
    requires i < WINDOW_SIZE
    ensures r == BitOr(bitmap, Pow2(i))
  {
    Pow64();
    Pow2Grows(i + 1, 64);
    assert Pow2(i + 1) == 2 * Pow2(i);
    BitOrBound(bitmap, Pow2(i), 64);
    BitOr(bitmap, Pow2(i))
  }

  lemma WithBitSets(bitmap: u64, i: nat, j: nat)
    requires i < WINDOW_SIZE
    ensures Bit(WithBit(bitmap, i), j) <==> j == i || Bit(bitmap, j)
  {
    BitOrBits(bitmap, Pow2(i), j);
    PowerBit(i, j);
  }

  // --------------------------------------------------------------------- windows

  datatype Verdict = InOrder | OutOfOrder | Duplicate | TooFar(expected: u64)

  /** `base` is the next expected number; bit `i` stands for `base + 1 + i`. */
  datatype Window = Window(base: u64, bitmap: u64)

  /** The numbers the window has recorded: all below the base, and the ones marked ahead of it. */
  predicate Records(w: Window, s: u64) {
    s < w.base || (s > w.base && Bit(w.bitmap, s - w.base - 1))
  }

  /** No bit stands for a number past the largest. */
  ghost predicate Sound(w: Window) {
    forall i: nat {:trigger Bit(w.bitmap, i)} :: Bit(w.bitmap, i) ==> w.base + 1 + i <= U64_MAX
  }

  /** Where the base lands when it starts at `b` and bit `i` of `m` stands for `b + i`. */
  function Landing(b: nat, m: nat): (n: nat)
    ensures n >= b
    decreases m
  {
    if m % 2 == 1 then Landing(b + 1, m / 2) else b
  }

  function Leftover(m: nat): (r: nat)
    ensures r <= m / 2
  {
    if m % 2 == 1 then Leftover(m / 2) else m / 2
  }

  function Offset(w: Window, num: u64): int {
    num - w.base
  }

  function Judge(w: Window, num: u64): Verdict {
    if num < w.base then Duplicate
    else if num == w.base then InOrder
    else if Offset(w, num) > WINDOW_SIZE then TooFar(w.base)
    else if Bit(w.bitmap, Offset(w, num) - 1) then Duplicate
    else OutOfOrder
  }

  function Fed(w: Window, num: u64): Window {
    match Judge(w, num)
    case InOrder => Window(Landing(w.base + 1, w.bitmap) % TWO_64, Leftover(w.bitmap))
    case OutOfOrder => Window(w.base, WithBit(w.bitmap, Offset(w, num) - 1))
    case _ => w
  }

  /** `num.wrapping_add(1)` with an empty bitmap. */
  function Resynced(num: u64): Window {
    Window((num + 1) % TWO_64, 0)
  }

  // ---------------------------------------------------- what feeding does

  /** The base stops at the first unmarked number, and the bits move along. */
  lemma {:induction false} LandingStops(b: nat, m: nat)
    ensures forall i :: 0 <= i < Landing(b, m) - b ==> Bit(m, i)
    ensures !Bit(m, Landing(b, m) - b)
    ensures forall i: nat :: Bit(Leftover(m), i) <==> Bit(m, Landing(b, m) - b + 1 + i)
    decreases m
  {
    if m % 2 == 1 {
      LandingStops(b + 1, m / 2);
      forall i | 0 <= i < Landing(b, m) - b ensures Bit(m, i) {
        if i > 0 { assert Bit(m / 2, i - 1); }
      }
      forall i: nat ensures Bit(Leftover(m), i) <==> Bit(m, Landing(b, m) - b + 1 + i) {
        assert Bit(Leftover(m / 2), i) <==> Bit(m / 2, Landing(b + 1, m / 2) - (b + 1) + 1 + i);
      }
    }
  }

  /** The last number missing: it is the next one expected, and every later one is recorded. */
  ghost predicate Completes(w: Window, num: u64) {
    num == w.base && forall s: u64 :: s > num ==> Records(w, s)
  }

  lemma LandingInRange(w: Window)
    requires Sound(w)
    ensures w.base + 1 <= Landing(w.base + 1, w.bitmap) <= TWO_64
    ensures Landing(w.base + 1, w.bitmap) == TWO_64 <==> Completes(w, w.base)
  {
    LandingStops(w.base + 1, w.bitmap);
    var n := Landing(w.base + 1, w.bitmap);
    if n > w.base + 1 { assert Bit(w.bitmap, n - (w.base + 1) - 1); }
    if n < TWO_64 {
      assert !Records(w, n);
    } else {
      forall s: u64 | s > w.base ensures Records(w, s) { assert Bit(w.bitmap, s - (w.base + 1)); }
    }
  }

  lemma OutOfOrderRecords(w: Window, num: u64)
    requires Sound(w) && Judge(w, num).OutOfOrder?
    ensures Sound(Fed(w, num)) && forall s: u64 :: Records(Fed(w, num), s) <==> Records(w, s) || s == num
  {
    forall j: nat ensures Bit(Fed(w, num).bitmap, j) <==> j == Offset(w, num) - 1 || Bit(w.bitmap, j) {
      WithBitSets(w.bitmap, Offset(w, num) - 1, j);
    }
  }

  lemma DuplicateIsRecorded(w: Window, num: u64)
    ensures Judge(w, num).Duplicate? <==> Records(w, num)
  {
    if num > w.base && Offset(w, num) > WINDOW_SIZE {
      Pow64();
      HighBitsAreClear(w.bitmap, 64, Offset(w, num) - 1);
    }
  }

  lemma InOrderRecords(w: Window)
    requires Sound(w) && Landing(w.base + 1, w.bitmap) < TWO_64
    ensures var v := Window(Landing(w.base + 1, w.bitmap), Leftover(w.bitmap));
            Sound(v) && forall s: u64 :: Records(v, s) <==> Records(w, s) || s == w.base
  {
    var n := Landing(w.base + 1, w.bitmap);
    var v := Window(n, Leftover(w.bitmap));
    LandingStops(w.base + 1, w.bitmap);
    forall i: nat | Bit(v.bitmap, i) ensures v.base + 1 + i <= U64_MAX {
      assert Bit(w.bitmap, n - (w.base + 1) + 1 + i);
    }
    forall s: u64 ensures Records(v, s) <==> Records(w, s) || s == w.base {
      if s > n {
        assert Bit(v.bitmap, s - n - 1) <==> Bit(w.bitmap, n - (w.base + 1) + 1 + (s - n - 1));
      } else if w.base < s < n {
        assert Bit(w.bitmap, s - (w.base + 1));
      }
    }
  }

  /** Feeding records the number fed and no other, and the verdict tells what was known. */
  lemma FedRecords(w: Window, num: u64)
    requires Sound(w) && !Completes(w, num)
    ensures Sound(Fed(w, num))
    ensures Judge(w, num).Duplicate? <==> Records(w, num)
    ensures !Judge(w, num).TooFar? ==> forall s: u64 :: Records(Fed(w, num), s) <==> Records(w, s) || s == num
    ensures Fed(w, num).base >= w.base
  {
    DuplicateIsRecorded(w, num);
    hide Records, Sound, Bit, Leftover, WithBit;
    match Judge(w, num) {
      case InOrder =>
        LandingInRange(w);
        InOrderRecords(w);
      case OutOfOrder =>
        OutOfOrderRecords(w, num);
      case _ =>
    }
  }

  lemma {:induction false} NoBitsIsZero(n: nat)
    requires forall i: nat :: !Bit(n, i)
    ensures n == 0
    decreases n
  {
    if n > 0 {
      assert !Bit(n, 0);
      forall i: nat ensures !Bit(n / 2, i) { assert !Bit(n, i + 1); }
      NoBitsIsZero(n / 2);
    }
  }

  /** The last number missing leaves a window that has recorded nothing. */
  lemma CompletingForgets(w: Window, num: u64)
    requires Sound(w) && Completes(w, num)
    ensures Judge(w, num).InOrder? && Fed(w, num) == Window(0, 0)
  {
    LandingInRange(w);
    LandingStops(w.base + 1, w.bitmap);
    var m := Leftover(w.bitmap);
    forall i: nat ensures !Bit(m, i) {
      assert Bit(m, i) <==> Bit(w.bitmap, TWO_64 - (w.base + 1) + 1 + i);
    }
    NoBitsIsZero(m);
  }

  lemma NothingRecorded()
    ensures Sound(Window(0, 0)) && forall s: u64 :: !Records(Window(0, 0), s)
  {
    forall i: nat ensures !Bit(0, i) { ZeroHasNoBits(i); }
  }

  /** Numbers below the largest never complete a window. */
  lemma NoWrapBelow(w: Window, num: u64)
    requires Sound(w) && !Records(w, U64_MAX) && num < U64_MAX
    ensures !Completes(w, num) && !Records(Fed(w, num), U64_MAX)
  {
    if !Judge(w, num).TooFar? { FedRecords(w, num); }
  }

  /** The verdict by position: behind the window or recorded, next, within 64 ahead, or
      further, which is reported with the number expected. */
  lemma VerdictIff(w: Window, num: u64)
    ensures Judge(w, num).Duplicate? <==> Records(w, num)
    ensures Judge(w, num).InOrder? <==> num == w.base
    ensures Judge(w, num).OutOfOrder? <==> w.base < num <= w.base + 64 && !Records(w, num)
    ensures Judge(w, num).TooFar? <==> num > w.base + 64
    ensures Judge(w, num).TooFar? ==> Judge(w, num).expected == w.base && Fed(w, num) == w
  {
    DuplicateIsRecorded(w, num);
  }

  // ------------------------------------------------------------------ whole runs

  function FedAll(w: Window, nums: seq<u64>): Window {
    if nums == [] then w else Fed(FedAll(w, nums[..|nums| - 1]), nums[|nums| - 1])
  }

  /** No number was too far ahead when it came, nor the largest there is. */
  predicate WithinReach(w: Window, nums: seq<u64>) {
    nums == [] ||
    (var front, last := nums[..|nums| - 1], nums[|nums| - 1];
     WithinReach(w, front) && last < U64_MAX && !Judge(FedAll(w, front), last).TooFar?)
  }

  lemma {:induction false} FedAllRecords(b: u64, nums: seq<u64>)
    requires b < U64_MAX && WithinReach(Window(b, 0), nums)
    ensures var w := FedAll(Window(b, 0), nums); Sound(w) && !Records(w, U64_MAX)
    ensures forall s: u64 :: Records(FedAll(Window(b, 0), nums), s) <==> s < b || s in nums
  {
    if nums == [] {
      forall i: nat ensures !Bit(0, i) { ZeroHasNoBits(i); }
    } else {
      hide Records, Fed, Judge, Sound;
      var front, last := nums[..|nums| - 1], nums[|nums| - 1];
      FedAllRecords(b, front);
      NoWrapBelow(FedAll(Window(b, 0), front), last);
      FedRecords(FedAll(Window(b, 0), front), last);
      assert nums == front + [last];
    }
  }

  /** Between resyncs the acknowledgement is the least number not received. */
  lemma AckIsLeastMissing(b: u64, nums: seq<u64>)
    requires b < U64_MAX && WithinReach(Window(b, 0), nums)
    ensures var ack := FedAll(Window(b, 0), nums).base;
            ack >= b && ack !in nums && forall s: u64 :: b <= s < ack ==> s in nums
  {
    FedAllRecords(b, nums);
    hide FedAll, Bit;
    var w := FedAll(Window(b, 0), nums);
    assert forall s: u64 :: s < w.base ==> Records(w, s);
    assert !Records(w, w.base);
    assert Records(w, w.base) <==> w.base < b || w.base in nums;
  }

  /** A number fed twice is a duplicate the second time, unless it was the last
      one missing up to the largest there is. */
  lemma SecondTimeIsDuplicateIff(w: Window, num: u64)
    requires Sound(w) && !Judge(w, num).TooFar?
    ensures Judge(Fed(w, num), num).Duplicate? <==> !Completes(w, num)
  {
    if Completes(w, num) {
      CompletingForgets(w, num);
      NothingRecorded();
      DuplicateIsRecorded(Fed(w, num), num);
    } else {
      FedRecords(w, num);
      DuplicateIsRecorded(Fed(w, num), num);
    }
  }

  /** The largest number, awaited and fed twice in a row, is not a duplicate the second time. */
  lemma LargestRepeated()
    ensures var w := Window(U64_MAX, 0); Sound(w) && Judge(w, U64_MAX).InOrder?
    ensures var w := Window(U64_MAX, 0); Judge(Fed(w, U64_MAX), U64_MAX) == TooFar(0)
  {
    var w := Window(U64_MAX, 0);
    forall i: nat ensures !Bit(0, i) { ZeroHasNoBits(i); }
    CompletingForgets(w, U64_MAX);
  }

  // ------------------------------------------------------------------ the object

  function CountOnes(n: nat): nat {
    if n == 0 then 0 else n % 2 + CountOnes(n / 2)
  }

  function OnesBelow(n: nat, k: nat): set<nat> {
    set i: nat | i < k && Bit(n, i)
  }

  function ShiftUp(a: set<nat>): set<nat> {
    set i: nat | i in a :: i + 1
  }

  lemma {:induction false} Shifted(a: set<nat>)
    ensures |ShiftUp(a)| == |a|
    decreases |a|
  {
    if a != {} {
      var x :| x in a;
      var rest := a - {x};
      Shifted(rest);
      forall y ensures y in ShiftUp(a) <==> y in ShiftUp(rest) || y == x + 1 {
        if y in ShiftUp(a) {
          var i :| i in a && y == i + 1;
          assert i == x || i in rest;
        }
        if y == x + 1 { assert x in a; }
      }
      assert ShiftUp(a) == ShiftUp(rest) + {x + 1};
      assert x + 1 !in ShiftUp(rest);
    }
  }

  lemma HalfTheOnes(n: nat, k: nat)
    requires k > 0
    ensures |OnesBelow(n, k)| == n % 2 + |OnesBelow(n / 2, k - 1)|
  {
    var low := OnesBelow(n / 2, k - 1);
    Shifted(low);
    var up := ShiftUp(low);
    assert OnesBelow(n, k) == (if n % 2 == 1 then {0} else {}) + up by {
      forall i: nat ensures i in OnesBelow(n, k) <==> (i == 0 && n % 2 == 1) || i in up {
        if i > 0 { assert i in up <==> i - 1 in low; }
      }
    }
    assert 0 !in up;
  }

  lemma {:induction false} CountOnesCounts(n: nat, k: nat)
    requires n < Pow2(k)
    ensures CountOnes(n) == |OnesBelow(n, k)|
    decreases k
  {
    if k == 0 {
      assert OnesBelow(n, 0) == {};
    } else {
      CountOnesCounts(n / 2, k - 1);
      HalfTheOnes(n, k);
      if n == 0 { assert CountOnes(0) == 0 % 2 + CountOnes(0 / 2); }
    }
  }

  lemma NextMod(b: nat, r: nat)
    requires r == b % TWO_64
    ensures (r + 1) % TWO_64 == (b + 1) % TWO_64
  {}

  class DedupWindow {
    var rcvNxt: u64
    var bitmap: u64

    function View(): Window
      reads this
    {
      Window(rcvNxt, bitmap)
    }

    constructor (initial: u64)
      ensures View() == Window(initial, 0)
    {
      rcvNxt, bitmap := initial, 0;
    }

    method Feed(num: u64) returns (v: Verdict)
      modifies this
      ensures v == Judge(old(View()), num) && View() == Fed(old(View()), num)
    {
      if num < rcvNxt { return Duplicate; }
      if num == rcvNxt {
        ghost var w, b: nat := View(), rcvNxt + 1;
        rcvNxt := (rcvNxt + 1) % TWO_64;
        while bitmap % 2 == 1
          invariant rcvNxt == b % TWO_64
          invariant Landing(b, bitmap) == Landing(w.base + 1, w.bitmap) && Leftover(bitmap) == Leftover(w.bitmap)
          decreases bitmap
        {
          bitmap := bitmap / 2;
          NextMod(b, rcvNxt);
          rcvNxt := (rcvNxt + 1) % TWO_64;
          b := b + 1;
        }
        bitmap := bitmap / 2;
        return InOrder;
      }
      var offset := num - rcvNxt;
      if offset > WINDOW_SIZE { return TooFar(rcvNxt); }
      if Bit(bitmap, offset - 1) { return Duplicate; }
      bitmap := WithBit(bitmap, offset - 1);
      return OutOfOrder;
    }

    function Ack(): u64
      reads this
    {
      rcvNxt
    }

    /** How many numbers are recorded ahead of the base. */
    method Backlog() returns (n: nat)
      ensures n == |OnesBelow(bitmap, WINDOW_SIZE)|
    {
      Pow64();
      CountOnesCounts(bitmap, WINDOW_SIZE);
      n := CountOnes(bitmap);
    }

    method Resync(num: u64)
      modifies this
      ensures View() == Resynced(num)
    {
      rcvNxt, bitmap := (num + 1) % TWO_64, 0;
    }
  }
}
