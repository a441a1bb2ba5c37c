/** Zero-padded decimal numbers as byte strings. */
module Decimal {
  import opened Wrappers
  import opened ByteOrder

  function Pow10(k: nat): (p: nat)
    ensures p >= 1
  {
    if k == 0 then 1 else 10 * Pow10(k - 1)
  }

  /** The `w` low decimal digits. */
  function Digits(n: nat, w: nat): (d: Bytes)
    ensures |d| == w
  {
    if w == 0 then [] else Digits(n / 10, w - 1) + [48 + n % 10]
  }

  function Length(n: nat): (k: nat)
    ensures k >= 1
  {
    if n < 10 then 1 else 1 + Length(n / 10)
  }

  /** At least `w` digits, and as many as the number needs. */
  function Pad(n: nat, w: nat): Bytes {
    Digits(n, if Length(n) <= w then w else Length(n))
  }

  predicate IsDigit(b: byte) {
    48 <= b <= 57
  }

  function Value(d: Bytes): int {
    if d == [] then 0 else 10 * Value(d[..|d| - 1]) + (d[|d| - 1] as int - 48)
  }

  lemma {:induction false} LengthFits(n: nat, w: nat)
    ensures Length(n) <= w <==> w >= 1 && n < Pow10(w)
    decreases n
  {
    if n < 10 {
      if w >= 1 { assert Pow10(w) == 10 * Pow10(w - 1); }
    } else if w >= 1 {
      LengthFits(n / 10, w - 1);
      assert Pow10(w) == 10 * Pow10(w - 1);
      assert w == 1 ==> Pow10(0) == 1;
    }
  }

  lemma {:induction false} ValueOfDigits(n: nat, w: nat)
    requires n < Pow10(w)
    ensures Value(Digits(n, w)) == n
    decreases w
  {
    if w > 0 {
      ValueOfDigits(n / 10, w - 1);
      assert Digits(n, w)[..w - 1] == Digits(n / 10, w - 1);
    }
  }

  lemma {:induction false} DigitsAreDigits(n: nat, w: nat)
    ensures forall b :: b in Digits(n, w) ==> IsDigit(b)
    decreases w
  {
    if w > 0 { DigitsAreDigits(n / 10, w - 1); }
  }

  /** Digits are those of the number they write. */
  lemma {:induction false} DigitsOfValue(d: Bytes)
    requires forall b :: b in d ==> IsDigit(b)
    ensures 0 <= Value(d) < Pow10(|d|) && Digits(Value(d), |d|) == d
  {
    if d != [] {
      var front, last := d[..|d| - 1], d[|d| - 1];
      assert d == front + [last] && last in d;
      DigitsOfValue(front);
      var v: nat := Value(front);
      assert Value(d) / 10 == v && Value(d) % 10 == last as int - 48;
    }
  }

  lemma PadReads(n: nat, w: nat)
    ensures Value(Pad(n, w)) == n && (forall b :: b in Pad(n, w) ==> IsDigit(b))
    ensures |Pad(n, w)| == (if n < Pow10(w) && w >= 1 then w else Length(n))
  {
    var k := if Length(n) <= w then w else Length(n);
    LengthFits(n, w);
    LengthFits(n, Length(n));
    ValueOfDigits(n, k);
    DigitsAreDigits(n, k);
  }

  /** Strings of one length that differ are ordered whatever follows them. */
  lemma {:induction false} LessWithTails(a: Bytes, b: Bytes, s: Bytes, t: Bytes)
    requires |a| == |b| && a != b
    ensures Less(a + s, b + t) <==> Less(a, b)
  {
    if a[0] == b[0] {
      assert a == [a[0]] + a[1..] && b == [b[0]] + b[1..];
      assert (a + s)[1..] == a[1..] + s && (b + t)[1..] == b[1..] + t;
      LessWithTails(a[1..], b[1..], s, t);
    }
  }

  /** Fixed-width digits compare as bytes exactly as their numbers do. */
  lemma {:induction false} DigitsKeepOrder(n: nat, m: nat, w: nat)
    requires n < Pow10(w) && m < Pow10(w)
    ensures Less(Digits(n, w), Digits(m, w)) <==> n < m
    decreases w
  {
    if w > 0 {
      DigitsKeepOrder(n / 10, m / 10, w - 1);
      var a, b := Digits(n / 10, w - 1), Digits(m / 10, w - 1);
      if n / 10 == m / 10 {
        LessUnderPrefix(a, [48 + n % 10], [48 + m % 10]);
        assert Less([48 + n % 10], [48 + m % 10]) <==> n % 10 < m % 10;
      } else {
        DigitsKeepOrder(m / 10, n / 10, w - 1);
        LessWithTails(a, b, [48 + n % 10], [48 + m % 10]);
      }
    }
  }
}
