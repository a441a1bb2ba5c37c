/** File names of segments. */
module SegmentNames {
  import opened Wrappers
  import opened Decimal

  const SUFFIX: Bytes := [46, 108, 111, 103] // ".log"
  const NAME_DIGITS: nat := 8

  function SegmentName(id: nat): Bytes {
    Pad(id, NAME_DIGITS) + SUFFIX
  }

  /** "00000042.log" */
  lemma NameLayout()
    ensures SegmentName(42) == [48, 48, 48, 48, 48, 48, 52, 50, 46, 108, 111, 103]
  {
    assert Digits(42, 8) == Digits(0, 6) + [52] + [50] by { assert Digits(42, 8) == Digits(4, 7) + [50]; }
    assert Digits(0, 3) == [48, 48, 48];
    assert Digits(0, 6) == Digits(0, 3) + [48] + [48] + [48];
  }

  function ParseSegmentName(name: Bytes): Option<nat> {
    if |name| < |SUFFIX| || name[|name| - |SUFFIX|..] != SUFFIX then None
    else
      var stem := name[..|name| - |SUFFIX|];
      if |stem| != NAME_DIGITS || exists b :: b in stem && !IsDigit(b) then None
      else if Value(stem) < 0 then None else Some(Value(stem))
  }

  /** A segment's file is found again exactly when its id has at most eight digits. */
  lemma NameParses(id: nat)
    ensures ParseSegmentName(SegmentName(id)) == if id < Pow10(NAME_DIGITS) then Some(id) else None
  {
    hide Pow10, Value, Pad;
    PadReads(id, NAME_DIGITS);
    LengthFits(id, NAME_DIGITS);
    var name := SegmentName(id);
    assert name[|name| - |SUFFIX|..] == SUFFIX && name[..|name| - |SUFFIX|] == Pad(id, NAME_DIGITS);
  }

  lemma PadIs(n: nat, w: nat)
    requires n < Pow10(w) && w >= 1
    ensures Pad(n, w) == Digits(n, w)
  {
    LengthFits(n, w);
  }

  /** No other name is taken for a segment's. */
  lemma ParsesIff(name: Bytes, id: nat)
    ensures ParseSegmentName(name) == Some(id) <==> name == SegmentName(id) && id < Pow10(NAME_DIGITS)
  {
    hide Pow10, Value, Pad;
    NameParses(id);
    if ParseSegmentName(name) == Some(id) {
      var stem := name[..|name| - |SUFFIX|];
      assert name == stem + SUFFIX;
      DigitsOfValue(stem);
      PadIs(id, NAME_DIGITS);
    }
  }

  /** A segment that `recover` finds again. */
  predicate Named(id: nat) {
    ParseSegmentName(SegmentName(id)) == Some(id)
  }

  lemma NamedIff(id: nat)
    ensures Named(id) <==> id < Pow10(NAME_DIGITS)
  {
    NameParses(id);
  }

  lemma NamedBelow(a: nat, b: nat)
    requires a <= b && Named(b)
    ensures Named(a)
  {
    NamedIff(a);
    NamedIff(b);
  }

  /** No two segments share a file. */
  lemma NamesDiffer(a: nat, b: nat)
    requires SegmentName(a) == SegmentName(b)
    ensures a == b
  {
    hide Value, Pad;
    PadReads(a, NAME_DIGITS);
    PadReads(b, NAME_DIGITS);
    var x, y := SegmentName(a), SegmentName(b);
    assert x[..|x| - |SUFFIX|] == Pad(a, NAME_DIGITS) && y[..|y| - |SUFFIX|] == Pad(b, NAME_DIGITS);
  }
}
