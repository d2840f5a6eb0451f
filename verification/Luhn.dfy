/**
 The card-number check of the regex detector (maskguard/detection/regex_detector.py),
 which is the check of Annex B of ISO/IEC 7812-1, for digit strings of any length.
 */
module Luhn {

  type Digit = d: int | 0 <= d < 10

  /** What a digit adds; every second digit, counted from the right, is doubled and folded. */
  function Value(d: Digit, doubled: bool): int {
    if !doubled then d else if 2 * d > 9 then 2 * d - 9 else 2 * d
  }

  function Doubled(length: nat, k: nat): bool
    requires k < length
  {
    (length - 1 - k) % 2 == 1
  }

  function Total(s: seq<Digit>): int {
    if s == [] then 0 else Value(s[0], Doubled(|s|, 0)) + Total(s[1..])
  }

  predicate Valid(s: seq<Digit>) { Total(s) % 10 == 0 }

  method LuhnValid(digits: seq<Digit>) returns (valid: bool)
    ensures valid == Valid(digits)
  {
    var total := 0;
    for i := 0 to |digits|
      invariant total == Total(digits[|digits| - i..])
    {
      var d: int := digits[|digits| - 1 - i];
      if i % 2 == 1 {
        d := d * 2;
        if d > 9 {
          d := d - 9;
        }
      }
      total := total + d;
      assert digits[|digits| - 1 - i..][1..] == digits[|digits| - i..];
    }
    assert digits[0..] == digits;
    return total % 10 == 0;
  }

  lemma {:induction false} TotalAfterUpdate(s: seq<Digit>, k: nat, d: Digit)
    requires k < |s|
    ensures Total(s[k := d]) == Total(s) - Value(s[k], Doubled(|s|, k)) + Value(d, Doubled(|s|, k))
    decreases |s|
  {
    if k == 0 {
      assert s[k := d][1..] == s[1..];
    } else {
      assert s[k := d][1..] == s[1..][k - 1 := d];
      TotalAfterUpdate(s[1..], k - 1, d);
    }
  }

  lemma {:induction false} SmallChange(total: int, delta: int)
    requires total % 10 == 0 && -10 < delta < 10
    ensures (total + delta) % 10 == 0 <==> delta == 0
  {}

  /** Replacing one digit of a valid string is noticed, whatever and wherever it is. */
  lemma {:induction false} OneWrongDigit(s: seq<Digit>, k: nat, d: Digit)
    requires k < |s| && Valid(s)
    ensures Valid(s[k := d]) <==> d == s[k]
  {
    TotalAfterUpdate(s, k, d);
    SmallChange(Total(s), Value(d, Doubled(|s|, k)) - Value(s[k], Doubled(|s|, k)));
  }

  /** What doubling adds to a digit: equal for two digits only when they are equal or are 0 and 9. */
  lemma {:induction false} Gain(x: Digit, y: Digit)
    ensures -4 <= Value(x, true) - x <= 4
    ensures Value(x, true) - x == Value(y, true) - y <==> x == y || (x == 0 && y == 9) || (x == 9 && y == 0)
  {}

  function Swapped(s: seq<Digit>, k: nat): seq<Digit>
    requires k + 1 < |s|
  {
    s[k := s[k + 1]][k + 1 := s[k]]
  }

  lemma {:induction false} TotalAfterSwap(s: seq<Digit>, k: nat)
    requires k + 1 < |s|
    ensures var x, y := s[k], s[k + 1];
            var gain := (Value(y, true) - y) - (Value(x, true) - x);
            Total(Swapped(s, k)) == Total(s) + (if Doubled(|s|, k) then gain else -gain)
  {
    TotalAfterUpdate(s, k, s[k + 1]);
    TotalAfterUpdate(s[k := s[k + 1]], k + 1, s[k]);
    assert Doubled(|s|, k + 1) == !Doubled(|s|, k);
  }

  /** Swapping neighbours of a valid string is noticed unless they are equal or are 0 and 9. */
  lemma {:induction false} SwappedNeighbours(s: seq<Digit>, k: nat)
    requires k + 1 < |s| && Valid(s)
    ensures Valid(Swapped(s, k)) <==>
            s[k] == s[k + 1] || (s[k] == 0 && s[k + 1] == 9) || (s[k] == 9 && s[k + 1] == 0)
  {
    TotalAfterSwap(s, k);
    Gain(s[k], s[k + 1]);
    Gain(s[k + 1], s[k]);
    SmallChange(Total(s), Total(Swapped(s, k)) - Total(s));
  }

  function CheckDigit(prefix: seq<Digit>): Digit { (10 - Total(prefix + [0]) % 10) % 10 }

  /** Every prefix has exactly one completing digit. */
  lemma {:induction false} ExactlyOneCheckDigit(prefix: seq<Digit>, d: Digit)
    ensures Valid(prefix + [d]) <==> d == CheckDigit(prefix)
  {
    TotalAfterUpdate(prefix + [0], |prefix|, d);
    TotalAfterUpdate(prefix + [0], |prefix|, CheckDigit(prefix));
    assert (prefix + [0])[|prefix| := CheckDigit(prefix)] == prefix + [CheckDigit(prefix)];
    SmallChange(Total(prefix + [CheckDigit(prefix)]), d - CheckDigit(prefix));
    assert (prefix + [0])[|prefix| := d] == prefix + [d];
  }

  // ---------- the sum, two digits at a time ----------

  /** The decimal digits of a number below a hundred, added up. */
  function DigitSum(n: nat): nat { n / 10 + n % 10 }

  function LastTwo(doubled: Digit, plain: Digit): int {
    var d: int := doubled;
    DigitSum(2 * d) + plain
  }

  /** From the right: every second digit is doubled, and what that gives is added digit by digit. */
  function SumFromRight(s: seq<Digit>): int {
    if |s| == 0 then 0
    else if |s| == 1 then s[0]
    else SumFromRight(s[..|s| - 2]) + LastTwo(s[|s| - 2], s[|s| - 1])
  }

  lemma {:induction false} DoubledIsDigitSum(d: Digit, plain: Digit)
    ensures LastTwo(d, plain) == Value(d, true) + plain
  {}

  lemma {:induction false} SumFromLeft(s: seq<Digit>)
    requires s != []
    ensures SumFromRight(s) == Value(s[0], Doubled(|s|, 0)) + SumFromRight(s[1..])
    decreases |s|
  {
    var n := |s|;
    if n == 2 {
      DoubledIsDigitSum(s[0], s[1]);
      assert s[..0] == [] && s[1..] == [s[1]];
    } else if n > 2 {
      var front := s[..n - 2];
      SumFromLeft(front);
      assert Doubled(n, 0) == Doubled(n - 2, 0);
      assert s[1..][..n - 3] == front[1..];
      assert s[1..][n - 3] == s[n - 2] && s[1..][n - 2] == s[n - 1];
    }
  }

  /** The checksum adds the digits of the doubled digits. */
  lemma {:induction false} ValidExactly(s: seq<Digit>)
    ensures Total(s) == SumFromRight(s)
    ensures Valid(s) <==> SumFromRight(s) % 10 == 0
  {
    if s != [] {
      SumFromLeft(s);
      ValidExactly(s[1..]);
    }
  }
}
