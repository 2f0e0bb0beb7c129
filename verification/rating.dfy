/**
  One-decimal averages. The pages compute `(total / count).toFixed(1)`; the
  model keeps the result as a whole number of tenths (45 stands for "4.5"),
  rounded half-up on the exact quotient, and renders it as the text the
  pages display.
 */
module Rating {

  import opened Common
  import Numbers

  /** total/count rounded to the nearest tenth, ties rounding up. */
  function RoundTenths(total: nat, count: nat): (n: nat)
    requires count > 0
    ensures 2 * count * n <= 20 * total + count < 2 * count * (n + 1)
  {
    (20 * total + count) / (2 * count)
  }

  lemma MulMono(a: nat, x: nat, y: nat)
    requires x <= y
    ensures a * x <= a * y
  {
  }

  /** The nearest-tenth characterisation pins the rounded value down uniquely. */
  lemma RoundTenthsUnique(total: nat, count: nat, m: nat)
    requires count > 0
    requires 2 * count * m <= 20 * total + count < 2 * count * (m + 1)
    ensures m == RoundTenths(total, count)
  {
    var n := RoundTenths(total, count);
    if m < n {
      MulMono(2 * count, m + 1, n);
    } else if n < m {
      MulMono(2 * count, n + 1, m);
    }
  }

  lemma LtFromMul(a: nat, x: nat, y: nat)
    requires a > 0 && a * x < a * (y + 1)
    ensures x <= y
  {
    if x > y {
      MulMono(a, y + 1, x);
    }
  }

  /** Averages of ratings that all lie in lo..hi lie in lo..hi as well. */
  lemma RoundTenthsWithin(total: nat, count: nat, lo: nat, hi: nat)
    requires count > 0
    requires lo * count <= total <= hi * count
    ensures 10 * lo <= RoundTenths(total, count) <= 10 * hi
  {
    var n := RoundTenths(total, count);
    var c := count;
    assert 20 * total <= 20 * (hi * c);
    assert 2 * c * (10 * hi + 1) == 20 * (hi * c) + 2 * c;
    LtFromMul(2 * c, n, 10 * hi);
    assert 20 * (lo * c) <= 20 * total;
    assert 2 * c * (10 * lo) == 20 * (lo * c);
    LtFromMul(2 * c, 10 * lo, n);
  }

  /** A whole-number average is shown with a zero tenth. */
  lemma RoundTenthsExact(k: nat, count: nat)
    requires count > 0
    ensures RoundTenths(k * count, count) == 10 * k
  {
    RoundTenthsUnique(k * count, count, 10 * k);
  }

  /** The "X.Y" text `toFixed(1)` produces for a number of tenths. */
  function Show(tenths: nat): (s: string)
    ensures |s| >= 3 && s[|s| - 2] == '.'
  {
    Numbers.NatToString(tenths / 10) + "." + [Numbers.DigitChar(tenths % 10)]
  }

  /** The text shown for an empty list of ratings. */
  const Zero: string := "0.0"

  lemma ShowZero()
    ensures Show(0) == Zero
  {
  }

  /**
    `parseFloat` read back on the texts `toFixed(1)` writes: a canonical
    integer part, a point and one digit. Other texts are `None`.
   */
  function ParseShown(s: string): (r: Option<nat>)
    ensures r.Some? ==> |s| >= 3 && s[|s| - 2] == '.' && Numbers.Canonical(s[..|s| - 2])
  {
    if |s| >= 3 && s[|s| - 2] == '.' && Numbers.IsDigit(s[|s| - 1]) && Numbers.Canonical(s[..|s| - 2])
    then Some(Numbers.ValueIn(s[..|s| - 2], 10) * 10 + Numbers.HexDigitValue(s[|s| - 1]))
    else None
  }

  /** Reading back a shown average gives the same number of tenths, and only shown texts read back. */
  lemma ParseShownIff(s: string, tenths: nat)
    ensures ParseShown(s) == Some(tenths) <==> s == Show(tenths)
  {
    var ip := Numbers.NatToString(tenths / 10);
    if s == Show(tenths) {
      assert s[..|s| - 2] == ip;
      Numbers.NatToStringValue(tenths / 10);
    }
    if ParseShown(s) == Some(tenths) {
      var digits := s[..|s| - 2];
      Numbers.NatToStringOfValue(digits);
      assert s == digits + "." + [s[|s| - 1]];
    }
  }

  /** `calculateAverageFromTotals`: "0.0" for no reviews, else the rounded mean. */
  function FromTotals(total: nat, count: nat): (text: string)
    ensures count == 0 ==> text == Zero
    ensures count > 0 ==> ParseShown(text) == Some(RoundTenths(total, count))
  {
    if count == 0 then Zero else
      ParseShownIff(Show(RoundTenths(total, count)), RoundTenths(total, count));
      Show(RoundTenths(total, count))
  }
}
