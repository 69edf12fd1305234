/** Numeric character references: the right-to-left scan with its wrapping
  * multiplier against the left-to-right value of the digits.
  */
module XmlNumeric {
  import opened XmlText

  predicate AllDigits(digits: string, base: nat) {
    forall i :: 0 <= i < |digits| ==> DigitValue(digits[i]) < base
  }

  /** The value of a digit string, read from left to right. */
  function Positional(digits: string, base: nat): nat {
    if digits == [] then 0 else Positional(digits[..|digits| - 1], base) * base + DigitValue(digits[|digits| - 1])
  }

  /** The scan, whose multiplier wraps, is the value modulo 2^32: what it leaves out is a multiple of that. */
  lemma {:induction false} ScanIsCongruent(s: string, from: nat, q: nat, mark: char, base: nat, mult: nat) returns (wraps: int)
    requires 0 < from <= q <= |s| && s[from - 1] == mark && 0 < base <= 16
    requires mark !in s[from..q] && AllDigits(s[from..q], base)
    ensures ScanDigits(s, q, mark, base, mult).Value?
    ensures ScanDigits(s, q, mark, base, mult).ucs == mult * Positional(s[from..q], base) - wraps * TWO32
    decreases q
  {
    if q == from {
      wraps := 0;
    } else {
      var high, d := Positional(s[from..q - 1], base), DigitValue(s[q - 1]);
      assert s[from..q][..q - from - 1] == s[from..q - 1];
      assert s[q - 1] == s[from..q][q - from - 1] && s[q - 1] in s[from..q];
      assert forall i :: 0 <= i < q - 1 - from ==> s[from..q - 1][i] == s[from..q][i];
      var below := ScanIsCongruent(s, from, q - 1, mark, base, mult * base % TWO32);
      wraps := mult * d / TWO32 + mult * base / TWO32 * high + below;
      hide ScanDigits, Positional, AllDigits, DigitValue;
      WrapsAdd(mult, base, high, d, below);
    }
  }

  lemma WrapsAdd(mult: nat, base: nat, high: nat, d: nat, below: int)
    ensures mult * d % TWO32 + (mult * base % TWO32 * high - below * TWO32)
         == mult * (high * base + d) - (mult * d / TWO32 + mult * base / TWO32 * high + below) * TWO32
  {
    var m := mult * base;
    Leftover(m);
    Leftover(mult * d);
    assert m % TWO32 * high == m * high - m / TWO32 * high * TWO32;
    assert mult * (high * base + d) == m * high + mult * d;
  }

  lemma Leftover(a: nat)
    ensures a % TWO32 == a - a / TWO32 * TWO32
  {
  }

  /** A value that fits 32 bits is read exactly, whatever the number of leading zeros. */
  lemma {:induction false} ScanIsPositional(s: string, from: nat, q: nat, mark: char, base: nat, mult: nat)
    requires 0 < from <= q <= |s| && s[from - 1] == mark && 0 < base <= 16
    requires mark !in s[from..q] && AllDigits(s[from..q], base)
    requires mult * Positional(s[from..q], base) < TWO32
    ensures ScanDigits(s, q, mark, base, mult) == Value(mult * Positional(s[from..q], base))
    decreases q
  {
    if q > from {
      var high, d := Positional(s[from..q - 1], base), DigitValue(s[q - 1]);
      assert s[from..q][..q - from - 1] == s[from..q - 1];
      assert s[q - 1] == s[from..q][q - from - 1] && s[q - 1] in s[from..q];
      assert forall i :: 0 <= i < q - 1 - from ==> s[from..q - 1][i] == s[from..q][i];
      ScanStep(mult, high, base, d);
      ScanIsPositional(s, from, q - 1, mark, base, mult * base % TWO32);
    }
  }

  lemma ScanStep(mult: nat, high: nat, base: nat, d: nat)
    requires mult * (high * base + d) < TWO32
    ensures mult * d % TWO32 == mult * d
    ensures mult * base % TWO32 * high < TWO32
    ensures mult * d % TWO32 + mult * base % TWO32 * high == mult * (high * base + d)
  {
    assert mult * (high * base + d) == mult * base * high + mult * d;
    WrappedProduct(mult * base, high);
  }

  lemma WrappedProduct(a: nat, b: nat)
    requires a * b < TWO32
    ensures a % TWO32 * b == a * b
  {
    if b > 0 {
      assert a <= a * b;
    }
  }

  /** Up to seven hexadecimal or nine decimal digits always fit. */
  lemma {:induction false} ShortIsSmall(digits: string, base: nat)
    requires AllDigits(digits, base) && ((base == 16 && |digits| <= 7) || (base == 10 && |digits| <= 9))
    ensures Positional(digits, base) < TWO32
  {
    PositionalBound(digits, base);
    Powers();
    if base == 16 {
      PowerGrows(16, |digits|, 7);
    } else {
      PowerGrows(10, |digits|, 9);
    }
  }

  function Power(base: nat, n: nat): nat {
    if n == 0 then 1 else base * Power(base, n - 1)
  }

  lemma Powers()
    ensures Power(16, 7) == 268435456 && Power(10, 9) == 1000000000
  {
    assert Power(16, 4) == 65536;
    assert Power(10, 5) == 100000;
  }

  lemma {:induction false} PowerGrows(base: nat, m: nat, n: nat)
    requires m <= n && base > 0
    ensures 0 < Power(base, m) <= Power(base, n)
    decreases n
  {
    if m < n {
      PowerGrows(base, m, n - 1);
      assert Power(base, n - 1) <= base * Power(base, n - 1);
    } else if n > 0 {
      PowerGrows(base, n - 1, n - 1);
      assert 0 < base * Power(base, n - 1);
    }
  }

  lemma {:induction false} PositionalBound(digits: string, base: nat)
    requires AllDigits(digits, base) && base > 0
    ensures Positional(digits, base) < Power(base, |digits|)
  {
    if digits != [] {
      var n := |digits| - 1;
      PositionalBound(digits[..n], base);
      DigitStep(Positional(digits[..n], base), Power(base, n), base, DigitValue(digits[n]));
    }
  }

  lemma DigitStep(high: nat, bound: nat, base: nat, d: nat)
    requires high < bound && d < base
    ensures high * base + d < base * bound
  {
    assert (high + 1) * base <= bound * base;
  }

  /** So "&#x...;" and "&#...;" stand for the UTF-8 form of the number they spell. */
  lemma NumericReferenceValue(digits: string, hex: bool, rest: string)
    requires digits != [] && ';' !in digits && AllDigits(digits, if hex then 16 else 10)
    requires Positional(digits, if hex then 16 else 10) < TWO32
    ensures var spelling := (if hex then "&#x" else "&#") + digits + ";";
            ReferenceAt(spelling + rest) == Reference(|spelling|, Utf8Text(Positional(digits, if hex then 16 else 10)))
  {
    hide ScanDigits, IndexOf, Positional, Utf8Text;
    var base, from := if hex then 16 else 10, if hex then 3 else 2;
    var mark := if hex then 'x' else '#';
    var t := (if hex then "&#x" else "&#") + digits + ";" + rest;
    var q := from + |digits|;
    SpelledDigits(digits, hex, rest);
    assert DigitValue(digits[0]) < base;
    assert mark !in digits;
    hide AllDigits;
    FirstSemicolon(t, from, digits);
    ScanIsPositional(t, from, q, mark, base, 1);
  }

  lemma SpelledDigits(digits: string, hex: bool, rest: string)
    requires digits != []
    ensures var t, from := (if hex then "&#x" else "&#") + digits + ";" + rest, if hex then 3 else 2;
            && t[from..from + |digits|] == digits && t[from] == digits[0] && t[from + |digits|] == ';'
            && t[from - 1] == (if hex then 'x' else '#') && t[1] == '#'
  {
  }

  lemma FirstSemicolon(t: string, from: nat, digits: string)
    requires from + |digits| < |t| && t[from..from + |digits|] == digits && t[from + |digits|] == ';' && ';' !in digits
    ensures IndexOf(t, ';', from) == from + |digits|
  {
    forall i | from <= i < from + |digits| ensures t[i] != ';' {
      assert t[i] == digits[i - from];
    }
  }
}
