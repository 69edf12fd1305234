/** The bar under a test run: three stretches that fill a line of the console. */
module TotalsBar {

  const ConsoleWidth := 80
  const SizeT := 0x1_0000_0000_0000_0000

  function MakeRatio(number: nat, total: nat): (ratio: nat) {
    var ratio := if total > 0 then ConsoleWidth * number % SizeT / total else 0;
    if ratio == 0 && number > 0 then 1 else ratio
  }

  /** Which of the three is the largest; the later one of equals. */
  function FindMax(i: nat, j: nat, k: nat): (which: nat)
    ensures which < 3
    ensures forall m :: 0 <= m < 3 ==> [i, j, k][m] <= [i, j, k][which] && (m > which ==> [i, j, k][m] < [i, j, k][which])
  {
    if i > j && i > k then 0 else if j > k then 1 else 2
  }

  /** The lengths for failed, failed but ok, and passed. */
  method TotalsDivider(failed: nat, failedButOk: nat, passed: nat) returns (i: nat, j: nat, k: nat)
    requires 0 < failed + failedButOk + passed < SizeT
    ensures i + j + k == ConsoleWidth - 1
    ensures (i == 0 <==> failed == 0) && (j == 0 <==> failedButOk == 0) && (k == 0 <==> passed == 0)
    ensures ConsoleWidth * (failed + failedButOk + passed) < SizeT ==>
      var total := failed + failedButOk + passed;
      && Near(i, MakeRatio(failed, total)) && Near(j, MakeRatio(failedButOk, total)) && Near(k, MakeRatio(passed, total))
  {
    var total := failed + failedButOk + passed;
    i := MakeRatio(failed, total);
    j := MakeRatio(failedButOk, total);
    k := MakeRatio(passed, total);
    RatioIsZeroOrMore(failed, total);
    RatioIsZeroOrMore(failedButOk, total);
    RatioIsZeroOrMore(passed, total);
    ghost var i0, j0, k0 := i, j, k;
    if ConsoleWidth * total < SizeT {
      RatiosNearlyFill(failed, failedButOk, passed);
    }
    hide MakeRatio;
    while i + j + k < ConsoleWidth - 1
      invariant (i == 0 <==> failed == 0) && (j == 0 <==> failedButOk == 0) && (k == 0 <==> passed == 0)
      invariant i0 <= i && j0 <= j && k0 <= k
      invariant i + j + k <= ConsoleWidth - 1 || (i == i0 && j == j0 && k == k0)
      decreases ConsoleWidth - (i + j + k)
    {
      match FindMax(i, j, k) {
        case 0 => i := i + 1;
        case 1 => j := j + 1;
        case _ => k := k + 1;
      }
    }
    ghost var i1, j1, k1 := i, j, k;
    while i + j + k > ConsoleWidth - 1
      invariant (i == 0 <==> failed == 0) && (j == 0 <==> failedButOk == 0) && (k == 0 <==> passed == 0)
      invariant i <= i1 && j <= j1 && k <= k1 && i + j + k >= ConsoleWidth - 1
      decreases i + j + k
    {
      match FindMax(i, j, k) {
        case 0 => i := i - 1;
        case 1 => j := j - 1;
        case _ => k := k - 1;
      }
    }
  }

  /** No bar is off its share by more than three characters. */
  predicate Near(length: nat, ratio: nat) {
    ratio - 3 <= length <= ratio + 3
  }

  lemma RatioIsZeroOrMore(number: nat, total: nat)
    ensures MakeRatio(number, total) == 0 <==> number == 0
  {
  }

  lemma Share(number: nat, total: nat)
    requires total > 0 && ConsoleWidth * number < SizeT
    ensures var q := ConsoleWidth * number / total; q * total <= ConsoleWidth * number < q * total + total
    ensures var q := ConsoleWidth * number / total; MakeRatio(number, total) == if q == 0 && number > 0 then 1 else q
  {
    Divided(ConsoleWidth * number, total);
    ShareIs(number, total);
    hide *;
  }

  lemma Divided(n: nat, total: nat)
    requires total > 0
    ensures n / total * total <= n < n / total * total + total
  {
    assert n == total * (n / total) + n % total;
  }

  lemma ShareIs(number: nat, total: nat)
    requires total > 0 && ConsoleWidth * number < SizeT
    ensures var q := ConsoleWidth * number / total; MakeRatio(number, total) == if q == 0 && number > 0 then 1 else q
  {
    assert ConsoleWidth * number % SizeT == ConsoleWidth * number;
  }

  /** The shares leave at most one place free, and at most three are too many. */
  lemma RatiosNearlyFill(a: nat, b: nat, c: nat)
    requires a + b + c > 0 && ConsoleWidth * (a + b + c) < SizeT
    ensures var t := a + b + c; 78 <= MakeRatio(a, t) + MakeRatio(b, t) + MakeRatio(c, t) <= 82
  {
    var t := a + b + c;
    hide MakeRatio;
    Share(a, t);
    Share(b, t);
    Share(c, t);
    var p, q, r := ConsoleWidth * a / t, ConsoleWidth * b / t, ConsoleWidth * c / t;
    Between(p, q, r, t);
  }

  lemma Between(p: nat, q: nat, r: nat, t: nat)
    requires t > 0 && p * t + q * t + r * t <= ConsoleWidth * t < p * t + q * t + r * t + 3 * t
    ensures 77 < p + q + r <= 80
  {
    var s := p + q + r;
    assert p * t + q * t + r * t == s * t;
    if s <= 77 {
      Scaled(s, 78, t);
    } else if s > 80 {
      Scaled(80, s, t);
    }
  }

  lemma Scaled(a: nat, b: nat, t: nat)
    requires t > 0 && a < b
    ensures a * t + t <= b * t
  {
    assert (b - a - 1) * t >= 0;
    assert (b - a - 1) * t == b * t - a * t - t;
  }
}
