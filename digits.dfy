/**
 * Base-b digit arithmetic of the Hancock pattern: the digit sum, the
 * digit-sum-square map f(x) = (digit sum of x)^2, and the digit expansion
 * used to print cycle elements.
 */
module Digits {

  /** Sum of the base-`base` digits of n (zero has digit sum 0). */
  function DigitSum(n: nat, base: nat): (s: nat)
    requires base >= 2
    ensures s <= n
    ensures s == 0 <==> n == 0
    decreases n
  {
    if n == 0 then 0
    else
      DivModSplit(n, base);
      n % base + DigitSum(n / base, base)
  }

  /** One step of the iterated map: the square of the digit sum. */
  function Step(x: nat, base: nat): (y: nat)
    requires base >= 2
    ensures y == 0 <==> x == 0
    ensures y <= x * x
  {
    MulMono(DigitSum(x, base), x, DigitSum(x, base));
    MulMono(DigitSum(x, base), x, x);
    DigitSum(x, base) * DigitSum(x, base)
  }

  /**
   * Start values that fit in 32 bits whose step does not: 2^32 - 1 has the
   * base-32768 digits 3, 32767, 32767, and 32769^2 - 1 has the base-32769
   * digits 32768, 32768.
   */
  lemma StepLeavesU32()
    ensures DigitSum(0xFFFF_FFFF, 32768) == 65537 && Step(0xFFFF_FFFF, 32768) > 0xFFFF_FFFF
    ensures DigitSum(1073807360, 32769) == 65536 && Step(1073807360, 32769) == 0x1_0000_0000
  {
  }

  /** Digits of n, most significant first; empty for zero. */
  function Digits(n: nat, base: nat): (ds: seq<nat>)
    requires base >= 2
    decreases n
  {
    if n == 0 then []
    else
      DivModSplit(n, base);
      Digits(n / base, base) + [n % base]
  }

  /** Value of a digit string read most significant first. */
  function Eval(ds: seq<nat>, base: nat): (v: nat)
  {
    if ds == [] then 0 else Eval(ds[..|ds| - 1], base) * base + ds[|ds| - 1]
  }

  /** Sum of a digit string. */
  function Sum(ds: seq<nat>): (total: nat)
  {
    if ds == [] then 0 else Sum(ds[..|ds| - 1]) + ds[|ds| - 1]
  }

  /** Every digit is below the base and the leading digit is not zero. */
  predicate Canonical(ds: seq<nat>, base: nat)
  {
    (forall i :: 0 <= i < |ds| ==> ds[i] < base) && (ds != [] ==> ds[0] != 0)
  }

  /** Reversal, as done by `digits.reverse()` and `digits[::-1]`. */
  function Reverse<T>(s: seq<T>): (r: seq<T>)
    ensures |r| == |s|
    ensures forall i :: 0 <= i < |s| ==> r[i] == s[|s| - 1 - i]
  {
    if s == [] then [] else [s[|s| - 1]] + Reverse(s[..|s| - 1])
  }

  /** n is its quotient times the base plus its last digit, and dividing shrinks it. */
  lemma DivModSplit(n: nat, base: nat)
    requires base >= 2
    ensures 0 <= n / base && 0 <= n % base < base
    ensures n == (n / base) * base + n % base
    ensures n / base + n % base <= n
    ensures n > 0 ==> n / base < n
    ensures n / base == 0 ==> n % base == n
  {
    var q, r := n / base, n % base;
    assert n == q * base + r;
    MulMono(2, base, q);
  }

  /** Appending a digit multiplies the value by the base and adds the digit. */
  lemma EvalSnoc(init: seq<nat>, d: nat, base: nat)
    ensures Eval(init + [d], base) == Eval(init, base) * base + d
  {
    assert (init + [d])[..|init|] == init;
  }

  /** Appending a digit adds it to the digit total. */
  lemma SumSnoc(init: seq<nat>, d: nat)
    ensures Sum(init + [d]) == Sum(init) + d
  {
    assert (init + [d])[..|init|] == init;
  }

  /** The expansion evaluates back to n and is empty exactly for zero. */
  lemma {:induction false} DigitsEval(n: nat, base: nat)
    requires base >= 2
    ensures Eval(Digits(n, base), base) == n
    ensures Digits(n, base) == [] <==> n == 0
    decreases n
  {
    if n > 0 {
      DivModSplit(n, base);
      DigitsEval(n / base, base);
      EvalSnoc(Digits(n / base, base), n % base, base);
    }
  }

  /** A digit appended to a canonical string keeps it canonical, unless it is a leading zero. */
  lemma CanonicalSnoc(ds: seq<nat>, d: nat, base: nat)
    requires Canonical(ds, base) && d < base && (ds == [] ==> d != 0)
    ensures Canonical(ds + [d], base)
  {
  }

  /** The expansion is canonical and its digits add up to the digit sum. */
  lemma {:induction false} DigitsCanonical(n: nat, base: nat)
    requires base >= 2
    ensures Canonical(Digits(n, base), base)
    ensures Sum(Digits(n, base)) == DigitSum(n, base)
    decreases n
  {
    if n > 0 {
      DivModSplit(n, base);
      var q: nat, d: nat := n / base, n % base;
      assert Digits(n, base) == Digits(q, base) + [d];
      assert DigitSum(n, base) == DigitSum(q, base) + d;
      DigitsCanonical(q, base);
      DigitsEval(q, base);
      CanonicalSnoc(Digits(q, base), d, base);
      SumSnoc(Digits(q, base), d);
    }
  }

  /**
   * The expansion of n is canonical, evaluates back to n, is empty exactly
   * for zero, and its digits add up to the digit sum.
   */
  lemma DigitsCorrect(n: nat, base: nat)
    requires base >= 2
    ensures Canonical(Digits(n, base), base)
    ensures Eval(Digits(n, base), base) == n
    ensures Sum(Digits(n, base)) == DigitSum(n, base)
    ensures Digits(n, base) == [] <==> n == 0
  {
    DigitsEval(n, base);
    DigitsCanonical(n, base);
  }

  /** A digit string whose value is zero has only zero digits. */
  lemma {:induction false} EvalZero(ds: seq<nat>, base: nat)
    requires base >= 2
    requires Eval(ds, base) == 0
    ensures forall i :: 0 <= i < |ds| ==> ds[i] == 0
  {
    if ds != [] {
      var init := ds[..|ds| - 1];
      assert Eval(init, base) * base == 0;
      EvalZero(init, base);
      assert forall i :: 0 <= i < |init| ==> ds[i] == init[i];
    }
  }

  /** q*b + d splits back into q and d when d is a digit. */
  lemma DivModDigit(q: nat, d: nat, base: nat)
    requires base >= 2 && d < base
    ensures (q * base + d) / base == q && (q * base + d) % base == d
  {
    var n := q * base + d;
    DivModSplit(n, base);
    var q': nat, d': nat := n / base, n % base;
    assert n == q' * base + d';
    if q' > q {
      MulMono(q + 1, q', base);
      MulSucc(q, base);
      assert false;
    } else if q' < q {
      MulMono(q' + 1, q, base);
      MulSucc(q', base);
      assert false;
    }
  }

  /** Multiplying a successor adds one more copy. */
  lemma MulSucc(a: nat, c: nat)
    ensures (a + 1) * c == a * c + c
  {
  }

  /** Multiplication by a natural is monotone. */
  lemma MulMono(a: nat, b: nat, c: nat)
    requires a <= b
    ensures a * c <= b * c
  {
  }

  /** The expansion is the only canonical digit string with a given value. */
  lemma {:induction false} DigitsUnique(ds: seq<nat>, base: nat)
    requires base >= 2
    requires Canonical(ds, base)
    ensures Digits(Eval(ds, base), base) == ds
  {
    if ds != [] {
      var init, d := ds[..|ds| - 1], ds[|ds| - 1];
      var n := Eval(ds, base);
      if n == 0 {
        EvalZero(ds, base);
        assert false;
      }
      DivModDigit(Eval(init, base), d, base);
      assert Canonical(init, base);
      DigitsUnique(init, base);
      assert ds == init + [d];
    }
  }

  /** Reversing after appending puts the new element first. */
  lemma ReverseSnoc<T>(s: seq<T>, x: T)
    ensures Reverse(s + [x]) == [x] + Reverse(s)
  {
    assert (s + [x])[..|s|] == s;
  }

  /** Moving the last digit of m to the front of the reversed tail keeps the expansion of n. */
  lemma DigitsPeel(n: nat, m: nat, q: nat, d: nat, base: nat, rev: seq<nat>)
    requires base >= 2
    requires Digits(n, base) == Digits(m, base) + Reverse(rev)
    requires Digits(m, base) == Digits(q, base) + [d]
    ensures Digits(n, base) == Digits(q, base) + Reverse(rev + [d])
  {
    ReverseSnoc(rev, d);
    MoveLast(Digits(n, base), Digits(m, base), Digits(q, base), d, Reverse(rev), Reverse(rev + [d]));
  }

  /** If x is y then r, and y ends in d, then x is y without d, then d, then r. */
  lemma MoveLast<T>(x: seq<T>, y: seq<T>, a: seq<T>, d: T, r: seq<T>, dr: seq<T>)
    requires x == y + r && y == a + [d] && dr == [d] + r
    ensures x == a + dr
  {
    assert (a + [d]) + r == a + ([d] + r);
  }

  /** The digit-sum loop of `sum_digits`. */
  method SumDigits(n: nat, base: nat) returns (s: nat)
    requires base >= 2
    ensures s == DigitSum(n, base)
    ensures s == Sum(Digits(n, base))
  {
    var m: nat := n;
    s := 0;
    while m > 0
      invariant s + DigitSum(m, base) == DigitSum(n, base)
      decreases m
    {
      DivModSplit(m, base);
      s := s + m % base;
      m := m / base;
    }
    DigitsCorrect(n, base);
  }

  /**
   * `to_base_digits`: [0] for zero; otherwise the canonical expansion,
   * collected least significant first and then reversed.
   */
  method ToBaseDigits(n: nat, base: nat) returns (ds: seq<nat>)
    requires base >= 2
    ensures n == 0 ==> ds == [0]
    ensures n > 0 ==> Canonical(ds, base) && ds != []
    ensures forall i :: 0 <= i < |ds| ==> ds[i] < base
    ensures Eval(ds, base) == n
    ensures Sum(ds) == DigitSum(n, base)
  {
    if n == 0 {
      return [0];
    }
    var m: nat := n;
    var rev: seq<nat> := [];
    while m > 0
      invariant Digits(n, base) == Digits(m, base) + Reverse(rev)
      decreases m
    {
      DivModSplit(m, base);
      var q: nat, d: nat := m / base, m % base;
      assert Digits(m, base) == Digits(q, base) + [d];
      DigitsPeel(n, m, q, d, base, rev);
      rev := rev + [d];
      m := q;
    }
    ds := Reverse(rev);
    assert ds == Digits(n, base) by {
      assert Digits(m, base) == [];
    }
    DigitsCorrect(n, base);
  }
}
