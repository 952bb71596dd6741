// Long division of big numbers. LongDivide is what the algorithm computes in any base,
// including the 32-bit product in its digit estimate; it is the true quotient and remainder
// for every pair of numbers exactly when the base is at most 65536.
module BigDivision {
  import opened Arithmetic
  import opened Digits
  import opened BigNumbers

  // ---------------------------------------------------------------- canonical digits

  function DigitsOf(n: nat, base: Base): (c: seq<nat>)
    ensures Normal(c, base) && Value(c, base) == n
    decreases n
  {
    if n < base then
      ValueOfOne(n, base);
      [n]
    else
      var q, r := n / base, n % base;
      ShrinksBy(n, base, q, r);
      var t := DigitsOf(q, base);
      assert t != [0] by { ValueOfOne(0, base); }
      DigitBelow(r, t, base);
      [r] + t
  }

  lemma DigitBelow(r: nat, t: seq<nat>, base: Base)
    requires r < base && Normal(t, base) && t != [0]
    ensures Normal([r] + t, base) && Value([r] + t, base) == r + base * Value(t, base)
  {
    ValueConcat([r], t, base);
    ValueOfOne(r, base);
    PowerOfOne(base);
    if |t| == 1 {
      assert t == [t[0]];
    }
  }

  lemma DigitsOfValue(c: seq<nat>, base: Base)
    requires Normal(c, base)
    ensures DigitsOf(Value(c, base), base) == c
  {
    NormalUnique(DigitsOf(Value(c, base), base), c, base);
  }

  // ---------------------------------------------------------------- what the algorithm computes

  // The head of the running remainder at position p, as the 32-bit expression leaves it.
  function Estimate(r: seq<nat>, p: nat, base: Base): nat {
    if p + 1 < |r| then
      NaturalProduct(r[p + 1], base);
      Wrap32(r[p] + Wrap32(r[p + 1] * base))
    else if p < |r| then r[p]
    else 0
  }

  function Quotient(n: nat, c: nat): nat
    requires c > 0
  {
    n / c
  }

  // The bracket in which the next quotient digit is looked for.
  function Bracket(a: nat, head: nat): (b: (nat, nat))
    requires head > 0
  {
    (Wrap32(Quotient(a, head + 1)), Wrap32(Quotient(a + 1, head)))
  }

  // The divisor shifted up by ii positions.
  function Shifted(d: seq<nat>, ii: nat, base: Base): nat {
    NaturalProduct(Power(base, ii), Value(d, base));
    Power(base, ii) * Value(d, base)
  }

  // What is left of n once c has been taken away k times.
  function Leaves(n: int, k: nat, c: int): int {
    n - k * c
  }

  // What one position of the quotient receives: the true digit, if the bracket holds it.
  function NextDigit(n: nat, d: seq<nat>, ii: nat, base: Base): nat
    requires Normal(d, base) && d != [0]
  {
    NotZero(d, ii, base);
    var (lo, hi) := Bracket(Estimate(DigitsOf(n, base), ii + |d| - 1, base), Head(d, base));
    var k := Quotient(n, Shifted(d, ii, base));
    if lo <= k <= hi then k else 0
  }

  function Head(d: seq<nat>, base: Base): (h: nat)
    requires Normal(d, base) && d != [0]
    ensures 0 < h < base
  {
    assert |d| == 1 ==> d == [d[0]];
    d[|d| - 1]
  }

  lemma NotZero(d: seq<nat>, ii: nat, base: Base)
    requires Normal(d, base) && d != [0]
    ensures Value(d, base) > 0 && Shifted(d, ii, base) > 0
  {
    NormalZero(d, base);
    PositiveProduct(Power(base, ii), Value(d, base));
  }

  // Quotient and remainder after the positions below count have been worked through.
  function Divide(n: nat, d: seq<nat>, count: nat, base: Base): (nat, nat)
    requires Normal(d, base) && d != [0]
  {
    if count == 0 then (0, n)
    else
      var k := NextDigit(n, d, count - 1, base);
      DigitTaken(n, d, count - 1, base);
      var (q, r) := Divide(Leaves(n, k, Shifted(d, count - 1, base)), d, count - 1, base);
      NaturalProduct(k, Power(base, count - 1));
      (k * Power(base, count - 1) + q, r)
  }

  lemma DigitTaken(n: nat, d: seq<nat>, ii: nat, base: Base)
    requires Normal(d, base) && d != [0]
    ensures NextDigit(n, d, ii, base) * Shifted(d, ii, base) <= n
  {
    hide Bracket, Estimate, Power, Value;
    NotZero(d, ii, base);
    QuotientBelow(n, Shifted(d, ii, base));
  }

  lemma QuotientBelow(n: nat, c: nat)
    requires c > 0
    ensures (n / c) * c <= n < (n / c) * c + c
  {}

  function LongDivide(n: nat, d: seq<nat>, base: Base): (nat, nat)
    requires Normal(d, base) && d != [0]
  {
    var len := |DigitsOf(n, base)|;
    if len < |d| then (0, n) else Divide(n, d, len - |d| + 1, base)
  }

  // ---------------------------------------------------------------- the bracket holds the digit

  // The two top digits never overflow 32 bits up to base 65536, so the estimate is the true head.
  lemma EstimateIsHead(r: seq<nat>, p: nat, base: Base)
    requires Proper(r, base) && |r| <= p + 2 && (base <= 0x1_0000 || |r| <= p + 1)
    ensures var a := Estimate(r, p, base); a * Power(base, p) <= Value(r, base) < (a + 1) * Power(base, p)
    ensures var a := Estimate(r, p, base); a < UINT32_RANGE && (base <= 0x1_0000 || a + 1 < UINT32_RANGE)
  {
    hide Power, Value;
    if |r| <= p {
      ValueBelow(r, base);
      PowerGrows(base, |r|, p);
      assert Estimate(r, p, base) == 0;
    } else {
      hide Estimate;
      HeadValue(r, p, base);
      AboveLow(r, p, base);
    }
  }

  // The digits from position p up give the value to within one unit of that position.
  lemma AboveLow(r: seq<nat>, p: nat, base: Base)
    requires Proper(r, base) && p <= |r|
    ensures var a := Value(r[p..], base); a * Power(base, p) <= Value(r, base) < (a + 1) * Power(base, p)
  {
    hide Power, Value;
    ValueSplit(r, p, base);
    ValueBelow(r[..p], base);
    Distribute(Power(base, p), Value(r[p..], base), 1);
  }

  lemma HeadValue(r: seq<nat>, p: nat, base: Base)
    requires Proper(r, base) && p < |r| <= p + 2 && (base <= 0x1_0000 || |r| <= p + 1)
    ensures Estimate(r, p, base) == Value(r[p..], base) < UINT32_RANGE
    ensures base <= 0x1_0000 || Estimate(r, p, base) + 1 < UINT32_RANGE
  {
    if |r| == p + 1 {
      assert r[p..] == [r[p]];
      ValueOfOne(r[p], base);
    } else {
      ValueDrop(r, p, base);
      assert r[p + 1..] == [r[p + 1]];
      ValueOfOne(r[p + 1], base);
      TwoDigitsFit(r[p], r[p + 1], base);
    }
  }

  lemma TwoDigitsFit(x: nat, y: nat, base: Base)
    requires x < base <= 0x1_0000 && y < base
    ensures 0 <= y * base && x + y * base < UINT32_RANGE
    ensures Wrap32(x + Wrap32(y * base)) == x + base * y
  {
    MulMonotone(base, y + 1, base);
    Distribute(base, y, 1);
    MulMonotone(base, base, 0x1_0000);
  }

  // The divisor lies between its head and the next one, at its top position.
  lemma DivisorHead(d: seq<nat>, ii: nat, base: Base)
    requires Normal(d, base) && d != [0]
    ensures var w := Power(base, ii + |d| - 1); var c := Shifted(d, ii, base);
            Head(d, base) * w <= c <= (Head(d, base) + 1) * w
  {
    hide Power, Value;
    var p, h := |d| - 1, Head(d, base);
    assert d[..p + 1] == d;
    ValueTake(d, p, base);
    ValueBelow(d[..p], base);
    PowerAdds(base, ii, p);
    var u, v := Power(base, ii), Power(base, p);
    Distribute(v, h, 1);
    MulMonotone(u, v * h, Value(d, base));
    MulMonotone(u, Value(d, base), v * (h + 1));
    Associate(u, v, h);
    Associate(u, v, h + 1);
  }

  // With head a of the remainder and head h of the divisor at weight w, the digit is bracketed.
  lemma DigitInBracket(n: nat, a: nat, c: nat, h: nat, w: nat)
    requires w > 0 && h > 0 && c > 0
    requires a * w <= n < (a + 1) * w && h * w <= c <= (h + 1) * w
    ensures a / (h + 1) <= n / c <= (a + 1) / h
  {
    var k, lo := n / c, a / (h + 1);
    QuotientBelow(n, c);
    QuotientBelow(a, h + 1);
    LowerEnd(n, a, c, h, w, lo);
    if lo > k {
      MulMonotone(c, k + 1, lo);
      Distribute(c, k, 1);
      assert false;
    }
    UpperEnd(n, a, c, h, w, k);
    DivideBelow(k, h, a + 1);
  }

  lemma LowerEnd(n: nat, a: nat, c: nat, h: nat, w: nat, lo: nat)
    requires a * w <= n && c <= (h + 1) * w && lo * (h + 1) <= a
    ensures lo * c <= n
  {
    MulMonotone(lo, c, (h + 1) * w);
    Associate(lo, h + 1, w);
    MulMonotone(w, lo * (h + 1), a);
  }

  lemma UpperEnd(n: nat, a: nat, c: nat, h: nat, w: nat, k: nat)
    requires n < (a + 1) * w && h * w <= c && k * c <= n && w > 0
    ensures k * h <= a + 1
  {
    MulMonotone(k, h * w, c);
    Associate(k, h, w);
    if k * h > a + 1 {
      MulMonotone(w, a + 1, k * h);
      assert false;
    }
  }

  lemma DivideBelow(k: nat, h: nat, m: nat)
    requires h > 0 && k * h <= m
    ensures k <= m / h
  {
    QuotientBelow(m, h);
    var q := m / h;
    if q < k {
      MulMonotone(h, q + 1, k);
      Distribute(h, q, 1);
      assert false;
    }
  }

  // ---------------------------------------------------------------- long division is division

  // A remainder below base times the shifted divisor has no digit above its head position.
  lemma RemainderShort(n: nat, d: seq<nat>, ii: nat, base: Base)
    requires Normal(d, base) && d != [0]
    requires n < Shifted(d, ii + 1, base)
    ensures |DigitsOf(n, base)| <= ii + |d| + 1
  {
    hide Power, Value;
    var c, m := DigitsOf(n, base), ii + 1 + |d|;
    ValueBelow(d, base);
    PowerAdds(base, ii + 1, |d|);
    MulMonotone(Power(base, ii + 1), Value(d, base), Power(base, |d|));
    if |c| > m {
      if n == 0 {
        NormalZero(c, base);
        assert false;
      }
      ValueAtLeast(c, base);
      PowerGrows(base, m, |c| - 1);
      assert false;
    }
  }

  // The upper end of the bracket fits 32 bits.
  lemma UpperEndFits(n: nat, a: nat, c: nat, h: nat, w: nat, base: Base)
    requires w > 0 && h > 0 && a * w <= n < base * c && c <= (h + 1) * w
    requires base <= 0x1_0000 || a + 1 < UINT32_RANGE
    ensures (a + 1) / h < UINT32_RANGE
  {
    if base <= 0x1_0000 {
      MulMonotone(base, c, (h + 1) * w);
      Associate(base, h + 1, w);
      if a >= base * (h + 1) {
        MulMonotone(w, base * (h + 1), a);
        assert false;
      }
      HeadBound(a, h, base);
    } else {
      QuotientBelow(a + 1, h);
      MulMonotone((a + 1) / h, 1, h);
    }
  }

  lemma HeadBound(a: nat, h: nat, base: Base)
    requires a < base * (h + 1) && h > 0
    ensures (a + 1) / h <= 2 * base
  {
    var q := (a + 1) / h;
    QuotientBelow(a + 1, h);
    MulMonotone(base, h + 1, 2 * h);
    if q > 2 * base {
      MulMonotone(h, 2 * base + 1, q);
      Distribute(h, 2 * base, 1);
      assert false;
    }
  }

  // The digit is in the bracket, so it is the one the quotient receives.
  lemma DigitFound(n: nat, d: seq<nat>, ii: nat, base: Base)
    requires Normal(d, base) && d != [0]
    requires n < Shifted(d, ii + 1, base)
    requires base <= 0x1_0000 || |DigitsOf(n, base)| <= ii + |d|
    ensures Shifted(d, ii, base) > 0
    ensures NextDigit(n, d, ii, base) == n / Shifted(d, ii, base)
  {
    var r, p, h := DigitsOf(n, base), ii + |d| - 1, Head(d, base);
    hide Power, Value, Head, Estimate, Proper, Wrap32;
    var c, w := Shifted(d, ii, base), Power(base, p);
    NotZero(d, ii, base);
    RemainderShort(n, d, ii, base);
    EstimateIsHead(r, p, base);
    DivisorHead(d, ii, base);
    var a := Estimate(r, p, base);
    DigitInBracket(n, a, c, h, w);
    PowerStep(base, ii);
    Associate(base, Power(base, ii), Value(d, base));
    UpperEndFits(n, a, c, h, w, base);
    BracketFits(a, h);
  }

  lemma BracketFits(a: nat, h: nat)
    requires h > 0 && a < UINT32_RANGE && (a + 1) / h < UINT32_RANGE
    ensures Bracket(a, h) == (a / (h + 1), (a + 1) / h)
  {
    QuotientBelow(a, h + 1);
    MulMonotone(a / (h + 1), 1, h + 1);
  }

  lemma {:induction false} DivideIsDivision(n: nat, d: seq<nat>, count: nat, base: Base)
    requires Normal(d, base) && d != [0] && base <= 0x1_0000
    requires n < Shifted(d, count, base)
    ensures Value(d, base) > 0
    ensures Divide(n, d, count, base) == (n / Value(d, base), n % Value(d, base))
    decreases count
  {
    NotZero(d, 0, base);
    var v := Value(d, base);
    if count == 0 {
      DivModUnique(n, v, 0, n);
    } else {
      var w := Power(base, count - 1);
      TakesTrueDigit(n, d, count, base);
      var k := n / (w * v);
      var rest := n - k * (w * v);
      DivideIsDivision(rest, d, count - 1, base);
      hide Power, Value, NextDigit;
      NaturalProduct(k, w);
      Associate(k, w, v);
      PeelQuotient(n, v, k * w, rest);
    }
  }

  lemma TakesTrueDigit(n: nat, d: seq<nat>, count: nat, base: Base)
    requires Normal(d, base) && d != [0] && base <= 0x1_0000 && count > 0
    requires n < Shifted(d, count, base)
    ensures Shifted(d, count - 1, base) > 0
    ensures var c := Shifted(d, count - 1, base); var k := n / c;
            NextDigit(n, d, count - 1, base) == k && 0 <= n - k * c < c
  {
    hide Power, Value, NextDigit, Normal;
    DigitFound(n, d, count - 1, base);
    QuotientBelow(n, Shifted(d, count - 1, base));
  }

  lemma PeelQuotient(n: nat, v: nat, top: nat, rest: nat)
    requires v > 0 && n == top * v + rest
    ensures n / v == top + rest / v && n % v == rest % v
  {
    var q, r := rest / v, rest % v;
    Distribute(v, top, q);
    DivModUnique(n, v, top + q, r);
  }

  // Up to base 65536 the result is the true quotient and remainder.
  lemma LongDivideIsDivision(n: nat, d: seq<nat>, base: Base)
    requires Normal(d, base) && d != [0] && base <= 0x1_0000
    ensures Value(d, base) > 0
    ensures LongDivide(n, d, base) == (n / Value(d, base), n % Value(d, base))
  {
    hide Power, Value, Divide;
    var v, c := Value(d, base), DigitsOf(n, base);
    NotZero(d, 0, base);
    if |c| < |d| {
      LongerIsLarger(d, c, base);
      DivModUnique(n, v, 0, n);
    } else {
      var count := |c| - |d| + 1;
      ValueBelow(c, base);
      ValueAtLeast(d, base);
      PowerAdds(base, count, |d| - 1);
      MulMonotone(Power(base, count), Power(base, |d| - 1), v);
      DivideIsDivision(n, d, count, base);
    }
  }

  // ---------------------------------------------------------------- and no further

  // Above base 65536 the product of the second digit with the base wraps around: the digit of
  // [0, 0, base - 1] divided by [1, base - 1] is base - 1, and the bracket ends below it.
  lemma WrappedHead(base: Base)
    requires base > 0x1_0000
    ensures 0 <= (base - 1) * base
    ensures Wrap32(0 + Wrap32((base - 1) * base)) + 1 < (base - 1) * (base - 1)
  {
    var m := base - 1;
    MulMonotone(m, 0x1_0000, m);
    MulMonotone(0x1_0000, 0x1_0000, m);
    NaturalProduct(m, base);
    if m == 0x1_0000 {
      assert m * base == 0x1_0001_0000;
    } else {
      MulMonotone(m, 0x1_0001, m);
      MulMonotone(0x1_0001, 0x1_0001, m);
    }
  }

  predicate DivisionCorrect(n: nat, d: nat, base: Base)
    requires d > 0
  {
    NormalZero(DigitsOf(d, base), base);
    LongDivide(n, DigitsOf(d, base), base) == (n / d, n % d)
  }

  lemma WitnessValues(base: Base)
    ensures Normal([0, 0, base - 1], base) && Normal([1, base - 1], base)
    ensures Value([1, base - 1], base) == 1 + base * (base - 1)
    ensures Value([0, 0, base - 1], base) == base * (base * (base - 1))
  {
    var m := base - 1;
    assert [0, 0, m][1..] == [0, m] && [0, m][1..] == [m] && [1, m][1..] == [m];
    ValueOfOne(m, base);
    assert Value([0, m], base) == base * m;
  }

  lemma WitnessQuotient(base: Base)
    requires base > 2
    ensures var m := base - 1; var d := 1 + base * m; var n := base * (base * m);
            d > 0 && n / d == m && n < base * d
  {
    var m := base - 1;
    var d, n := 1 + base * m, base * (base * m);
    var bm := base * m;
    MulMonotone(base, 1, m);
    Distribute(m, 1, bm);
    Distribute(bm, base, -1);
    Distribute(base, bm, 1);
    MulMonotone(m, 1, base);
    assert m * bm == base * bm - bm;
    DivModUnique(n, d, m, bm - m);
  }

  // A head estimate too small for the digit leaves a zero in the quotient.
  lemma DigitMissed(n: nat, d: seq<nat>, base: Base)
    requires base > 0x1_0000 && d == [1, base - 1] && n == base * (base * (base - 1))
    ensures Normal(d, base) && NextDigit(n, d, 0, base) == 0
  {
    var r, m := [0, 0, base - 1], base - 1;
    WitnessValues(base);
    WitnessQuotient(base);
    WrappedHead(base);
    DigitsOfValue(r, base);
    var a := Wrap32(0 + Wrap32(m * base));
    assert Power(base, 0) == 1;
    hide Value, DigitsOf, Wrap32, Bracket, Power;
    assert Estimate(r, 1, base) == a;
    BracketBelow(a, m);
  }

  lemma BracketBelow(a: nat, m: nat)
    requires 0 < m < UINT32_RANGE && a + 1 < m * m
    ensures Bracket(a, m).1 < m
  {
    assert Quotient(a + 1, m) < m by { DivideStrictlyBelow(a + 1, m, m); }
    hide Wrap32, Quotient;
  }

  lemma DivideStrictlyBelow(n: nat, h: nat, k: nat)
    requires h > 0 && n < k * h
    ensures n / h < k
  {
    var q := n / h;
    QuotientBelow(n, h);
    if q >= k {
      MulMonotone(h, k, q);
      assert false;
    }
  }

  // So above base 65536 long division returns quotient 0 for a true quotient of base - 1.
  lemma AboveTheBound(base: Base)
    requires base > 0x1_0000
    ensures var d, n := 1 + base * (base - 1), base * (base * (base - 1));
            d > 0 && n >= 0 && n / d == base - 1 && LongDivide(n, DigitsOf(d, base), base) == (0, n)
  {
    var m := base - 1;
    NaturalProduct(base, m);
    NaturalProduct(base, base * m);
    var ds, d: nat, n: nat := [1, m], 1 + base * m, base * (base * m);
    WitnessValues(base);
    WitnessQuotient(base);
    DigitsOfValue(ds, base);
    DigitsOfValue([0, 0, m], base);
    hide Value, DigitsOf;
    FirstDigitZero(n, ds, base);
    DigitMissed(n, ds, base);
    assert Power(base, 0) == 1;
    hide NextDigit, Power;
    assert Divide(n, ds, 0, base) == (0, n);
    assert Divide(n, ds, 1, base) == (0, n);
  }

  lemma FirstDigitZero(n: nat, d: seq<nat>, base: Base)
    requires Normal(d, base) && d != [0] && n < base * Value(d, base)
    ensures NextDigit(n, d, 1, base) == 0
  {
    PowerOfOne(base);
    DivModUnique(n, base * Value(d, base), 0, n);
  }

  // Division is right for every pair of numbers in a base exactly when the base is at most 65536.
  lemma DivisionBound(base: Base)
    ensures base <= 0x1_0000 <==> forall n: nat, d: nat | d > 0 :: DivisionCorrect(n, d, base)
  {
    if base <= 0x1_0000 {
      forall n: nat, d: nat | d > 0
        ensures DivisionCorrect(n, d, base)
      {
        NormalZero(DigitsOf(d, base), base);
        LongDivideIsDivision(n, DigitsOf(d, base), base);
      }
    } else {
      AboveTheBound(base);
      var d, n := 1 + base * (base - 1), base * (base * (base - 1));
      assert !DivisionCorrect(n, d, base);
    }
  }

  // ---------------------------------------------------------------- the digit search

  // Whether k times c still fits into n, and whether it leaves less than c.
  lemma CompareWithDigit(n: nat, c: nat, k: nat)
    requires c > 0
    ensures Leaves(n, k, c) < 0 <==> k > Quotient(n, c)
    ensures Leaves(n, k, c) >= c <==> k < Quotient(n, c)
  {
    var q := n / c;
    QuotientBelow(n, c);
    if k > q {
      MulMonotone(c, q + 1, k);
      Distribute(c, q, 1);
    } else if k < q {
      MulMonotone(c, k + 1, q);
      Distribute(c, k, 1);
    }
  }

  // Binary search of the quotient digit between minK and maxK, by trial multiplication.
  method SearchDigit(remainder: BigNum, divisor: BigNum, curDivisor: BigNum, ii: nat, minK: nat, maxK: nat)
      returns (found: bool, k: nat, left: BigNum)
    requires remainder.Valid() && divisor.Valid() && curDivisor.Valid()
    requires remainder.base == divisor.base == curDivisor.base
    requires remainder.symbol && divisor.symbol && curDivisor.symbol
    requires curDivisor.Number() == Shifted(divisor.content, ii, divisor.base) > 0
    requires Quotient(remainder.Number(), curDivisor.Number()) < UINT32_MAX
    requires minK < UINT32_RANGE && maxK < UINT32_RANGE
    ensures found <==> minK <= Quotient(remainder.Number(), curDivisor.Number()) <= maxK
    ensures !found ==> left == remainder
    ensures found ==> k == Quotient(remainder.Number(), curDivisor.Number())
    ensures found ==> fresh(left) && left.Valid() && left.base == remainder.base && left.symbol
    ensures found ==> left.Number() == Leaves(remainder.Number(), k, curDivisor.Number())
  {
    var lo, hi := minK, maxK;
    ghost var n, c := remainder.Number(), curDivisor.Number();
    ghost var q := Quotient(n, c);
    hide Quotient, Leaves;
    found, k, left := false, 0, remainder;
    while lo <= hi
      invariant 0 <= lo < UINT32_RANGE && 0 <= hi < UINT32_RANGE
      invariant minK <= q <= maxK <==> lo <= q <= hi
      decreases hi - lo
    {
      var curK := lo + (hi - lo) / 2;
      CompareWithDigit(n, c, curK);
      var curRemainder := Subtracted(remainder, divisor, curK, ii);
      if !curRemainder.symbol {
        hi := curK - 1;
      } else {
        var order := BigNum.Compare(curRemainder, curDivisor);
        if order >= 0 {
          lo := curK + 1;
        } else {
          return true, curK, curRemainder;
        }
      }
    }
  }

  // The remainder less k times the divisor shifted up by ii digits.
  method Subtracted(remainder: BigNum, divisor: BigNum, k: nat, ii: nat) returns (left: BigNum)
    requires remainder.Valid() && divisor.Valid() && remainder.base == divisor.base && k < UINT32_RANGE
    ensures fresh(left) && left.Valid() && left.base == remainder.base
    ensures divisor.symbol ==> left.Number() == Leaves(remainder.Number(), k, Shifted(divisor.content, ii, divisor.base))
    ensures left.Number() == 0 ==> left.symbol == remainder.symbol
  {
    hide Power, Value, Normal;
    var factor := new BigNum(k, divisor.base, ii);
    var product := factor.Times(divisor);
    left := remainder.Minus(product);
    Associate(k, Power(divisor.base, ii), divisor.Number());
  }

  // The bracket, computed from the digits as they stand.
  method FindBracket(r: seq<nat>, d: seq<nat>, ii: nat, base: Base) returns (minK: nat, maxK: nat)
    requires Normal(d, base) && d != [0]
    ensures (minK, maxK) == Bracket(Estimate(r, ii + |d| - 1, base), Head(d, base))
    ensures minK < UINT32_RANGE && maxK < UINT32_RANGE
  {
    hide Wrap32;
    var curNum: nat := 0;
    var p := ii + |d| - 1;
    if p + 1 < |r| {
      NaturalProduct(r[p + 1], base);
      curNum := Wrap32(r[p] + Wrap32(r[p + 1] * base));
    } else if p < |r| {
      curNum := r[p];
    }
    assert curNum == Estimate(r, p, base);
    var head := Head(d, base);
    hide Estimate, Head;
    minK := Wrap32(curNum / (head + 1));
    maxK := Wrap32((curNum + 1) / head);
  }

  // One position of the quotient: the digit and the remainder it leaves.
  method DivideStep(remainder: BigNum, divisor: BigNum, ii: nat) returns (k: nat, left: BigNum)
    requires remainder.Valid() && divisor.Valid() && divisor.content != [0]
    requires remainder.base == divisor.base && remainder.symbol && divisor.symbol
    requires remainder.Magnitude() < Shifted(divisor.content, ii + 1, divisor.base)
    ensures k == NextDigit(remainder.Magnitude(), divisor.content, ii, divisor.base) < divisor.base
    ensures left.Valid() && left.base == remainder.base && left.symbol && (left == remainder || fresh(left))
    ensures left.Magnitude() == Leaves(remainder.Magnitude(), k, Shifted(divisor.content, ii, divisor.base))
  {
    hide Value, Power, Normal, DigitsOf, Estimate, Head, Bracket, NextDigit, Shifted, Quotient, Leaves;
    ghost var n := remainder.Magnitude();
    SearchBounds(n, divisor.content, ii, divisor.base);
    DigitsOfValue(remainder.content, remainder.base);
    var minK, maxK := FindBracket(remainder.content, divisor.content, ii, divisor.base);
    var curDivisor := divisor.ShiftUp(ii);
    ShiftedIs(divisor.content, ii, divisor.base);
    var found;
    found, k, left := SearchDigit(remainder, divisor, curDivisor, ii, minK, maxK);
    if !found {
      k := 0;
      LeavesAll(n, Shifted(divisor.content, ii, divisor.base));
    }
    DigitTakenIs(n, divisor.content, ii, divisor.base, minK, maxK, k);
  }

  lemma LeavesAll(n: int, c: int)
    ensures Leaves(n, 0, c) == n
  {}

  lemma ShiftedIs(d: seq<nat>, ii: nat, base: Base)
    ensures Value(d, base) * Power(base, ii) == Shifted(d, ii, base)
  {
    hide Value, Power;
  }

  lemma SearchBounds(n: nat, d: seq<nat>, ii: nat, base: Base)
    requires Normal(d, base) && d != [0]
    requires n < Shifted(d, ii + 1, base)
    ensures var c := Shifted(d, ii, base); 0 < c && Quotient(n, c) < base
  {
    hide Value, Power, Normal;
    var c := Shifted(d, ii, base);
    NotZero(d, ii, base);
    PowerStep(base, ii);
    Associate(base, Power(base, ii), Value(d, base));
    DivideStrictlyBelow(n, c, base);
  }

  lemma DigitTakenIs(n: nat, d: seq<nat>, ii: nat, base: Base, lo: nat, hi: nat, k: nat)
    requires Normal(d, base) && d != [0] && Shifted(d, ii, base) > 0
    requires (lo, hi) == Bracket(Estimate(DigitsOf(n, base), ii + |d| - 1, base), Head(d, base))
    requires var q := Quotient(n, Shifted(d, ii, base)); k == if lo <= q <= hi then q else 0
    ensures NextDigit(n, d, ii, base) == k
  {
    hide Value, Power, Normal, DigitsOf, Estimate, Head, Bracket;
  }

  // The remainder shrinks below the next position whenever the true digit was taken.
  lemma StepBounds(n: nat, d: seq<nat>, ii: nat, base: Base)
    requires Normal(d, base) && d != [0]
    requires n < Shifted(d, ii + 1, base)
    requires base <= 0x1_0000 || |DigitsOf(n, base)| <= ii + |d|
    ensures Leaves(n, NextDigit(n, d, ii, base), Shifted(d, ii, base)) < Shifted(d, ii, base)
  {
    hide Power, Value, NextDigit, Normal;
    DigitFound(n, d, ii, base);
    QuotientBelow(n, Shifted(d, ii, base));
  }

  lemma StepTaken(n: nat, d: seq<nat>, ii: nat, base: Base, vec: seq<nat>, rest: nat, k: nat)
    requires Normal(d, base) && d != [0] && ii < |vec| && vec[ii] == 0
    requires k == NextDigit(n, d, ii, base) && rest == Leaves(n, k, Shifted(d, ii, base))
    ensures Value(vec, base) + Divide(n, d, ii + 1, base).0 == Value(vec[ii := k], base) + Divide(rest, d, ii, base).0
    ensures Divide(n, d, ii + 1, base).1 == Divide(rest, d, ii, base).1
  {
    hide Power, Value, NextDigit, Divide;
    ValueUpdate(vec, ii, k, base);
    DivideUnfolds(n, d, ii, base);
  }

  lemma DivideUnfolds(n: nat, d: seq<nat>, ii: nat, base: Base)
    requires Normal(d, base) && d != [0]
    ensures var k := NextDigit(n, d, ii, base); var rest := Leaves(n, k, Shifted(d, ii, base));
            rest >= 0 && Divide(n, d, ii + 1, base).0 == k * Power(base, ii) + Divide(rest, d, ii, base).0
            && Divide(n, d, ii + 1, base).1 == Divide(rest, d, ii, base).1
  {
    hide Power, Value, NextDigit;
    DigitTaken(n, d, ii, base);
  }

  lemma DividendBound(c: seq<nat>, d: seq<nat>, base: Base)
    requires Normal(c, base) && Normal(d, base) && d != [0] && |c| >= |d|
    ensures Value(c, base) < Shifted(d, |c| - |d| + 1, base)
  {
    hide Power, Value;
    var count := |c| - |d| + 1;
    if |d| == 1 {
      assert d == [d[0]];
    }
    ValueBelow(c, base);
    ValueAtLeast(d, base);
    PowerAdds(base, count, |d| - 1);
    MulMonotone(Power(base, count), Power(base, |d| - 1), Value(d, base));
  }

  // The loop over the positions of the quotient, from the top down. Above base 65536 it is
  // followed for at most two positions: a missed digit can only be the last one.
  method DivideLoop(dividend: BigNum, divisor: BigNum) returns (vec: seq<nat>, remainder: BigNum)
    requires dividend.Valid() && divisor.Valid() && divisor.content != [0]
    requires dividend.base == divisor.base && dividend.symbol && divisor.symbol
    requires |dividend.content| >= |divisor.content|
    requires divisor.base <= 0x1_0000 || |dividend.content| <= |divisor.content| + 1
    ensures |vec| >= 1 && Proper(vec, divisor.base)
    ensures remainder.Valid() && remainder.base == divisor.base && remainder.symbol
    ensures remainder == dividend || fresh(remainder)
    ensures (Value(vec, divisor.base), remainder.Magnitude())
         == LongDivide(dividend.Magnitude(), divisor.content, divisor.base)
  {
    hide Value, Power, Divide, NextDigit, DigitsOf, Normal, Shifted, LongDivide, Leaves;
    var d, base: Base := divisor.content, divisor.base;
    ghost var n0 := dividend.Magnitude();
    assert |dividend.content| >= |d| >= 1 by { NormalLength(d, base); }
    var count := |dividend.content| - |d| + 1;
    DividendBound(dividend.content, d, base);
    DigitsOfValue(dividend.content, base);
    LongDivideStarts(dividend.content, d, base);
    vec := Zeros(count);
    ValueOfZeros(vec, base);
    remainder := dividend;
    var ii := count;
    ghost var goal := LongDivide(n0, d, base);
    while ii > 0
      invariant 0 <= ii <= count == |vec| && Proper(vec, base)
      invariant forall k :: 0 <= k < ii ==> vec[k] == 0
      invariant remainder == dividend || fresh(remainder)
      invariant remainder.Valid() && remainder.base == base && remainder.symbol
      invariant ii == count ==> remainder.Magnitude() == n0
      invariant ii == 0 || remainder.Magnitude() < Shifted(d, ii, base)
      invariant goal.0 == Value(vec, base) + Divide(remainder.Magnitude(), d, ii, base).0
      invariant goal.1 == Divide(remainder.Magnitude(), d, ii, base).1
    {
      ii := ii - 1;
      ghost var n := remainder.Magnitude();
      var k, left := DivideStep(remainder, divisor, ii);
      StepTaken(n, d, ii, base, vec, left.Magnitude(), k);
      if ii > 0 {
        StepBounds(n, d, ii, base);
      }
      vec := vec[ii := k];
      remainder := left;
    }
    DivideNothing(remainder.Magnitude(), d, base);
  }

  lemma NormalLength(d: seq<nat>, base: Base)
    requires Normal(d, base)
    ensures |d| >= 1
  {}

  lemma LongDivideStarts(c: seq<nat>, d: seq<nat>, base: Base)
    requires Normal(c, base) && Normal(d, base) && d != [0] && |c| >= |d|
    ensures LongDivide(Value(c, base), d, base) == Divide(Value(c, base), d, |c| - |d| + 1, base)
  {
    hide Value, Divide, DigitsOf;
    DigitsOfValue(c, base);
  }

  lemma DivideNothing(n: nat, d: seq<nat>, base: Base)
    requires Normal(d, base) && d != [0]
    ensures Divide(n, d, 0, base) == (0, n)
  {}

  // ---------------------------------------------------------------- division of signed numbers

  // The divisor without its sign, in the dividend's base.
  method PrepareDivisor(dividend: BigNum, value: BigNum) returns (divisor: BigNum)
    requires dividend.Valid() && value.Valid() && value.Number() != 0
    ensures fresh(divisor) && divisor.Valid() && divisor.base == dividend.base && divisor.symbol
    ensures divisor.Magnitude() == value.Magnitude()
    ensures divisor.content == DigitsOf(value.Magnitude(), dividend.base) && divisor.content != [0]
  {
    hide Value, DigitsOf, Normal;
    var operand := dividend.InMyBase(value);
    divisor := BigNum.Abs(operand);
    DigitsOfValue(divisor.content, divisor.base);
    NormalZero(divisor.content, divisor.base);
  }

  // Quotient and remainder, or the exception for a zero divisor.
  method Div(dividend: BigNum, value: BigNum) returns (threw: bool, quotient: BigNum?, remainder: BigNum?)
    requires dividend.Valid() && value.Valid()
    requires dividend.base <= 0x1_0000
          || |dividend.content| <= |DigitsOf(value.Magnitude(), dividend.base)| + 1
    ensures threw <==> value.Number() == 0
    ensures !threw ==> quotient != null && remainder != null && fresh(quotient) && fresh(remainder)
    ensures !threw ==> quotient.Valid() && remainder.Valid()
    ensures !threw ==> quotient.base == remainder.base == dividend.base
    ensures !threw ==> DigitsOf(value.Magnitude(), dividend.base) != [0]
    ensures !threw ==> ((quotient.Magnitude(), remainder.Magnitude())
      == LongDivide(dividend.Magnitude(), DigitsOf(value.Magnitude(), dividend.base), dividend.base))
    ensures !threw ==> remainder.symbol == dividend.symbol
    ensures !threw ==> quotient.Number() == 0 || quotient.symbol == (dividend.symbol == value.symbol)
    ensures !threw && dividend.base <= 0x1_0000 ==>
              dividend.Number() == quotient.Number() * value.Number() + remainder.Number()
              && remainder.Magnitude() < value.Magnitude()
  {
    hide Value, DigitsOf, Normal, LongDivide;
    value.EmptyIsZero();
    if value.Empty() {
      return true, null, null;
    }
    var divisor := PrepareDivisor(dividend, value);
    if |dividend.content| < |divisor.content| {
      quotient := new BigNum(0, dividend.base, 0);
      remainder := new BigNum.Copy(dividend);
      ShorterDividend(dividend.content, divisor.content, dividend.base);
    } else {
      quotient, remainder := DivideMagnitudes(dividend, divisor);
      quotient.symbol := dividend.symbol == value.symbol;
      remainder.symbol := dividend.symbol;
    }
    threw := false;
    if dividend.base <= 0x1_0000 {
      SignedDivision(dividend.Magnitude(), divisor.content, dividend.base, dividend.symbol, value.symbol,
                     quotient.Magnitude(), remainder.Magnitude());
    }
  }

  method DivideMagnitudes(dividend: BigNum, divisor: BigNum) returns (quotient: BigNum, remainder: BigNum)
    requires dividend.Valid() && divisor.Valid() && divisor.content != [0]
    requires dividend.base == divisor.base && divisor.symbol
    requires |dividend.content| >= |divisor.content|
    requires divisor.base <= 0x1_0000 || |dividend.content| <= |divisor.content| + 1
    ensures fresh(quotient) && quotient.Valid() && quotient.base == divisor.base
    ensures fresh(remainder) && remainder.Valid() && remainder.base == divisor.base && quotient != remainder
    ensures (quotient.Magnitude(), remainder.Magnitude())
         == LongDivide(dividend.Magnitude(), divisor.content, divisor.base)
  {
    hide Value, Normal, LongDivide;
    var start := BigNum.Abs(dividend);
    var vec;
    vec, remainder := DivideLoop(start, divisor);
    vec := Trim(vec, divisor.base);
    quotient := new BigNum(0, dividend.base, 0);
    quotient.content := vec;
  }

  lemma ShorterDividend(c: seq<nat>, d: seq<nat>, base: Base)
    requires Normal(c, base) && Normal(d, base) && d != [0] && |c| < |d|
    ensures LongDivide(Value(c, base), d, base) == (0, Value(c, base))
  {
    hide Value, DigitsOf;
    DigitsOfValue(c, base);
  }

  // The signs of quotient and remainder fit the division of the magnitudes.
  lemma SignedDivision(n: nat, d: seq<nat>, base: Base, s: bool, t: bool, q: nat, r: nat)
    requires Normal(d, base) && d != [0] && base <= 0x1_0000
    requires (q, r) == LongDivide(n, d, base)
    ensures r < Value(d, base) && Signed(s, n) == Signed(s == t, q) * Signed(t, Value(d, base)) + Signed(s, r)
  {
    hide LongDivide, Value, Normal, Signed;
    LongDivideIsDivision(n, d, base);
    QuotientBelow(n, Value(d, base));
    Signs(n, q, Value(d, base), r, s, t);
  }

  lemma Signs(n: int, q: int, v: int, r: int, s: bool, t: bool)
    requires n == q * v + r
    ensures Signed(s, n) == Signed(s == t, q) * Signed(t, v) + Signed(s, r)
  {
    SignedProduct(q, v, s == t, t);
  }

  function Signed(s: bool, n: int): int {
    if s then n else -n
  }
}
