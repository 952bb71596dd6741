// Numbers written with little-endian digits in an arbitrary base: what a digit vector
// denotes, and the facts about it that the big number algorithms rest on.
module Digits {
  import opened Arithmetic

  const UINT32_RANGE := 0x1_0000_0000
  const UINT64_RANGE := 0x1_0000_0000_0000_0000

  type Base = b: nat | 2 <= b < UINT32_RANGE witness 2

  function Power(base: nat, n: nat): (p: nat)
    ensures base > 0 ==> p > 0
  {
    if n == 0 then 1
    else if base == 0 then 0
    else
      PositiveProduct(base, Power(base, n - 1));
      base * Power(base, n - 1)
  }

  // The number denoted by the digits c, the lowest digit first.
  function Value(c: seq<nat>, base: nat): nat {
    if c == [] then 0
    else
      NaturalProduct(base, Value(c[1..], base));
      c[0] + base * Value(c[1..], base)
  }

  ghost predicate Proper(c: seq<nat>, base: nat) {
    forall k :: 0 <= k < |c| ==> c[k] < base
  }

  // At least one digit, and no zero on top of another digit.
  ghost predicate Normal(c: seq<nat>, base: nat) {
    Proper(c, base) && |c| >= 1 && (|c| > 1 ==> c[|c| - 1] != 0)
  }

  // ---------------------------------------------------------------- powers

  lemma {:induction false} PowerAdds(base: nat, m: nat, n: nat)
    requires base > 0
    ensures Power(base, m + n) == Power(base, m) * Power(base, n)
  {
    if m > 0 {
      PowerAdds(base, m - 1, n);
      Associate(base, Power(base, m - 1), Power(base, n));
    }
  }

  lemma PowerStep(base: nat, n: nat)
    requires base > 0
    ensures Power(base, n + 1) == base * Power(base, n) == Power(base, n) * base
  {}

  lemma {:induction false} PowerGrows(base: nat, m: nat, n: nat)
    requires base > 0 && m <= n
    ensures Power(base, m) <= Power(base, n)
    decreases n
  {
    if m < n {
      PowerGrows(base, m, n - 1);
      MulMonotone(Power(base, n - 1), 1, base);
    }
  }

  // ---------------------------------------------------------------- values

  lemma {:induction false} ValueConcat(a: seq<nat>, b: seq<nat>, base: nat)
    requires base > 0
    ensures Value(a + b, base) == Value(a, base) + Power(base, |a|) * Value(b, base)
  {
    if a == [] {
      assert a + b == b;
    } else {
      hide Power;
      var t := a[1..];
      assert (a + b)[1..] == t + b;
      ValueConcat(t, b, base);
      Distribute(base, Value(t, base), Power(base, |t|) * Value(b, base));
      PowerStep(base, |t|);
      Associate(base, Power(base, |t|), Value(b, base));
    }
  }

  lemma ValueOfOne(d: nat, base: nat)
    ensures Value([d], base) == d
  {
    assert [d][1..] == [];
  }

  // One more digit on top.
  lemma ValuePush(c: seq<nat>, d: nat, base: nat)
    requires base > 0
    ensures Value(c + [d], base) == Value(c, base) + Power(base, |c|) * d
  {
    ValueConcat(c, [d], base);
    ValueOfOne(d, base);
  }

  // Reading one digit further up.
  lemma ValueTake(c: seq<nat>, i: nat, base: nat)
    requires base > 0 && i < |c|
    ensures Value(c[..i + 1], base) == Value(c[..i], base) + Power(base, i) * c[i]
  {
    assert c[..i + 1] == c[..i] + [c[i]];
    ValuePush(c[..i], c[i], base);
  }

  // Reading one digit further down.
  lemma ValueDrop(c: seq<nat>, i: nat, base: nat)
    requires i < |c|
    ensures Value(c[i..], base) == c[i] + base * Value(c[i + 1..], base)
  {
    assert c[i..][1..] == c[i + 1..];
  }

  lemma ValueSplit(c: seq<nat>, i: nat, base: nat)
    requires base > 0 && i <= |c|
    ensures Value(c, base) == Value(c[..i], base) + Power(base, i) * Value(c[i..], base)
  {
    assert c == c[..i] + c[i..];
    ValueConcat(c[..i], c[i..], base);
  }

  lemma {:induction false} ValueBelow(c: seq<nat>, base: nat)
    requires base > 0 && Proper(c, base)
    ensures Value(c, base) < Power(base, |c|)
  {
    if c != [] {
      assert Proper(c[1..], base);
      ValueBelow(c[1..], base);
      MulStrict(base, Value(c[1..], base), Power(base, |c| - 1));
    }
  }

  lemma ValueAtLeast(c: seq<nat>, base: nat)
    requires base > 0 && |c| >= 1 && c[|c| - 1] != 0
    ensures Power(base, |c| - 1) <= Value(c, base)
  {
    var i := |c| - 1;
    assert c[..i + 1] == c;
    ValueTake(c, i, base);
    MulMonotone(Power(base, i), 1, c[i]);
  }

  // Writing a digit where a zero was.
  lemma ValueUpdate(c: seq<nat>, i: nat, d: nat, base: nat)
    requires base > 0 && i < |c| && c[i] == 0
    ensures Value(c[i := d], base) == Value(c, base) + d * Power(base, i)
  {
    hide Value, Power;
    var u := c[i := d];
    ValueSplit(c, i + 1, base);
    ValueSplit(u, i + 1, base);
    ValueTake(c, i, base);
    ValueTake(u, i, base);
    assert u[..i] == c[..i] && u[i + 1..] == c[i + 1..];
  }

  function Zeros(n: nat): (z: seq<nat>)
    ensures |z| == n && forall k :: 0 <= k < n ==> z[k] == 0
  {
    seq(n, k => 0)
  }

  lemma {:induction false} ValueOfZeros(c: seq<nat>, base: nat)
    requires forall k :: 0 <= k < |c| ==> c[k] == 0
    ensures Value(c, base) == 0
  {
    if c != [] {
      ValueOfZeros(c[1..], base);
    }
  }

  // n zero digits below c multiply its value by the n-th power of the base.
  lemma ValueShifted(c: seq<nat>, n: nat, base: nat)
    requires base > 0
    ensures Value(Zeros(n) + c, base) == Power(base, n) * Value(c, base)
  {
    ValueConcat(Zeros(n), c, base);
    ValueOfZeros(Zeros(n), base);
  }

  // A normal vector is zero exactly when it is the single digit 0.
  lemma NormalZero(c: seq<nat>, base: nat)
    requires base > 0 && Normal(c, base)
    ensures Value(c, base) == 0 <==> c == [0]
  {
    if |c| == 1 {
      ValueOfOne(c[0], base);
      assert c == [c[0]];
    } else {
      ValueAtLeast(c, base);
    }
  }

  // The more digits, the larger the number.
  lemma LongerIsLarger(a: seq<nat>, b: seq<nat>, base: nat)
    requires base > 0 && Normal(a, base) && Normal(b, base) && |a| > |b|
    ensures Value(a, base) > Value(b, base)
  {
    ValueAtLeast(a, base);
    ValueBelow(b, base);
    PowerGrows(base, |b|, |a| - 1);
  }

  // The highest digit that differs decides.
  lemma HigherDigitDecides(a: seq<nat>, b: seq<nat>, i: nat, base: nat)
    requires base > 0 && Proper(a, base) && Proper(b, base) && |a| == |b|
    requires i < |a| && a[i + 1..] == b[i + 1..] && a[i] > b[i]
    ensures Value(a, base) > Value(b, base)
  {
    hide Power, Value;
    ValueSplit(a, i + 1, base);
    ValueSplit(b, i + 1, base);
    ValueTake(a, i, base);
    ValueTake(b, i, base);
    assert Proper(b[..i], base);
    ValueBelow(b[..i], base);
    MulStrict(Power(base, i), b[i], a[i]);
  }

  // Two normal vectors with the same value are the same digits.
  lemma {:induction false} DigitsUnique(a: seq<nat>, b: seq<nat>, base: nat)
    requires base > 1 && Proper(a, base) && Proper(b, base) && |a| == |b|
    requires Value(a, base) == Value(b, base)
    ensures a == b
  {
    if a != [] {
      var s, t := a[1..], b[1..];
      DivModUnique(Value(a, base), base, Value(s, base), a[0]);
      DivModUnique(Value(b, base), base, Value(t, base), b[0]);
      DigitsUnique(s, t, base);
      assert a == [a[0]] + s && b == [b[0]] + t;
    }
  }

  lemma NormalUnique(a: seq<nat>, b: seq<nat>, base: nat)
    requires base > 1 && Normal(a, base) && Normal(b, base)
    requires Value(a, base) == Value(b, base)
    ensures a == b
  {
    hide Value;
    if |a| > |b| {
      LongerIsLarger(a, b, base);
    } else if |b| > |a| {
      LongerIsLarger(b, a, base);
    } else {
      DigitsUnique(a, b, base);
    }
  }

  // ---------------------------------------------------------------- trimming

  // Drops the zero digits on top, keeping at least one digit.
  method Trim(c: seq<nat>, base: nat) returns (r: seq<nat>)
    requires base > 0 && |c| >= 1 && Proper(c, base)
    ensures Normal(r, base) && Value(r, base) == Value(c, base) && |r| <= |c|
  {
    r := c;
    while |r| > 1 && r[|r| - 1] == 0
      invariant 1 <= |r| <= |c| && Proper(r, base)
      invariant Value(r, base) == Value(c, base)
      decreases |r|
    {
      assert r == r[..|r| - 1] + [r[|r| - 1]];
      ValuePush(r[..|r| - 1], r[|r| - 1], base);
      r := r[..|r| - 1];
    }
  }
}
