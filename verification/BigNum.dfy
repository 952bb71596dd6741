// Sign-magnitude integers over 32-bit digits in an arbitrary base. The digit loops work on
// the vectors of digits and spell out the unsigned wrap-around; the class ties them together
// and relates every operation to the integer that the object denotes.
module BigNumbers {
  import opened Arithmetic
  import opened Digits

  const UINT32_MAX: nat := 0xFFFF_FFFF

  function Wrap32(x: int): (r: nat)
    ensures r < UINT32_RANGE
    ensures 0 <= x < UINT32_RANGE ==> r == x
  {
    x % UINT32_RANGE
  }

  function Wrap64(x: int): (r: nat)
    ensures 0 <= x < UINT64_RANGE ==> r == x
  {
    x % UINT64_RANGE
  }

  // ---------------------------------------------------------------- column arithmetic

  // One column of a long addition read with a carry c in and a carry d out.
  lemma ColumnAdds(base: int, p: int, va: int, vb: int, vr: int, c: int, x: int, y: int, digit: int, d: int)
    requires vr + p * c == va + vb
    requires digit + base * d == c + x + y
    ensures (vr + p * digit) + (p * base) * d == (va + p * x) + (vb + p * y)
  {
    Associate(p, base, d);
    Distribute(p, digit, base * d);
    Distribute(p, c + x, y);
    Distribute(p, c, x);
  }

  // The wrapped 32-bit sum of two digits and a carry c, with the test for a carry out.
  method AddColumn(a: nat, b: nat, c: nat, base: Base) returns (digit: nat, carry: nat)
    requires a < base && b < base && c <= 1
    ensures digit < base && carry <= 1 && digit + base * carry == c + a + b
  {
    digit, carry := Wrap32(c + Wrap32(a + b)), 0;
    if digit >= base || digit < a {
      carry := 1;
      digit := Wrap32(digit - base);
    }
  }

  // The same column over the vectors: was is the result before the step, re after it.
  lemma SumColumn(was: seq<nat>, re: seq<nat>, a: seq<nat>, ii: nat, vb: nat, y: nat, base: Base)
    requires ii < |a| && ii + 1 < |re| == |was| && re[..ii] == was[..ii]
    requires Value(was[..ii], base) + Power(base, ii) * was[ii] == Value(a[..ii], base) + vb
    requires re[ii] + base * re[ii + 1] == was[ii] + a[ii] + y
    ensures Value(re[..ii + 1], base) + Power(base, ii + 1) * re[ii + 1]
         == Value(a[..ii + 1], base) + (vb + Power(base, ii) * y)
  {
    hide Value, Power;
    ValueTake(re, ii, base);
    ValueTake(a, ii, base);
    PowerStep(base, ii);
    ColumnAdds(base, Power(base, ii), Value(a[..ii], base), vb, Value(was[..ii], base), was[ii], a[ii], y,
               re[ii], re[ii + 1]);
  }

  // One column of a subtraction: c is the borrow in and d the borrow out.
  lemma DifferenceColumn(was: seq<nat>, re: seq<nat>, a: seq<nat>, ii: nat, vb: nat, y: nat,
                         c: nat, d: nat, base: Base)
    requires ii < |a| && ii < |re| == |was| && re[..ii] == was[..ii]
    requires Value(a[..ii], base) + Power(base, ii) * c == vb + Value(was[..ii], base)
    requires a[ii] + base * d == c + y + re[ii]
    ensures Value(a[..ii + 1], base) + Power(base, ii + 1) * d
         == (vb + Power(base, ii) * y) + Value(re[..ii + 1], base)
  {
    hide Value, Power;
    ValueTake(re, ii, base);
    ValueTake(a, ii, base);
    PowerStep(base, ii);
    ColumnAdds(base, Power(base, ii), vb, Value(was[..ii], base), Value(a[..ii], base), c, y, re[ii], a[ii], d);
  }

  lemma NoBorrowOut(va: nat, vb: nat, vr: nat, p: nat, flag: nat)
    requires va + p * flag == vb + vr && vr < p && va >= vb
    ensures flag == 0
  {
    if flag >= 1 {
      MulMonotone(p, 1, flag);
      assert false;
    }
  }

  // ---------------------------------------------------------------- digit loops

  // Long addition, a at least as long as b.
  method SumDigits(a: seq<nat>, b: seq<nat>, base: Base) returns (re: seq<nat>)
    requires |a| >= |b| && Proper(a, base) && Proper(b, base)
    ensures |re| == |a| + 1 && Proper(re, base)
    ensures Value(re, base) == Value(a, base) + Value(b, base)
  {
    hide Value, Power, Wrap32;
    re := SumShared(a, b, base);
    ghost var low := re;
    var ii := |b|;
    ValueSplit(a, ii, base);
    assert b[..|b|] == b;
    while ii < |a|
      invariant |b| <= ii <= |a| && |re| == |a| + 1
      invariant forall k :: 0 <= k < ii ==> re[k] < base
      invariant re[ii] <= 1 && forall k :: ii < k < |re| ==> re[k] == 0
      invariant Value(re[..ii], base) + Power(base, ii) * re[ii] == Value(a[..ii], base) + Value(b, base)
    {
      ghost var was := re;
      re := re[ii := Wrap32(re[ii] + a[ii])];
      if re[ii] == base {
        re := re[ii := 0];
        re := re[ii + 1 := 1];
      }
      SumColumn(was, re, a, ii, Value(b, base), 0, base);
      ii := ii + 1;
    }
    assert a[..|a|] == a;
    ValueTake(re, |a|, base);
    assert re[..|a| + 1] == re;
  }

  // The first loop of long addition: the columns that both numbers have.
  method SumShared(a: seq<nat>, b: seq<nat>, base: Base) returns (re: seq<nat>)
    requires |a| >= |b| && Proper(a, base) && Proper(b, base)
    ensures |re| == |a| + 1
    ensures forall k :: 0 <= k < |b| ==> re[k] < base
    ensures re[|b|] <= 1 && forall k :: |b| < k < |re| ==> re[k] == 0
    ensures Value(re[..|b|], base) + Power(base, |b|) * re[|b|] == Value(a[..|b|], base) + Value(b, base)
  {
    re := Zeros(|a| + 1);
    var ii := 0;
    assert re[..0] == [] && a[..0] == [] && b[..0] == [];
    hide Value, Power, Wrap32;
    while ii < |b|
      invariant 0 <= ii <= |b| && |re| == |a| + 1
      invariant forall k :: 0 <= k < ii ==> re[k] < base
      invariant re[ii] <= 1 && forall k :: ii < k < |re| ==> re[k] == 0
      invariant Value(re[..ii], base) + Power(base, ii) * re[ii] == Value(a[..ii], base) + Value(b[..ii], base)
    {
      ghost var was := re;
      var digit, carry := AddColumn(a[ii], b[ii], re[ii], base);
      re := re[ii := digit][ii + 1 := carry];
      SumColumn(was, re, a, ii, Value(b[..ii], base), b[ii], base);
      ValueTake(b, ii, base);
      ii := ii + 1;
    }
    assert b[..|b|] == b;
  }

  // Long subtraction of the smaller number b from a.
  method DifferenceDigits(a: seq<nat>, b: seq<nat>, base: Base) returns (re: seq<nat>)
    requires |a| >= |b| && Proper(a, base) && Proper(b, base) && Value(a, base) >= Value(b, base)
    ensures |re| == |a| && Proper(re, base)
    ensures Value(re, base) == Value(a, base) - Value(b, base)
  {
    hide Value, Power, Wrap32;
    var flag;
    re, flag := DifferenceShared(a, b, base);
    var ii := |b|;
    while ii < |a|
      invariant |b| <= ii <= |a| && |re| == |a| && flag <= 1
      invariant forall k :: 0 <= k < ii ==> re[k] < base
      invariant Value(a[..ii], base) + Power(base, ii) * flag == Value(b, base) + Value(re[..ii], base)
    {
      ghost var was, c := re, flag;
      if flag != 0 && a[ii] == 0 {
        re := re[ii := Wrap32(base - 1)];
        flag := 1;
      } else {
        re := re[ii := Wrap32(a[ii] - flag)];
        flag := 0;
      }
      DifferenceColumn(was, re, a, ii, Value(b, base), 0, c, flag, base);
      ii := ii + 1;
    }
    assert a[..|a|] == a && re[..|a|] == re;
    ValueBelow(re, base);
    NoBorrowOut(Value(a, base), Value(b, base), Value(re, base), Power(base, |a|), flag);
  }

  // The first loop of long subtraction: the columns that both numbers have.
  method DifferenceShared(a: seq<nat>, b: seq<nat>, base: Base) returns (re: seq<nat>, flag: nat)
    requires |a| >= |b| && Proper(a, base) && Proper(b, base)
    ensures |re| == |a| && flag <= 1
    ensures forall k :: 0 <= k < |b| ==> re[k] < base
    ensures Value(a[..|b|], base) + Power(base, |b|) * flag == Value(b, base) + Value(re[..|b|], base)
  {
    re := Zeros(|a|);
    flag := 0;
    var ii := 0;
    assert re[..0] == [] && a[..0] == [] && b[..0] == [];
    hide Value, Power, Wrap32;
    while ii < |b|
      invariant 0 <= ii <= |b| && |re| == |a| && flag <= 1
      invariant forall k :: 0 <= k < ii ==> re[k] < base
      invariant Value(a[..ii], base) + Power(base, ii) * flag == Value(b[..ii], base) + Value(re[..ii], base)
    {
      ghost var was, c := re, flag;
      if flag != 0 && a[ii] == 0 {
        re := re[ii := Wrap32(base - 1 - b[ii])];
        flag := 1;
      } else if Wrap32(a[ii] - flag) < b[ii] {
        re := re[ii := Wrap32(base - b[ii] + Wrap32(a[ii] - flag))];
        flag := 1;
      } else {
        re := re[ii := Wrap32(a[ii] - flag - b[ii])];
        flag := 0;
      }
      DifferenceColumn(was, re, a, ii, Value(b[..ii], base), b[ii], c, flag, base);
      ValueTake(b, ii, base);
      ii := ii + 1;
    }
    assert b[..|b|] == b;
  }

  // Whether a has the smaller magnitude, read off the lengths and then the digits from the top.
  method IsSmaller(a: seq<nat>, b: seq<nat>, base: Base) returns (smaller: bool)
    requires Normal(a, base) && Normal(b, base)
    ensures smaller == (Value(a, base) < Value(b, base))
  {
    hide Value, Power;
    if |a| == |b| {
      var ii := |a|;
      assert a[ii..] == b[ii..];
      while ii > 0
        invariant 0 <= ii <= |a| && a[ii..] == b[ii..]
      {
        ii := ii - 1;
        if a[ii] > b[ii] {
          HigherDigitDecides(a, b, ii, base);
          return false;
        }
        if a[ii] < b[ii] {
          HigherDigitDecides(b, a, ii, base);
          return true;
        }
        assert a[ii..] == [a[ii]] + a[ii + 1..] && b[ii..] == [b[ii]] + b[ii + 1..];
      }
      assert a == a[0..] && b == b[0..];
      return false;
    } else if |a| < |b| {
      LongerIsLarger(b, a, base);
      return true;
    } else {
      LongerIsLarger(a, b, base);
      return false;
    }
  }

  // Moving the lowest digit of the rest on top of the digits written so far.
  lemma PushDigit(ds: seq<nat>, n: nat, q: nat, r: nat, base: Base)
    requires n == base * q + r
    ensures Value(ds + [r], base) + Power(base, |ds + [r]|) * q == Value(ds, base) + Power(base, |ds|) * n
  {
    hide Value, Power;
    ValuePush(ds, r, base);
    Distribute(Power(base, |ds|), base * q, r);
    Associate(Power(base, |ds|), base, q);
    PowerStep(base, |ds|);
  }

  // Quotient and remainder of a machine division.
  method DivMod(n: nat, d: nat) returns (q: nat, r: nat)
    requires d > 1
    ensures n == d * q + r && r < d
    ensures n == 0 || q < n
  {
    q, r := n / d, n % d;
    if n > 0 {
      ShrinksBy(n, d, q, r);
    }
  }

  lemma ShrinksBy(n: nat, to: nat, q: nat, r: nat)
    requires n == to * q + r && to > 1
    ensures q < n || n == q == 0
  {
    if q > 0 {
      MulMonotone(q, 2, to);
    }
  }

  // The digits of a machine word, the lowest first; there is always at least one.
  method WordDigits(num: nat, base: Base) returns (ds: seq<nat>)
    ensures Normal(ds, base) && Value(ds, base) == num
  {
    var rest, digit := DivMod(num, base);
    ds := [digit];
    ValueOfOne(digit, base);
    PowerOfOne(base);
    hide Value, Power;
    while rest != 0
      invariant |ds| >= 1 && Proper(ds, base)
      invariant rest == 0 ==> |ds| > 1 ==> ds[|ds| - 1] != 0
      invariant Value(ds, base) + Power(base, |ds|) * rest == num
      decreases rest
    {
      ghost var n, was := rest, ds;
      rest, digit := DivMod(rest, base);
      ds := ds + [digit];
      PushDigit(was, n, rest, digit, base);
      TopDigit(n, base, rest, digit);
    }
  }

  lemma PowerOfOne(base: nat)
    ensures Power(base, 1) == base
  {
    assert Power(base, 0) == 1;
  }

  lemma TopDigit(n: nat, base: nat, q: nat, r: nat)
    requires n == base * q + r && n > 0
    ensures q == 0 ==> r != 0
  {}

  // ---------------------------------------------------------------- changing the base

  // The 64-bit accumulator does not overflow and its quotient is a digit.
  lemma SweepFits(cur: nat, digit: nat, from: Base, to: Base)
    requires cur < to && digit < from
    ensures cur * from + digit < from * to < UINT64_RANGE
  {
    Distribute(from, cur, 1);
    MulMonotone(from, cur + 1, to);
    MulMonotone(from, to, UINT32_RANGE);
  }

  lemma QuotientFits(n: nat, from: nat, to: nat, q: nat, r: nat)
    requires n == to * q + r && n < from * to
    ensures q < from
  {
    if q >= from {
      MulMonotone(to, from, q);
      assert false;
    }
  }

  lemma SweepAlgebra(vc: int, vq: int, cur: int, digit: int, from: int, to: int, q: int, r: int)
    requires vc == to * vq + cur
    requires cur * from + digit == to * q + r
    ensures digit + from * vc == to * (q + from * vq) + r
  {
    Distribute(from, to * vq, cur);
    Associate(from, to, vq);
    Associate(to, from, vq);
    Distribute(to, q, from * vq);
  }

  lemma SweepStep(content: seq<nat>, was: seq<nat>, quotient: seq<nat>, ii: nat, cur: nat, rem: nat,
                  from: Base, to: Base)
    requires ii < |content| == |was| == |quotient| && quotient == was[ii := quotient[ii]]
    requires Value(content[ii + 1..], from) == to * Value(was[ii + 1..], from) + cur
    requires cur * from + content[ii] == to * quotient[ii] + rem
    ensures Value(content[ii..], from) == to * Value(quotient[ii..], from) + rem
  {
    hide Value;
    assert quotient[ii + 1..] == was[ii + 1..];
    ValueDrop(content, ii, from);
    ValueDrop(quotient, ii, from);
    SweepAlgebra(Value(content[ii + 1..], from), Value(was[ii + 1..], from), cur, content[ii], from, to,
                 quotient[ii], rem);
  }

  // One digit of the sweep: the accumulator takes in the digit and gives out a quotient digit.
  method SweepDigit(cur: nat, digit: nat, from: Base, to: Base) returns (q: nat, rem: nat)
    requires cur < to && digit < from
    ensures q < from && rem < to && cur * from + digit == to * q + rem
  {
    hide Wrap32, Wrap64;
    SweepFits(cur, digit, from, to);
    var num := cur * from + digit;
    num := Wrap64(num);
    q, rem := DivMod(num, to);
    QuotientFits(num, from, to, q, rem);
    q := Wrap32(q);
  }

  // Divides the number by the new base from the top digit down, in place.
  method Sweep(content: seq<nat>, from: Base, to: Base) returns (quotient: seq<nat>, rem: nat)
    requires Proper(content, from)
    ensures |quotient| == |content| && Proper(quotient, from) && rem < to
    ensures Value(content, from) == to * Value(quotient, from) + rem
  {
    quotient := content;
    rem := 0;
    var ii := |content|;
    assert content[ii..] == [] && quotient[ii..] == [];
    ValueOfNone(from);
    hide Value, Power, Wrap32, Wrap64;
    while ii > 0
      invariant 0 <= ii <= |content| && |quotient| == |content| && rem < to
      invariant Proper(quotient, from) && forall k :: 0 <= k < ii ==> quotient[k] == content[k]
      invariant Value(content[ii..], from) == to * Value(quotient[ii..], from) + rem
    {
      ii := ii - 1;
      ghost var was, cur := quotient, rem;
      var q;
      q, rem := SweepDigit(rem, quotient[ii], from, to);
      quotient := quotient[ii := q];
      SweepStep(content, was, quotient, ii, cur, rem, from, to);
    }
    assert content[0..] == content && quotient[0..] == quotient;
  }

  lemma ValueOfNone(base: nat)
    ensures Value([], base) == 0
  {}

  // Drops every zero digit on top.
  method Shed(c: seq<nat>, base: Base) returns (r: seq<nat>)
    requires Proper(c, base)
    ensures Proper(r, base) && Value(r, base) == Value(c, base) && |r| <= |c|
    ensures r == [] <==> Value(c, base) == 0
  {
    r := c;
    while |r| > 0 && r[|r| - 1] == 0
      invariant |r| <= |c| && Proper(r, base)
      invariant Value(r, base) == Value(c, base)
      decreases |r|
    {
      assert r == r[..|r| - 1] + [r[|r| - 1]];
      ValuePush(r[..|r| - 1], r[|r| - 1], base);
      r := r[..|r| - 1];
    }
    if r != [] {
      ValueAtLeast(r, base);
    }
  }

  // The digits of the same number in another base.
  method ChangeDigits(digits: seq<nat>, from: Base, to: Base) returns (ret: seq<nat>)
    requires Normal(digits, from)
    ensures Normal(ret, to) && Value(ret, to) == Value(digits, from)
  {
    ret := [];
    var content := digits;
    ValueOfNone(to);
    assert Power(to, 0) == 1;
    hide Value, Power;
    while content != []
      invariant Proper(content, from) && Proper(ret, to) && (content == [] ==> ret != [])
      invariant content == [] ==> Value(content, from) == 0
      invariant Value(ret, to) + Power(to, |ret|) * Value(content, from) == Value(digits, from)
      decreases Value(content, from), |content|
    {
      ghost var n := Value(content, from);
      var quotient, curNum := Sweep(content, from, to);
      PushDigit(ret, n, Value(quotient, from), curNum, to);
      ShrinksBy(n, to, Value(quotient, from), curNum);
      ret := ret + [curNum];
      content := Shed(quotient, from);
      ValueOfNone(from);
    }
    ret := Trim(ret, to);
  }

  // ---------------------------------------------------------------- the number itself

  // n times the integer b, n times over: the meaning of an integer power.
  function IntPower(b: int, n: nat): int {
    if n == 0 then 1 else b * IntPower(b, n - 1)
  }

  class BigNum {
    var symbol: bool
    var content: seq<nat>
    var base: nat

    ghost predicate Valid()
      reads this
    {
      2 <= base < UINT32_RANGE && Normal(content, base)
    }

    ghost function Magnitude(): nat
      reads this
    {
      Value(content, base)
    }

    // The integer this object denotes. Zero may carry either sign.
    ghost function Number(): int
      reads this
    {
      var m: int := Magnitude();
      if symbol then m else -m
    }

    // From a machine integer other than the lowest one, shifted up by order digits.
    constructor (num: int, base: nat, order: nat)
      requires -0x8000_0000_0000_0000 < num < 0x8000_0000_0000_0000 && base < UINT32_RANGE
      ensures Valid() && this.base == (if base < 2 then UINT32_MAX else base)
      ensures symbol == (num >= 0)
      ensures Number() == num * Power(this.base, order)
    {
      var b: Base := if base < 2 then UINT32_MAX else base;
      var rest := if num < 0 then -num else num;
      var digits := WordDigits(rest, b);
      NormalZero(digits, b);
      symbol := num >= 0;
      this.base := b;
      content := if num != 0 then Zeros(order) + digits else digits;
      if num != 0 {
        ShiftedNormal(digits, order, b);
      }
      hide Value, Power, Normal;
      SignedProduct(rest, Power(b, order), num >= 0, true);
    }

    constructor Copy(other: BigNum)
      ensures symbol == other.symbol && content == other.content && base == other.base
    {
      symbol, content, base := other.symbol, other.content, other.base;
    }

    // From an unsigned word. For zero the result keeps a second zero digit and is not normal.
    static method AssignU64(num: nat, symbol: bool, base: nat, order: nat) returns (ret: BigNum)
      requires num < UINT64_RANGE && base < UINT32_RANGE
      ensures fresh(ret) && ret.symbol == symbol && ret.base == (if base < 2 then UINT32_MAX else base)
      ensures ret.Magnitude() == num * Power(ret.base, order)
      ensures ret.Valid() <==> num != 0
    {
      ret := new BigNum(0, UINT32_MAX, 0);
      var b: Base := if base < 2 then UINT32_MAX else base;
      ret.base := b;
      ret.symbol := symbol;
      var digits := WordDigits(num, b);
      NormalZero(digits, b);
      ret.content := (if num != 0 then Zeros(order) else [0]) + digits;
      ValueShifted(digits, if num != 0 then order else 1, b);
    }

    predicate Empty()
      reads this
    {
      |content| == 1 && content[0] == 0
    }

    lemma EmptyIsZero()
      requires Valid()
      ensures Empty() <==> Number() == 0
    {
      NormalZero(content, base);
    }

    method ReBase(newBase: nat)
      requires Valid() && newBase < UINT32_RANGE
      modifies this
      ensures Valid() && base == (if newBase < 2 then old(base) else newBase)
      ensures symbol == old(symbol) && Number() == old(Number())
    {
      if newBase < 2 || base == newBase {
        return;
      }
      content := ChangeDigits(content, base, newBase);
      base := newBase;
    }

    // A copy in the given base.
    static method ChangeBase(num: BigNum, newBase: nat) returns (ret: BigNum)
      requires num.Valid() && newBase < UINT32_RANGE
      ensures fresh(ret) && ret.Valid() && ret.base == (if newBase < 2 then num.base else newBase)
      ensures ret.symbol == num.symbol && ret.Number() == num.Number()
    {
      ret := new BigNum.Copy(num);
      ret.ReBase(newBase);
    }

    // The argument itself when it already has this base, a converted copy otherwise.
    method InMyBase(value: BigNum) returns (operand: BigNum)
      requires Valid() && value.Valid()
      ensures operand == value || fresh(operand)
      ensures operand.Valid() && operand.base == base
      ensures operand.symbol == value.symbol && operand.Number() == value.Number()
    {
      if base == value.base {
        operand := value;
      } else {
        operand := ChangeBase(value, base);
      }
    }

    // The magnitude of a sum of two numbers of the same sign: the longer vector goes first.
    static method Sum(a: seq<nat>, b: seq<nat>, base: Base) returns (digits: seq<nat>)
      requires Normal(a, base) && Normal(b, base)
      ensures |digits| >= 1 && Proper(digits, base)
      ensures Value(digits, base) == Value(a, base) + Value(b, base)
    {
      var num1, num2 := a, b;
      if |num1| < |num2| {
        num1, num2 := num2, num1;
      }
      digits := SumDigits(num1, num2, base);
    }

    // The magnitude of a sum of two numbers of opposite sign, and whether the second is larger.
    static method Difference(a: seq<nat>, b: seq<nat>, base: Base) returns (digits: seq<nat>, swap: bool)
      requires Normal(a, base) && Normal(b, base)
      ensures |digits| >= 1 && Proper(digits, base)
      ensures swap == (Value(a, base) < Value(b, base))
      ensures Value(digits, base) == if swap then Value(b, base) - Value(a, base) else Value(a, base) - Value(b, base)
    {
      hide Value;
      swap := IsSmaller(a, b, base);
      var num1, num2 := a, b;
      if swap {
        num1, num2 := num2, num1;
      }
      if |num1| < |num2| {
        LongerIsLarger(num2, num1, base);
      }
      digits := DifferenceDigits(num1, num2, base);
    }

    method Plus(value: BigNum) returns (re: BigNum)
      requires Valid() && value.Valid()
      ensures fresh(re) && re.Valid() && re.base == base
      ensures re.Number() == Number() + value.Number()
      ensures re.Number() == 0 ==> re.symbol == symbol
    {
      hide Value, Normal, Proper;
      var operand := InMyBase(value);
      re := new BigNum(0, base, 0);
      var digits;
      if symbol != operand.symbol {
        var swap;
        digits, swap := Difference(content, operand.content, base);
        re.symbol := if swap then operand.symbol else symbol;
      } else {
        digits := Sum(content, operand.content, base);
        re.symbol := symbol;
      }
      digits := Trim(digits, base);
      re.content := digits;
    }

    method PlusAssign(value: BigNum)
      requires Valid() && value.Valid()
      modifies this
      ensures Valid() && base == old(base)
      ensures Number() == old(Number()) + old(value.Number())
      ensures Number() == 0 ==> symbol == old(symbol)
    {
      var t := Plus(value);
      symbol, content, base := t.symbol, t.content, t.base;
    }

    method Negated() returns (re: BigNum)
      requires Valid()
      ensures fresh(re) && re.Valid() && re.base == base
      ensures re.symbol == !symbol && re.Number() == -Number()
    {
      re := new BigNum.Copy(this);
      re.symbol := !re.symbol;
    }

    method Minus(value: BigNum) returns (re: BigNum)
      requires Valid() && value.Valid()
      ensures fresh(re) && re.Valid() && re.base == base
      ensures re.Number() == Number() - value.Number()
      ensures re.Number() == 0 ==> re.symbol == symbol
    {
      var negated := value.Negated();
      re := Plus(negated);
    }

    // One row of long multiplication: x times every digit of b, shifted up by ii digits.
    method AddRow(x: nat, ii: nat, b: seq<nat>)
      requires Valid() && symbol && 0 < x < base && Proper(b, base)
      modifies this
      ensures Valid() && symbol && base == old(base)
      ensures Number() == old(Number()) + x * (Value(b, base) * Power(base, ii))
    {
      var jj := 0;
      ghost var start := Number();
      ghost var p := Power(base, ii);
      assert b[..0] == [];
      assert Value(b[..0], base) == 0;
      hide Value, Power;
      while jj < |b|
        invariant 0 <= jj <= |b| && Valid() && symbol && base == old(base)
        invariant Number() == start + x * (Value(b[..jj], base) * p)
      {
        ghost var was := Number();
        RowStep(x, b, jj, ii, base);
        if b[jj] != 0 {
          ProductFits(x, b[jj], base);
          var term := AssignU64(x * b[jj], true, base, ii + jj);
          PlusAssign(term);
        }
        jj := jj + 1;
      }
      assert b[..|b|] == b;
    }

    // Long multiplication of two digit vectors, row by row.
    static method Product(a: seq<nat>, b: seq<nat>, base: Base) returns (re: BigNum)
      requires Proper(a, base) && Proper(b, base)
      ensures fresh(re) && re.Valid() && re.symbol && re.base == base
      ensures re.Magnitude() == Value(a, base) * Value(b, base)
    {
      re := new BigNum(0, base, 0);
      var ii := 0;
      ghost var v := Value(b, base);
      assert a[..0] == [] && Value(a[..0], base) == 0;
      hide Value, Power;
      while ii < |a|
        invariant 0 <= ii <= |a| && fresh(re) && re.Valid() && re.symbol && re.base == base
        invariant re.Number() == Value(a[..ii], base) * v
      {
        ColumnStep(a, ii, v, base);
        if a[ii] != 0 {
          re.AddRow(a[ii], ii, b);
        }
        ii := ii + 1;
      }
      assert a[..|a|] == a;
    }

    method Times(value: BigNum) returns (re: BigNum)
      requires Valid() && value.Valid()
      ensures fresh(re) && re.Valid() && re.base == base
      ensures re.Number() == Number() * value.Number()
      ensures re.symbol == (symbol == value.symbol)
    {
      hide Value, Power;
      var operand := InMyBase(value);
      re := Product(content, operand.content, base);
      re.symbol := symbol == operand.symbol;
      re.content := Trim(re.content, base);
      SignedProduct(Magnitude(), operand.Magnitude(), symbol, operand.symbol);
    }

    method TimesAssign(value: BigNum)
      requires Valid() && value.Valid()
      modifies this
      ensures Valid() && base == old(base)
      ensures Number() == old(Number()) * old(value.Number())
    {
      var t := Times(value);
      symbol, content, base := t.symbol, t.content, t.base;
    }

    // Powers by repeated squaring.
    static method Pow(num: BigNum, n: nat) returns (re: BigNum)
      requires num.Valid() && n < UINT32_RANGE
      ensures fresh(re) && re.Valid() && re.base == num.base
      ensures re.Number() == IntPower(num.Number(), n)
    {
      re := new BigNum(1, num.base, 0);
      var tmp := new BigNum.Copy(num);
      var rest := n;
      ghost var start := num.Number();
      assert re.Number() == 1;
      hide Value, Power, num.Valid, num.Number, IntPower;
      while rest != 0
        invariant rest >= 0 && fresh(re) && fresh(tmp) && re != tmp && re.Valid() && tmp.Valid()
        invariant re.base == num.base == tmp.base
        invariant re.Number() * IntPower(tmp.Number(), rest) == IntPower(start, n)
        decreases rest
      {
        ghost var r, t := re.Number(), tmp.Number();
        SquareStep(r, t, rest);
        if rest % 2 == 1 {
          re.TimesAssign(tmp);
        }
        tmp.TimesAssign(tmp);
        rest := rest / 2;
      }
      IntPowerZero(tmp.Number());
    }

    // The order of two numbers: 1, 0 or -1.
    static method Compare(left: BigNum, right: BigNum) returns (order: int)
      requires left.Valid() && right.Valid()
      ensures order == if left.Number() < right.Number() then -1 else if left.Number() > right.Number() then 1 else 0
    {
      left.EmptyIsZero();
      right.EmptyIsZero();
      if left.Empty() && right.Empty() {
        return 0;
      }
      if left.symbol && !right.symbol {
        return 1;
      }
      if !left.symbol && right.symbol {
        return -1;
      }
      var operand := left.InMyBase(right);
      order := CompareDigits(left.content, operand.content, left.symbol, left.base);
    }

    // The same number, whatever the bases and the sign of a zero.
    method Equals(value: BigNum) returns (same: bool)
      requires Valid() && value.Valid()
      ensures same <==> Number() == value.Number()
    {
      EmptyIsZero();
      value.EmptyIsZero();
      if Empty() && value.Empty() {
        return true;
      }
      if Empty() || value.Empty() {
        return false;
      }
      if symbol != value.symbol {
        return false;
      }
      var operand := InMyBase(value);
      same := SameDigits(content, operand.content, base);
    }

    static method Abs(num: BigNum) returns (re: BigNum)
      requires num.Valid()
      ensures fresh(re) && re.Valid() && re.base == num.base && re.symbol && re.content == num.content
      ensures re.Number() == if num.Number() < 0 then -num.Number() else num.Number()
    {
      re := new BigNum.Copy(num);
      re.symbol := true;
    }

    method ShiftUp(n: nat) returns (re: BigNum)
      requires Valid()
      ensures fresh(re) && re.Valid() && re.base == base && re.symbol == symbol
      ensures re.Number() == Number() * Power(base, n)
    {
      re := new BigNum.Copy(this);
      EmptyIsZero();
      if Empty() {
        return;
      }
      ShiftedNormal(content, n, base);
      hide Value, Power, Normal;
      re.content := Zeros(n) + re.content;
      SignedProduct(Magnitude(), Power(base, n), symbol, true);
    }
  }

  // ---------------------------------------------------------------- algebra of the operations

  lemma ShiftedNormal(c: seq<nat>, n: nat, base: Base)
    requires Normal(c, base) && c != [0]
    ensures Normal(Zeros(n) + c, base)
    ensures Value(Zeros(n) + c, base) == Value(c, base) * Power(base, n)
  {
    ValueShifted(c, n, base);
    if |c| == 1 {
      assert c == [c[0]];
    }
  }

  lemma ProductFits(x: nat, y: nat, base: Base)
    requires 0 < x < base && 0 < y < base
    ensures 0 < x * y < UINT64_RANGE
  {
    PositiveProduct(x, y);
    MulMonotone(x, y, UINT32_RANGE);
    MulMonotone(UINT32_RANGE, x, UINT32_RANGE);
  }

  lemma RowStep(x: nat, b: seq<nat>, jj: nat, ii: nat, base: Base)
    requires jj < |b|
    ensures x * (Value(b[..jj + 1], base) * Power(base, ii))
         == x * (Value(b[..jj], base) * Power(base, ii)) + (x * b[jj]) * Power(base, ii + jj)
  {
    hide Value, Power;
    var p, q, v, y := Power(base, ii), Power(base, jj), Value(b[..jj], base), b[jj];
    ValueTake(b, jj, base);
    PowerAdds(base, ii, jj);
    Distribute(p, v, q * y);
    Distribute(x, v * p, (q * y) * p);
    assert (q * y) * p == y * (p * q) by {
      Associate(p, q, y);
    }
    Associate(x, y, p * q);
  }

  lemma ColumnStep(a: seq<nat>, ii: nat, v: nat, base: Base)
    requires ii < |a|
    ensures Value(a[..ii + 1], base) * v == Value(a[..ii], base) * v + a[ii] * (v * Power(base, ii))
  {
    hide Value, Power;
    var p, w, x := Power(base, ii), Value(a[..ii], base), a[ii];
    ValueTake(a, ii, base);
    Distribute(v, w, p * x);
    assert (p * x) * v == x * (v * p) by {
      Associate(x, v, p);
      Associate(x, p, v);
    }
  }

  lemma SignedProduct(m: int, n: int, s: bool, t: bool)
    ensures (if s then m else -m) * (if t then n else -n) == if s == t then m * n else -(m * n)
  {}

  lemma IntPowerZero(b: int)
    ensures IntPower(b, 0) == 1
  {}

  lemma {:induction false} IntPowerSquare(b: int, n: nat)
    ensures IntPower(b * b, n) == IntPower(b, 2 * n)
  {
    if n > 0 {
      IntPowerSquare(b, n - 1);
      Associate(b, b, IntPower(b, 2 * (n - 1)));
      assert 2 * n - 1 == 2 * (n - 1) + 1;
    }
  }

  lemma SquareStep(r: int, t: int, n: nat)
    requires n > 0
    ensures r * IntPower(t, n) == (if n % 2 == 1 then r * t else r) * IntPower(t * t, n / 2)
  {
    IntPowerSquare(t, n / 2);
    if n % 2 == 1 {
      assert n == 2 * (n / 2) + 1;
      Associate(r, t, IntPower(t, n - 1));
    }
  }

  // The order of two numbers with the same sign.
  method CompareDigits(a: seq<nat>, b: seq<nat>, symbol: bool, base: Base) returns (order: int)
    requires Normal(a, base) && Normal(b, base)
    ensures var x, y := Value(a, base), Value(b, base);
            order == if x == y then 0 else if (x < y) == symbol then -1 else 1
  {
    hide Value;
    if |a| != |b| {
      if |a| > |b| {
        LongerIsLarger(a, b, base);
      } else {
        LongerIsLarger(b, a, base);
      }
      return if symbol != (|a| > |b|) then -1 else 1;
    }
    var ii := |a|;
    assert a[ii..] == b[ii..];
    while ii > 0
      invariant 0 <= ii <= |a| && a[ii..] == b[ii..]
    {
      ii := ii - 1;
      if a[ii] != b[ii] {
        if a[ii] > b[ii] {
          HigherDigitDecides(a, b, ii, base);
        } else {
          HigherDigitDecides(b, a, ii, base);
        }
        return if symbol != (a[ii] > b[ii]) then -1 else 1;
      }
      assert a[ii..] == [a[ii]] + a[ii + 1..] && b[ii..] == [b[ii]] + b[ii + 1..];
    }
    assert a == a[0..] && b == b[0..];
    return 0;
  }

  method SameDigits(a: seq<nat>, b: seq<nat>, base: Base) returns (same: bool)
    requires Normal(a, base) && Normal(b, base)
    ensures same <==> Value(a, base) == Value(b, base)
  {
    hide Value;
    if Value(a, base) == Value(b, base) {
      NormalUnique(a, b, base);
    }
    if |a| != |b| {
      return false;
    }
    for ii := 0 to |a|
      invariant a[..ii] == b[..ii]
    {
      if a[ii] != b[ii] {
        return false;
      }
    }
    assert a == a[..|a|] == b[..|b|] == b;
    return true;
  }
}
