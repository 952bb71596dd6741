/**
 Powers of two, division by them, and the bit reversal that the first loop of FFT
 (ytlib/math/complex.hpp:216-226) counts through.
 */
module BitReversal {
  import opened Arithmetic

  ghost function Pow2(m: nat): (p: nat)
    ensures p > 0
  {
    if m == 0 then 1 else 2 * Pow2(m - 1)
  }

  lemma {:induction false} Pow2Add(a: nat, b: nat)
    ensures Pow2(a + b) == Pow2(a) * Pow2(b)
  {
    if a != 0 {
      Pow2Add(a - 1, b);
    }
  }

  /** The quotient of an index below d * n stays below n. */
  lemma DivBelow(i: nat, d: nat, n: nat)
    requires d > 0 && i < d * n
    ensures i / d < n
  {
    var q := i / d;
    assert d * q <= i;
    assert d * (n - q) > 0;
  }

  /** Splitting by 2d refines splitting by d. */
  lemma DivModDouble(i: nat, d: nat)
    requires d > 0
    ensures var q, r := i / (2 * d), i % (2 * d);
            if r < d then i / d == 2 * q && i % d == r else i / d == 2 * q + 1 && i % d == r - d
  {
    var q, r := i / (2 * d), i % (2 * d);
    assert i == (2 * d) * q + r == d * (2 * q) + r;
    if r < d {
      DivModUnique(i, d, 2 * q, r);
    } else {
      assert i == d * (2 * q + 1) + (r - d);
      DivModUnique(i, d, 2 * q + 1, r - d);
    }
  }

  /** Moving by half a block, or by a whole one. */
  lemma ModShift(i: nat, d: nat)
    requires d > 0
    ensures (i + 2 * d) % (2 * d) == i % (2 * d)
    ensures i % (2 * d) < d ==> (i + d) % (2 * d) == i % (2 * d) + d && (i + d) / (2 * d) == i / (2 * d)
    ensures i % (2 * d) >= d ==> i >= d && (i - d) % (2 * d) == i % (2 * d) - d && (i - d) / (2 * d) == i / (2 * d)
  {
    var q, r := i / (2 * d), i % (2 * d);
    assert i == (2 * d) * q + r;
    assert i + 2 * d == (2 * d) * (q + 1) + r by {
      assert (2 * d) * (q + 1) == (2 * d) * q + 2 * d;
    }
    DivModUnique(i + 2 * d, 2 * d, q + 1, r);
    if r < d {
      DivModUnique(i + d, 2 * d, q, r + d);
    } else {
      assert (2 * d) * q >= 0;
      DivModUnique(i - d, 2 * d, q, r - d);
    }
  }

  /** The lowest m bits of i in reverse order. */
  ghost function Rev(m: nat, i: nat): (r: nat)
    ensures r < Pow2(m)
  {
    if m == 0 then 0 else (i % 2) * Pow2(m - 1) + Rev(m - 1, i / 2)
  }

  /** The same reversal read from the other end. */
  lemma {:induction false} RevTop(m: nat, t: nat, i: nat)
    requires t < 2 && i < Pow2(m)
    ensures Rev(m + 1, t * Pow2(m) + i) == 2 * Rev(m, i) + t
  {
    if m != 0 {
      var h := Pow2(m - 1);
      assert Pow2(m) == 2 * h;
      hide Rev, Pow2;
      RevTop(m - 1, t, i / 2);
      HalveShifted(t, h, i);
      RevUnfold(m + 1, t * Pow2(m) + i);
      RevUnfold(m, i);
      Regroup(i % 2, h, Rev(m - 1, i / 2));
    }
  }

  lemma RevUnfold(m: nat, i: nat)
    requires m > 0
    ensures Rev(m, i) == (i % 2) * Pow2(m - 1) + Rev(m - 1, i / 2)
  {
  }

  lemma Regroup(p: nat, h: nat, r: nat)
    ensures p * (2 * h) + 2 * r == 2 * (p * h + r)
  {
  }

  lemma HalveShifted(t: nat, h: nat, i: nat)
    ensures (t * (2 * h) + i) / 2 == t * h + i / 2 && (t * (2 * h) + i) % 2 == i % 2
  {
    assert t * (2 * h) == 2 * (t * h);
  }

  lemma {:induction false} RevInvolution(m: nat, i: nat)
    requires i < Pow2(m)
    ensures Rev(m, Rev(m, i)) == i
  {
    if m != 0 {
      RevInvolution(m - 1, i / 2);
      RevTop(m - 1, i % 2, Rev(m - 1, i / 2));
    }
  }

  /** What the inner while loop adds: a one at the top bit, carried downwards. */
  ghost function CarryDown(j: nat, k: nat): nat
    requires j < 2 * k - 1
    decreases k
  {
    if k <= j && k % 2 == 0 then CarryDown(j - k, k / 2) else j + k
  }

  lemma {:induction false} CarryDownIsNextRev(m: nat, i: nat)
    requires m > 0 && i + 1 < Pow2(m)
    ensures Rev(m, i) < 2 * Pow2(m - 1) - 1
    ensures CarryDown(Rev(m, i), Pow2(m - 1)) == Rev(m, i + 1)
  {
    hide Rev, Pow2, CarryDown;
    RevParity(m, i);
    Pow2Halves(m);
    if i % 2 == 0 {
      CarryStops(Rev(m - 1, i / 2), Pow2(m - 1));
    } else {
      Pow2Halves(m - 1);
      assert i == 2 * (i / 2) + 1;
      CarryDownIsNextRev(m - 1, i / 2);
      CarryGoesOn(Rev(m - 1, i / 2), Pow2(m - 2));
    }
  }

  lemma RevParity(m: nat, i: nat)
    requires m > 0
    ensures i % 2 == 0 ==> Rev(m, i) == Rev(m - 1, i / 2) && Rev(m, i + 1) == Pow2(m - 1) + Rev(m - 1, i / 2)
    ensures i % 2 == 1 ==> Rev(m, i) == Pow2(m - 1) + Rev(m - 1, i / 2) && Rev(m, i + 1) == Rev(m - 1, i / 2 + 1)
  {
    hide Pow2;
    RevUnfold(m, i);
    RevUnfold(m, i + 1);
    if i % 2 == 0 {
      assert (i + 1) / 2 == i / 2 && (i + 1) % 2 == 1;
    } else {
      assert (i + 1) / 2 == i / 2 + 1 && (i + 1) % 2 == 0;
    }
  }

  lemma Pow2Halves(m: nat)
    ensures Pow2(m) == if m == 0 then 1 else 2 * Pow2(m - 1)
  {
  }

  lemma CarryStops(r: nat, k: nat)
    requires r < k
    ensures CarryDown(r, k) == r + k
  {
  }

  lemma CarryGoesOn(r: nat, h: nat)
    requires r < 2 * h - 1
    ensures CarryDown(2 * h + r, 2 * h) == CarryDown(r, h)
  {
  }

  lemma RevZero(m: nat)
    ensures Rev(m, 0) == 0
  {
  }

  /** The counter starts at one reversed: the top bit alone. */
  lemma RevOne(m: nat)
    requires m > 0
    ensures Rev(m, 1) == Pow2(m - 1)
  {
    RevZero(m - 1);
  }

  lemma {:induction false} RevLast(m: nat)
    ensures Rev(m, Pow2(m) - 1) == Pow2(m) - 1
  {
    if m != 0 {
      RevLast(m - 1);
      assert (Pow2(m) - 1) / 2 == Pow2(m - 1) - 1;
    }
  }
}
