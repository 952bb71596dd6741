/**
 FFT and IFFT of ytlib/math/complex.hpp, in place on an array. The twiddle factor
 (cos(2*pi*r/N), -sin(2*pi*r/N)) is w^r for a parameter w, of which the caller promises
 w^(N/2) == -1 (and |w| == 1 for the inverse). N is a uint32_t power of two, at least 2.
 */
module Fft {
  import opened Arithmetic
  import opened ComplexNumbers
  import opened BitReversal
  import opened Dft

  const UINT32_LIMIT := 0x1_0000_0000

  /** The number of stages: the loop that shifts N down to 1. */
  method Log2(N: nat, ghost top: nat) returns (M: nat)
    requires top > 0 && N == Pow2(top)
    ensures M == top
  {
    M := 1;
    var i := N / 2;
    while i != 1
      invariant 1 <= M <= top && i == Pow2(top - M)
      decreases i
    {
      M := M + 1;
      i := i / 2;
    }
    assert Pow2(top - M) == if M == top then 1 else 2 * Pow2(top - M - 1);
  }

  /** The swaps for indices below i are done: their entries, and those they are swapped with, are in place. */
  ghost predicate ReorderedBelow(d: seq<Complex>, x: seq<Complex>, top: nat, i: nat)
    requires |d| == |x| == Pow2(top)
  {
    forall p :: 0 <= p < |d| ==> d[p] == if p < i || Rev(top, p) < i then x[Rev(top, p)] else x[p]
  }

  lemma SwapStep(d: seq<Complex>, x: seq<Complex>, top: nat, i: nat)
    requires |d| == |x| == Pow2(top) && i < |d|
    requires ReorderedBelow(d, x, top, i)
    ensures var j := Rev(top, i);
            ReorderedBelow(if i < j then d[i := d[j]][j := d[i]] else d, x, top, i + 1)
  {
    hide Pow2, Rev;
    var j := Rev(top, i);
    RevInvolution(top, i);
    forall p | 0 <= p < |d|
      ensures Rev(top, p) == i ==> p == j
      ensures Rev(top, p) == j ==> p == i
    {
      RevInvolution(top, p);
    }
  }

  method SwapEntries(data: array<Complex>, i: nat, j: nat)
    requires i < data.Length && j < data.Length
    modifies data
    ensures data[..] == var d := old(data[..]); if i < j then d[i := d[j]][j := d[i]] else d
  {
    if i < j {
      data[j], data[i] := data[i], data[j];
    }
  }

  /** The reordering loop: entry i goes to its bit-reversed index. */
  method Reorder(data: array<Complex>, ghost top: nat)
    requires top > 0 && data.Length == Pow2(top)
    modifies data
    ensures BitReversed(data[..], old(data[..]), top)
  {
    var N := data.Length;
    ghost var x := data[..];
    RevOne(top);
    ReorderBegins(x, top);
    assert N == 2 * Pow2(top - 1);
    hide ReorderedBelow, BitReversed, Rev, Pow2, CarryDown;
    var i, j := 1, N / 2;
    while i <= N - 2
      invariant 1 <= i <= N - 1 && j == Rev(top, i)
      invariant ReorderedBelow(data[..], x, top, i)
    {
      SwapStep(data[..], x, top, i);
      SwapEntries(data, i, j);
      CarryDownIsNextRev(top, i);
      j := NextReversed(N, j, top);
      i := i + 1;
    }
    ReorderEnds(data[..], x, top);
  }

  lemma ReorderBegins(x: seq<Complex>, top: nat)
    requires |x| == Pow2(top)
    ensures ReorderedBelow(x, x, top, 1)
  {
    RevZero(top);
    forall p | 0 <= p < |x| && (p == 0 || Rev(top, p) == 0)
      ensures p == 0
    {
      RevInvolution(top, p);
    }
  }

  lemma ReorderEnds(d: seq<Complex>, x: seq<Complex>, top: nat)
    requires |d| == |x| == Pow2(top)
    requires ReorderedBelow(d, x, top, |x| - 1)
    ensures BitReversed(d, x, top)
  {
    RevLast(top);
  }

  /** The inner loop and the addition after it. It ends because j is never all ones. */
  method NextReversed(N: nat, j0: nat, ghost top: nat) returns (j: nat)
    requires top > 0 && N == Pow2(top) && j0 + 1 < N
    ensures j == CarryDown(j0, Pow2(top - 1))
  {
    j := j0;
    var k := N / 2;
    ghost var t := top - 1;
    while k <= j
      invariant k == Pow2(t) && j + 1 < 2 * k
      invariant CarryDown(j, k) == CarryDown(j0, Pow2(top - 1))
      decreases k
    {
      assert t > 0;
      j := j - k;
      k := k / 2;
      t := t - 1;
    }
    j := j + k;
  }

  /** The pairs a stage has already combined: those of place below l, and at place l those of the first q blocks. */
  ghost predicate Settled(i: nat, lb: nat, l: nat, q: nat)
    requires lb > 0
  {
    Place(i, lb) < l || (Place(i, lb) == l && Block(i, 2 * lb) < q)
  }

  lemma NextPair(i: nat, lb: nat, l: nat, q: nat, n: nat)
    requires l < lb && n == (2 * lb) * q + l
    ensures Place(n, 2 * lb) == l && Block(n, 2 * lb) == q
    ensures Place(n + lb, 2 * lb) == l + lb && Block(n + lb, 2 * lb) == q
    ensures Place(n, lb) == l == Place(n + lb, lb)
    ensures Settled(i, lb, l, q + 1) <==> Settled(i, lb, l, q) || i == n || i == n + lb
  {
    DivModUnique(n, 2 * lb, q, l);
    DivModUnique(n + lb, 2 * lb, q, l + lb);
    ButterflyIndex(n, lb);
    ButterflyIndex(n + lb, lb);
    DivModDouble(i, lb);
    assert i == (2 * lb) * Block(i, 2 * lb) + Place(i, 2 * lb);
  }

  lemma SettledRows(i: nat, lb: nat, l: nat, q: nat, N: nat)
    requires lb > 0 && i < N && N == 2 * lb * q
    ensures Settled(i, lb, l, q) <==> Settled(i, lb, l + 1, 0)
    ensures !Settled(i, lb, 0, 0) && Settled(i, lb, lb, 0)
  {
    DivBelow(i, 2 * lb, q);
  }

  /** One stage: every block of 2 * lb entries is combined from its two halves. */
  method Stage(data: array<Complex>, w: Complex, M: nat, m: nat)
    requires 0 < m <= M && data.Length == Pow2(M) && data.Length < UINT32_LIMIT
    requires Whole(data.Length, 2 * Pow2(m - 1))
    modifies data
    ensures Butterflied(data[..], old(data[..]), Base(w, M, m), Pow2(m - 1))
  {
    hide Mul, Add, Sub, Power, Place, Block, Base;
    var N := data.Length;
    var la := Shl(1, m);
    var lb := la / 2;
    ghost var d0, z, count := data[..], Base(w, M, m), N / la;
    assert N == la * count;
    forall i | 0 <= i < N
      ensures !Settled(i, lb, 0, 0)
    {
      SettledRows(i, lb, 0, count, N);
    }
    var l := 0;
    while l < lb
      invariant 0 <= l <= lb
      invariant forall i :: 0 <= i < N ==>
        data[i] == if Settled(i, lb, l, 0) then ButterflyAt(d0, z, lb, i) else d0[i]
    {
      StageRow(data, w, M, m, l, d0, count);
      forall i | 0 <= i < N
        ensures Settled(i, lb, l, count) == Settled(i, lb, l + 1, 0)
      {
        SettledRows(i, lb, l, count, N);
      }
      l := l + 1;
    }
    forall i | 0 <= i < N
      ensures Settled(i, lb, lb, 0)
    {
      SettledRows(i, lb, lb, count, N);
    }
  }

  /** x << m on an unsigned integer wide enough for the result. */
  function Shl(x: nat, m: nat): (r: nat)
    ensures r == x * Pow2(m)
  {
    if m == 0 then x else 2 * Shl(x, m - 1)
  }

  /** The innermost loop: one twiddle factor, applied in every block. */
  method StageRow(data: array<Complex>, w: Complex, M: nat, m: nat, l: nat, ghost d0: seq<Complex>, ghost count: nat)
    requires 0 < m <= M && data.Length == Pow2(M) == |d0| && data.Length < UINT32_LIMIT
    requires Whole(|d0|, 2 * Pow2(m - 1)) && |d0| == 2 * Pow2(m - 1) * count
    requires l < Pow2(m - 1)
    requires forall i :: 0 <= i < data.Length ==>
               data[i] == if Settled(i, Pow2(m - 1), l, 0) then ButterflyAt(d0, Base(w, M, m), Pow2(m - 1), i) else d0[i]
    modifies data
    ensures forall i :: 0 <= i < data.Length ==>
              data[i] == if Settled(i, Pow2(m - 1), l, count) then ButterflyAt(d0, Base(w, M, m), Pow2(m - 1), i) else d0[i]
  {
    hide Mul, Add, Sub, Power, Place, Block;
    var N := data.Length;
    var la := Shl(1, m);
    var lb := la / 2;
    var r := Shl(l, M - m);
    var tmp := Pow(w, r);
    ghost var z, q := Base(w, M, m), 0;
    TwiddleIsPower(w, M, m, l);
    hide Base, Settled;
    var n := l;
    while n < N - 1
      invariant n == la * q + l && q <= count
      invariant forall i :: 0 <= i < N ==>
        data[i] == if Settled(i, lb, l, q) then ButterflyAt(d0, z, lb, i) else d0[i]
      decreases N - n
    {
      RowBound(la, q, l, count, N);
      var lc := n + lb;
      assert n + la < UINT32_LIMIT by { IndexFits(M, n, la, q, l); }
      NextPair(n, lb, l, q, n);
      NextPair(lc, lb, l, q, n);
      SettledStep(lb, l, q, n, N);
      var t := Mul(data[lc], tmp);
      data[lc] := Sub(data[n], t);
      data[n] := Add(data[n], t);
      n := n + la;
      q := q + 1;
    }
    RowEnd(la, q, l, count, N);
  }

  /** The step past the last block does not wrap around either. */
  lemma IndexFits(M: nat, n: nat, la: nat, q: nat, l: nat)
    requires Pow2(M) < UINT32_LIMIT && n == la * q + l && 2 * l <= la && la * q + la <= Pow2(M)
    ensures n + la < UINT32_LIMIT
  {
    hide Pow2;
    Pow2Of32();
    Pow2Gap(M, 32);
  }

  lemma Pow2Of32()
    ensures Pow2(32) == UINT32_LIMIT
  {
    assert Pow2(4) == 16;
    Pow2Add(4, 4);
    Pow2Add(8, 8);
    Pow2Add(16, 16);
  }

  /** A smaller power of two is at most half of a larger one. */
  lemma {:induction false} Pow2Gap(m: nat, n: nat)
    requires Pow2(m) < Pow2(n)
    ensures 2 * Pow2(m) <= Pow2(n)
  {
    if m > 0 && n > 0 {
      Pow2Gap(m - 1, n - 1);
    }
  }

  lemma TwiddleIsPower(w: Complex, M: nat, m: nat, l: nat)
    requires m <= M
    ensures Power(w, l * Pow2(M - m)) == Power(Base(w, M, m), l)
  {
    PowerMul(w, Pow2(M - m), l);
    assert Pow2(M - m) * l == l * Pow2(M - m);
  }

  lemma SettledStep(lb: nat, l: nat, q: nat, n: nat, N: nat)
    requires l < lb && n == (2 * lb) * q + l
    ensures !Settled(n, lb, l, q) && !Settled(n + lb, lb, l, q)
    ensures forall i :: 0 <= i < N ==> (Settled(i, lb, l, q + 1) <==> Settled(i, lb, l, q) || i == n || i == n + lb)
  {
    NextPair(n, lb, l, q, n);
    forall i | 0 <= i < N
      ensures Settled(i, lb, l, q + 1) <==> Settled(i, lb, l, q) || i == n || i == n + lb
    {
      NextPair(i, lb, l, q, n);
    }
  }

  /** While the loop runs the whole block of n lies in the array. */
  lemma RowBound(la: nat, q: nat, l: nat, count: nat, N: nat)
    requires 0 < la && l < la && N == la * count && la * q + l < N
    ensures q < count && la * q + la <= N
  {
    if q >= count {
      MulMono(la, count, q);
      assert false;
    }
    MulMono(la, q + 1, count);
    assert la * (q + 1) == la * q + la;
  }

  /** The bound N - 1 of the loop leaves no block out. */
  lemma RowEnd(la: nat, q: nat, l: nat, count: nat, N: nat)
    requires 0 < 2 * l + 2 <= la && N == la * count && la * q + l >= N - 1 && q <= count
    ensures q == count
  {
    assert la * (count - q) == N - la * q;
    if q < count {
      MulMono(la, 1, count - q);
    }
  }

  lemma WholeStages(M: nat, m: nat)
    requires m < M
    ensures Whole(Pow2(M), 2 * Pow2(m))
  {
    Pow2Add(m + 1, M - m - 1);
    DivModUnique(Pow2(M), Pow2(m + 1), Pow2(M - m - 1), 0);
  }

  lemma HalfOfPow2(top: nat)
    requires top > 0
    ensures Pow2(top) / 2 == Pow2(top - 1)
  {
  }

  /** FFT: the array ends up holding its discrete Fourier transform. */
  method FFT(data: array<Complex>, w: Complex, ghost top: nat)
    requires top > 0 && data.Length == Pow2(top) && data.Length < UINT32_LIMIT
    requires Power(w, data.Length / 2) == MINUS_ONE
    modifies data
    ensures data[..] == Transform(old(data[..]), w)
    ensures forall k :: 0 <= k < data.Length ==> data[k] == Coefficient(old(data[..]), w, k, data.Length)
  {
    hide Mul, Power, Staged, Butterflied, BitReversed, Base, Transform, Pow2, Whole;
    ghost var x := data[..];
    HalfOfPow2(top);
    var M := Log2(data.Length, top);
    Reorder(data, top);
    StagedInitially(data[..], x, w, top);
    var m := 1;
    while m <= M
      invariant 1 <= m <= M + 1
      invariant Staged(data[..], x, w, top, m - 1)
    {
      WholeStages(M, m - 1);
      ghost var d := data[..];
      Stage(data, w, M, m);
      StageStep(d, data[..], x, w, top, m);
      m := m + 1;
    }
    StagedFinally(data[..], x, w, top);
    CoefficientsAre(data[..], x, w);
  }

  lemma CoefficientsAre(y: seq<Complex>, x: seq<Complex>, w: Complex)
    requires y == Transform(x, w)
    ensures forall k :: 0 <= k < |y| ==> y[k] == Coefficient(x, w, k, |x|)
  {
  }

  method ConjugateComplex(data: array<Complex>)
    modifies data
    ensures forall i :: 0 <= i < data.Length ==> data[i].re == old(data[i]).re && data[i].im == -old(data[i]).im
  {
    for i := 0 to data.Length
      invariant forall k :: 0 <= k < data.Length ==> data[k] == if k < i then Complex(old(data[k]).re, -old(data[k]).im) else old(data[k])
    {
      data[i] := Complex(data[i].re, -data[i].im);
    }
  }

  /** Conjugating before and after amounts to transforming with the conjugate root. */
  lemma {:induction false} ConjugatedCoefficient(x: seq<Complex>, y: seq<Complex>, w: Complex, k: nat, len: nat)
    requires |x| == |y| && len <= |x|
    requires forall i :: 0 <= i < |x| ==> y[i] == Conj(x[i])
    ensures Conj(Coefficient(y, w, k, len)) == Coefficient(x, Conj(w), k, len)
  {
    hide Mul, Power, Add;
    if len != 0 {
      ConjugatedCoefficient(x, y, w, k, len - 1);
      assert Conj(y[len - 1]) == x[len - 1];
      var p := Power(w, (len - 1) * k);
      ConjHom(y[len - 1], p);
      ConjHom(Coefficient(y, w, k, len - 1), Mul(y[len - 1], p));
      PowerConj(w, (len - 1) * k);
    }
  }

  /** IFFT: conjugate, transform, conjugate, divide by N. */
  method IFFT(data: array<Complex>, w: Complex, ghost top: nat)
    requires top > 0 && data.Length == Pow2(top) && data.Length < UINT32_LIMIT
    requires Power(w, data.Length / 2) == MINUS_ONE
    modifies data
    ensures data[..] == Inverse(old(data[..]), w)
    ensures w.re * w.re + w.im * w.im == 1.0 ==> forall v, k :: Mul(w, v) == ONE && 0 <= k < data.Length ==>
              Mul(data[k], Complex(data.Length as real, 0.0)) == Coefficient(old(data[..]), v, k, data.Length)
  {
    hide Coefficient, Power;
    ghost var x := data[..];
    ConjugateComplex(data);
    ghost var y := data[..];
    FFT(data, w, top);
    ConjugateComplex(data);
    forall k | 0 <= k < data.Length
      ensures data[k] == Coefficient(x, Conj(w), k, |x|)
    {
      ConjugatedCoefficient(x, y, w, k, |x|);
    }
    var N := data.Length;
    for i := 0 to N
      invariant forall k :: 0 <= k < N ==>
        data[k] == if k < i then DivReal(Coefficient(x, Conj(w), k, |x|), N as real) else Coefficient(x, Conj(w), k, |x|)
    {
      data[i] := DivReal(data[i], N as real);
    }
    if w.re * w.re + w.im * w.im == 1.0 {
      forall v, k | Mul(w, v) == ONE && 0 <= k < N
        ensures Mul(data[k], Complex(N as real, 0.0)) == Coefficient(x, v, k, N)
      {
        InverseOfUnit(w, v);
        TimesLength(Coefficient(x, v, k, N), N);
      }
    }
  }

  lemma TimesLength(z: Complex, n: nat)
    requires n > 0
    ensures Mul(DivReal(z, n as real), Complex(n as real, 0.0)) == z
  {
  }

  /** IFFT after FFT gives the signal back. */
  method TransformAndBack(data: array<Complex>, w: Complex, ghost top: nat)
    requires top > 0 && data.Length == Pow2(top) && data.Length < UINT32_LIMIT
    requires Power(w, data.Length / 2) == MINUS_ONE && w.re * w.re + w.im * w.im == 1.0
    modifies data
    ensures data[..] == old(data[..])
  {
    InverseOfUnit(w, Conj(w));
    hide Mul, Power;
    ghost var x := data[..];
    FFT(data, w, top);
    IFFT(data, w, top);
    InverseOfTransform(x, w, top);
  }

  /** FFT after IFFT gives the spectrum back. */
  method BackAndTransform(data: array<Complex>, w: Complex, ghost top: nat)
    requires top > 0 && data.Length == Pow2(top) && data.Length < UINT32_LIMIT
    requires Power(w, data.Length / 2) == MINUS_ONE && w.re * w.re + w.im * w.im == 1.0
    modifies data
    ensures data[..] == old(data[..])
  {
    InverseOfUnit(w, Conj(w));
    hide Mul, Power;
    ghost var x := data[..];
    IFFT(data, w, top);
    FFT(data, w, top);
    TransformOfInverse(x, w, top);
  }
}
