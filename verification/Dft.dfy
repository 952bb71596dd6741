/**
 The discrete Fourier transform as a function: its definition by sums, the radix-2 splitting
 that makes it fast, and the orthogonality that makes it invertible. The root of unity w is a
 parameter; all that is used of it is w^(N/2) == -1 for N a power of two.
 */
module Dft {
  import opened Arithmetic
  import opened ComplexNumbers
  import opened BitReversal

  const MINUS_ONE := Neg(ONE)

  /** Sum of x[n] * w^(n*k) over n < len: coefficient k of the transform, as a textbook writes it. */
  ghost function Coefficient(x: seq<Complex>, w: Complex, k: nat, len: nat): Complex
    requires len <= |x|
  {
    if len == 0 then ZERO
    else Add(Coefficient(x, w, k, len - 1), Mul(x[len - 1], Power(w, (len - 1) * k)))
  }

  ghost function Transform(x: seq<Complex>, w: Complex): (y: seq<Complex>)
    ensures |y| == |x|
  {
    seq(|x|, k requires 0 <= k => Coefficient(x, w, k, |x|))
  }

  /** The inverse transform: the conjugate root, and a division by the length. */
  ghost function Inverse(x: seq<Complex>, w: Complex): (y: seq<Complex>)
    ensures |y| == |x|
  {
    seq(|x|, k requires 0 <= k < |x| => DivReal(Coefficient(x, Conj(w), k, |x|), |x| as real))
  }

  // ---------- the transform as evaluation of a polynomial ----------

  /** c[0] + c[1]*z + c[2]*z^2 + ... */
  ghost function Eval(c: seq<Complex>, z: Complex): Complex {
    if c == [] then ZERO else Add(c[0], Mul(z, Eval(c[1..], z)))
  }

  lemma {:induction false} EvalAppend(c: seq<Complex>, v: Complex, z: Complex)
    ensures Eval(c + [v], z) == Add(Eval(c, z), Mul(v, Power(z, |c|)))
  {
    if c == [] {
      assert Eval([v], z) == Add(v, Mul(z, ZERO)) by {
        assert [v][1..] == [];
      }
      MulOne(v);
    } else {
      EvalAppendStep(c[0], z, Eval(c[1..], z), v, Power(z, |c| - 1));
      EvalAppend(c[1..], v, z);
      assert (c + [v])[1..] == c[1..] + [v];
    }
  }

  lemma EvalAppendStep(c0: Complex, z: Complex, e: Complex, v: Complex, p: Complex)
    ensures Add(c0, Mul(z, Add(e, Mul(v, p)))) == Add(Add(c0, Mul(z, e)), Mul(v, Mul(z, p)))
  {
    MulDistrib(z, e, Mul(v, p));
    MulAssoc(z, v, p);
    MulComm(z, v);
    MulAssoc(v, z, p);
  }

  lemma {:induction false} CoefficientIsEval(x: seq<Complex>, w: Complex, k: nat, len: nat)
    requires len <= |x|
    ensures Coefficient(x, w, k, len) == Eval(x[..len], Power(w, k))
  {
    hide Mul, Power;
    if len != 0 {
      CoefficientIsEval(x, w, k, len - 1);
      EvalAppend(x[..len - 1], x[len - 1], Power(w, k));
      PowerMul(w, k, len - 1);
      assert k * (len - 1) == (len - 1) * k;
      assert x[..len - 1] + [x[len - 1]] == x[..len];
    }
  }

  lemma TransformAt(x: seq<Complex>, w: Complex, k: nat)
    requires k < |x|
    ensures Transform(x, w)[k] == Eval(x, Power(w, k))
  {
    hide Mul, Power;
    CoefficientIsEval(x, w, k, |x|);
    assert x[..|x|] == x;
  }

  lemma InverseAt(x: seq<Complex>, w: Complex, k: nat)
    requires k < |x|
    ensures Inverse(x, w)[k] == DivReal(Eval(x, Power(Conj(w), k)), |x| as real)
  {
    hide Mul, Power;
    CoefficientIsEval(x, Conj(w), k, |x|);
    assert x[..|x|] == x;
  }

  // ---------- decimation in time ----------

  /** The entries of even (p == 0) or odd (p == 1) index. */
  ghost function Half(c: seq<Complex>, p: nat): (h: seq<Complex>)
    requires p < 2
    ensures |h| == |c| / 2
  {
    seq(|c| / 2, i requires 0 <= i < |c| / 2 => c[2 * i + p])
  }

  /** The splitting every butterfly performs. */
  lemma {:induction false} EvalSplit(c: seq<Complex>, z: Complex)
    requires |c| % 2 == 0
    ensures Eval(c, z) == Add(Eval(Half(c, 0), Mul(z, z)), Mul(z, Eval(Half(c, 1), Mul(z, z))))
  {
    hide Mul;
    if c == [] {
      MulZero(z);
    } else {
      var d := c[2..];
      EvalSplit(d, z);
      assert c[1..][1..] == d;
      assert Half(c, 0)[1..] == Half(d, 0);
      assert Half(c, 1)[1..] == Half(d, 1);
      EvalSplitStep(c[0], c[1], z, Eval(Half(d, 0), Mul(z, z)), Eval(Half(d, 1), Mul(z, z)));
    }
  }

  lemma MulZero(z: Complex)
    ensures Mul(z, ZERO) == ZERO
  {
  }

  lemma EvalSplitStep(c0: Complex, c1: Complex, z: Complex, e: Complex, o: Complex)
    ensures Add(c0, Mul(z, Add(c1, Mul(z, Add(e, Mul(z, o))))))
         == Add(Add(c0, Mul(Mul(z, z), e)), Mul(z, Add(c1, Mul(Mul(z, z), o))))
  {
    hide Mul;
    var inner := Add(e, Mul(z, o));
    MulDistrib(z, c1, Mul(z, inner));
    MulAssoc(z, z, inner);
    MulDistrib(Mul(z, z), e, Mul(z, o));
    MulDistrib(z, c1, Mul(Mul(z, z), o));
    MulAssoc(z, Mul(z, z), o);
    MulAssoc(Mul(z, z), z, o);
    MulComm(z, Mul(z, z));
  }

  /**
   The decimated subsequence that block b holds when the data is cut into 2^r blocks:
   each further cut takes the even entries to block 2b and the odd ones to block 2b + 1.
   */
  ghost function Decimated(x: seq<Complex>, r: nat, b: nat): seq<Complex> {
    if r == 0 then x else Half(Decimated(x, r - 1, b / 2), b % 2)
  }

  lemma {:induction false} DecimatedLength(x: seq<Complex>, r: nat, m: nat, b: nat)
    requires |x| == Pow2(r + m)
    ensures |Decimated(x, r, b)| == Pow2(m)
  {
    if r != 0 {
      DecimatedLength(x, r - 1, m + 1, b / 2);
    }
  }

  /** Block b starts at entry rev(b) and takes every 2^r-th entry from there on. */
  lemma {:induction false} DecimatedAt(x: seq<Complex>, r: nat, m: nat, b: nat, t: nat)
    requires |x| == Pow2(r + m)
    requires t < Pow2(m)
    ensures |Decimated(x, r, b)| == Pow2(m)
    ensures t * Pow2(r) + Rev(r, b) < |x|
    ensures Decimated(x, r, b)[t] == x[t * Pow2(r) + Rev(r, b)]
  {
    DecimatedLength(x, r, m, b);
    if r != 0 {
      var p, h := b % 2, Pow2(r - 1);
      DecimatedAt(x, r - 1, m + 1, b / 2, 2 * t + p);
      Regroup(t, p, h);
    }
  }

  lemma Regroup(t: nat, p: nat, h: nat)
    ensures (2 * t + p) * h == t * (2 * h) + p * h
  {
  }

  /** Cut down to single entries, block i holds the entry of reversed index. */
  lemma FullyDecimated(x: seq<Complex>, m: nat, i: nat)
    requires |x| == Pow2(m)
    ensures Rev(m, i) < |x| && Decimated(x, m, i) == [x[Rev(m, i)]]
  {
    DecimatedAt(x, m, 0, i, 0);
  }

  // ---------- one butterfly stage ----------

  /** The twiddle base of the stage that builds blocks of 2^m entries out of 2^top. */
  ghost function Base(w: Complex, top: nat, m: nat): Complex
    requires m <= top
  {
    Power(w, Pow2(top - m))
  }

  lemma BaseSquared(w: Complex, top: nat, m: nat)
    requires 0 < m <= top
    ensures Base(w, top, m - 1) == Mul(Base(w, top, m), Base(w, top, m))
  {
    hide Mul, Power;
    PowerAdd(w, Pow2(top - m), Pow2(top - m));
  }

  /** Half-way round the circle every stage's base is at -1. */
  lemma BaseHalf(w: Complex, top: nat, m: nat)
    requires 0 < m <= top && Power(w, Pow2(top - 1)) == MINUS_ONE
    ensures Power(Base(w, top, m), Pow2(m - 1)) == MINUS_ONE
  {
    hide Mul, Power;
    PowerMul(w, Pow2(top - m), Pow2(m - 1));
    Pow2Add(top - m, m - 1);
  }

  /** The block an index lies in, its place there, and an array made of whole blocks. */
  ghost function Block(i: nat, la: nat): nat
    requires la > 0
  {
    i / la
  }

  ghost function Place(i: nat, la: nat): nat
    requires la > 0
  {
    i % la
  }

  ghost predicate Whole(n: nat, la: nat)
    requires la > 0
  {
    n % la == 0
  }

  /** After stage m, block b holds the transform of its decimated subsequence. */
  ghost predicate Staged(d: seq<Complex>, x: seq<Complex>, w: Complex, top: nat, m: nat)
    requires m <= top
  {
    && |d| == |x|
    && forall i :: 0 <= i < |d| ==> d[i] == StagedAt(x, w, top, m, i)
  }

  ghost function StagedAt(x: seq<Complex>, w: Complex, top: nat, m: nat, i: nat): Complex
    requires m <= top
  {
    Eval(Decimated(x, top - m, Block(i, Pow2(m))), Power(Base(w, top, m), Place(i, Pow2(m))))
  }

  /** The entry a stage of half-block size lb and twiddle base z leaves at index i. */
  ghost function ButterflyAt(d: seq<Complex>, z: Complex, lb: nat, i: nat): Complex
    requires lb > 0 && i < |d| && Whole(|d|, 2 * lb)
  {
    PartnerInRange(|d|, lb, i);
    var r := Place(i, 2 * lb);
    if r < lb then Add(d[i], Mul(d[i + lb], Power(z, r)))
    else Sub(d[i - lb], Mul(d[i], Power(z, r - lb)))
  }

  lemma PartnerInRange(n: nat, lb: nat, i: nat)
    requires lb > 0 && i < n && Whole(n, 2 * lb)
    ensures if Place(i, 2 * lb) < lb then i + lb < n else lb <= i
  {
    ModShift(i, lb);
    WholeBlocks(i, 2 * lb, n);
  }

  /** In an array of whole blocks the block of every index is complete. */
  lemma WholeBlocks(i: nat, la: nat, n: nat)
    requires la > 0 && i < n && Whole(n, la)
    ensures i - Place(i, la) + la <= n
  {
    var q, c := i / la, n / la;
    assert n == la * c && i == la * q + i % la;
    DivBelow(i, la, c);
    MulMono(la, q + 1, c);
    assert la * (q + 1) == la * q + la;
  }

  lemma MulMono(d: nat, a: nat, b: nat)
    requires a <= b
    ensures d * a <= d * b
  {
  }

  ghost predicate Butterflied(e: seq<Complex>, d: seq<Complex>, z: Complex, lb: nat)
    requires lb > 0 && |e| == |d| && Whole(|d|, 2 * lb)
  {
    forall i :: 0 <= i < |d| ==> e[i] == ButterflyAt(d, z, lb, i)
  }

  /** A butterfly stage takes transforms of half-blocks to transforms of blocks. */
  lemma StageStep(d: seq<Complex>, e: seq<Complex>, x: seq<Complex>, w: Complex, top: nat, m: nat)
    requires 0 < m <= top && |x| == Pow2(top) && Whole(|x|, 2 * Pow2(m - 1))
    requires Power(w, Pow2(top - 1)) == MINUS_ONE
    requires Staged(d, x, w, top, m - 1)
    requires |e| == |d|
    requires Butterflied(e, d, Base(w, top, m), Pow2(m - 1))
    ensures Staged(e, x, w, top, m)
  {
    hide StagedAt, ButterflyAt, Base, Power;
    forall i | 0 <= i < |e|
      ensures e[i] == StagedAt(x, w, top, m, i)
    {
      StageStepAt(d, x, w, top, m, i);
    }
  }

  lemma StageStepAt(d: seq<Complex>, x: seq<Complex>, w: Complex, top: nat, m: nat, i: nat)
    requires 0 < m <= top && |x| == Pow2(top) && Whole(|x|, 2 * Pow2(m - 1))
    requires Power(w, Pow2(top - 1)) == MINUS_ONE
    requires Staged(d, x, w, top, m - 1)
    requires i < |d|
    ensures ButterflyAt(d, Base(w, top, m), Pow2(m - 1), i) == StagedAt(x, w, top, m, i)
  {
    hide Mul, Power, Eval, Half, Base, Block, Place, Whole;
    var lb, la := Pow2(m - 1), Pow2(m);
    PartnerInRange(|d|, lb, i);
    var q, r := Block(i, la), Place(i, la);
    var lo, k := if r < lb then i else i - lb, if r < lb then r else r - lb;
    ButterflyIndex(i, lb);
    DecimatedLength(x, top - m, m, q);
    var c, z := Decimated(x, top - m, q), Base(w, top, m);
    BaseSquared(w, top, m);
    BaseHalf(w, top, m);
    ButterflyAlgebra(c, z, k, lb);
    DecimatedHalves(x, top - m, q);
    assert d[lo] == StagedAt(x, w, top, m - 1, lo);
    assert d[lo + lb] == StagedAt(x, w, top, m - 1, lo + lb);
  }

  lemma DecimatedHalves(x: seq<Complex>, r: nat, q: nat)
    ensures Decimated(x, r + 1, 2 * q) == Half(Decimated(x, r, q), 0)
    ensures Decimated(x, r + 1, 2 * q + 1) == Half(Decimated(x, r, q), 1)
  {
  }

  /** Where index i and its partner sit when blocks of 2 * lb entries are cut in half. */
  lemma ButterflyIndex(i: nat, lb: nat)
    requires lb > 0
    ensures var q, r := Block(i, 2 * lb), Place(i, 2 * lb);
            var lo, k := if r < lb then i else i - lb, if r < lb then r else r - lb;
            && lo >= 0 && Block(lo, lb) == 2 * q && Place(lo, lb) == k
            && Block(lo + lb, lb) == 2 * q + 1 && Place(lo + lb, lb) == k
  {
    ModShift(i, lb);
    var lo := if i % (2 * lb) < lb then i else i - lb;
    ModShift(lo, lb);
    DivModDouble(lo, lb);
    DivModDouble(lo + lb, lb);
  }

  /** Both outputs of a butterfly, as values of the polynomial c at z^k and z^(k+h) == -z^k. */
  lemma ButterflyAlgebra(c: seq<Complex>, z: Complex, k: nat, h: nat)
    requires |c| % 2 == 0 && Power(z, h) == MINUS_ONE
    ensures var e, o := Eval(Half(c, 0), Power(Mul(z, z), k)), Eval(Half(c, 1), Power(Mul(z, z), k));
            && Add(e, Mul(o, Power(z, k))) == Eval(c, Power(z, k))
            && Sub(e, Mul(o, Power(z, k))) == Eval(c, Power(z, k + h))
  {
    hide Mul, Power, Eval, Half;
    var p := Power(z, k);
    var e, o := Eval(Half(c, 0), Mul(p, p)), Eval(Half(c, 1), Mul(p, p));
    SquareOfPower(z, k);
    EvalSplit(c, p);
    MulComm(o, p);
    NegatedPower(z, k, h);
    EvalSplit(c, Neg(p));
    NegLaws(p, e, o);
  }

  lemma SquareOfPower(z: Complex, k: nat)
    ensures Power(Mul(z, z), k) == Mul(Power(z, k), Power(z, k))
  {
    PowerOfProduct(z, z, k);
  }

  lemma NegatedPower(z: Complex, k: nat, h: nat)
    requires Power(z, h) == MINUS_ONE
    ensures Power(z, k + h) == Neg(Power(z, k))
  {
    PowerAdd(z, k, h);
  }

  lemma NegLaws(z: Complex, e: Complex, o: Complex)
    ensures Mul(Neg(z), Neg(z)) == Mul(z, z)
    ensures Add(e, Mul(Neg(z), o)) == Sub(e, Mul(z, o))
  {
  }

  /** Entry i of d is the entry of x whose index has the bits of i reversed. */
  ghost predicate BitReversed(d: seq<Complex>, x: seq<Complex>, top: nat)
    requires |d| == |x| == Pow2(top)
  {
    forall i :: 0 <= i < |d| ==> d[i] == x[Rev(top, i)]
  }

  /** Before the first stage the data is in bit-reversed order. */
  lemma StagedInitially(d: seq<Complex>, x: seq<Complex>, w: Complex, top: nat)
    requires |d| == |x| == Pow2(top) && BitReversed(d, x, top)
    ensures Staged(d, x, w, top, 0)
  {
    forall i | 0 <= i < |d|
      ensures d[i] == StagedAt(x, w, top, 0, i)
    {
      FullyDecimated(x, top, i);
      EvalAppend([], d[i], Power(Base(w, top, 0), 0));
      assert [] + [d[i]] == [d[i]];
      MulOne(d[i]);
    }
  }

  /** After the last stage it is the transform. */
  lemma StagedFinally(d: seq<Complex>, x: seq<Complex>, w: Complex, top: nat)
    requires |x| == Pow2(top)
    requires Staged(d, x, w, top, top)
    ensures d == Transform(x, w)
  {
    hide Mul, Eval, Coefficient;
    forall i | 0 <= i < |d|
      ensures d[i] == Transform(x, w)[i]
    {
      TransformAt(x, w, i);
      PowerFirst(w);
      DivModUnique(i, Pow2(top), 0, i);
      assert d[i] == StagedAt(x, w, top, top, i);
    }
  }

  // ---------- orthogonality and inversion ----------

  /** 1 + z + ... + z^(n-1) */
  ghost function Geometric(z: Complex, n: nat): Complex {
    if n == 0 then ZERO else Add(Geometric(z, n - 1), Power(z, n - 1))
  }

  lemma {:induction false} GeometricAdd(z: Complex, m: nat, n: nat)
    ensures Geometric(z, m + n) == Add(Geometric(z, m), Mul(Power(z, m), Geometric(z, n)))
  {
    hide Mul, Power;
    if n == 0 {
      MulZero(Power(z, m));
    } else {
      GeometricAdd(z, m, n - 1);
      PowerAdd(z, m, n - 1);
      MulDistrib(Power(z, m), Geometric(z, n - 1), Power(z, n - 1));
    }
  }

  /** The powers of a non-trivial N-th root of unity cancel. */
  lemma {:induction false} Orthogonality(w: Complex, m: nat, d: nat)
    requires m > 0 && 0 < d < Pow2(m)
    requires Power(w, Pow2(m - 1)) == MINUS_ONE
    ensures Geometric(Power(w, d), Pow2(m)) == ZERO
    decreases m
  {
    hide Mul, Power, Geometric;
    var z, h := Power(w, d), Pow2(m - 1);
    GeometricAdd(z, h, h);
    PowerExchange(w, d, h);
    PowerOfMinusOne(d);
    if d % 2 == 1 {
      Cancel(Geometric(z, h));
    } else {
      assert d / 2 < h && h == 2 * Pow2(m - 2);
      PowerMul(w, 2, d / 2);
      PowerMul(w, 2, Pow2(m - 2));
      Orthogonality(Power(w, 2), m - 1, d / 2);
      MulZero(Power(z, h));
    }
  }

  lemma PowerExchange(w: Complex, m: nat, n: nat)
    ensures Power(Power(w, m), n) == Power(Power(w, n), m)
  {
    hide Power;
    PowerMul(w, m, n);
    PowerMul(w, n, m);
    assert m * n == n * m;
  }

  lemma Cancel(g: Complex)
    ensures Add(g, Mul(MINUS_ONE, g)) == ZERO
  {
  }

  lemma {:induction false} PowerOfMinusOne(d: nat)
    ensures Power(MINUS_ONE, d) == if d % 2 == 1 then MINUS_ONE else ONE
  {
    hide Mul, Power;
    if d < 2 {
      PowerFirst(MINUS_ONE);
    } else {
      PowerOfMinusOne(d - 2);
      PowerSucc(MINUS_ONE, d - 1);
      PowerSucc(MINUS_ONE, d - 2);
      MinusOneTwice(Power(MINUS_ONE, d - 2));
      assert d % 2 == (d - 2) % 2;
    }
  }

  lemma MinusOneTwice(a: Complex)
    ensures Mul(MINUS_ONE, Mul(MINUS_ONE, a)) == a
  {
  }

  lemma {:induction false} GeometricOfOne(n: nat)
    ensures Geometric(ONE, n) == Complex(n as real, 0.0)
  {
    hide Mul, Power;
    if n != 0 {
      GeometricOfOne(n - 1);
      PowerOne(n - 1);
    }
  }

  /** The first n values of the polynomial c at the powers of w, weighted by powers of u and summed. */
  ghost function Weighted(c: seq<Complex>, w: Complex, u: Complex, n: nat): Complex {
    if n == 0 then ZERO
    else Add(Weighted(c, w, u, n - 1), Mul(Eval(c, Power(w, n - 1)), Power(u, n - 1)))
  }

  /** Exchanging the two sums, one coefficient at a time. */
  lemma {:induction false} WeightedStep(c: seq<Complex>, w: Complex, u: Complex, n: nat)
    requires c != []
    ensures Weighted(c, w, u, n) == Add(Mul(c[0], Geometric(u, n)), Weighted(c[1..], w, Mul(w, u), n))
  {
    hide Mul, Power;
    if n == 0 {
      MulZero(c[0]);
    } else {
      WeightedStep(c, w, u, n - 1);
      PowerOfProduct(w, u, n - 1);
      WeightedTerm(c[0], Power(w, n - 1), Power(u, n - 1), Eval(c[1..], Power(w, n - 1)));
      MulDistrib(c[0], Geometric(u, n - 1), Power(u, n - 1));
    }
  }

  lemma WeightedTerm(c0: Complex, p: Complex, q: Complex, e: Complex)
    ensures Mul(Add(c0, Mul(p, e)), q) == Add(Mul(c0, q), Mul(e, Mul(p, q)))
  {
    hide Mul;
    MulComm(Add(c0, Mul(p, e)), q);
    MulDistrib(q, c0, Mul(p, e));
    MulComm(q, c0);
    MulComm(p, e);
    MulComm(q, Mul(e, p));
    MulAssoc(e, p, q);
  }

  /** Roots w and v that are inverse to each other, each half-way at -1. */
  ghost predicate InverseRoots(w: Complex, v: Complex, m: nat) {
    m > 0 && Mul(w, v) == ONE && Power(w, Pow2(m - 1)) == MINUS_ONE && Power(v, Pow2(m - 1)) == MINUS_ONE
  }

  /** w^n * v^j is 1 on the diagonal and cancels off it. */
  lemma PowerRatio(w: Complex, v: Complex, m: nat, n: nat, j: nat)
    requires InverseRoots(w, v, m) && n < Pow2(m) && j < Pow2(m)
    ensures Geometric(Mul(Power(w, n), Power(v, j)), Pow2(m))
         == if n == j then Complex(Pow2(m) as real, 0.0) else ZERO
  {
    hide Mul, Power, Geometric, Pow2;
    if n == j {
      PowerCancel(w, v, 0, n);
      GeometricOfOne(Pow2(m));
      PowerFirst(w);
    } else if n < j {
      PowerCancel(v, w, j - n, n);
      MulComm(Power(w, n), Power(v, j));
      MulComm(w, v);
      Orthogonality(v, m, j - n);
    } else {
      PowerCancel(w, v, n - j, j);
      Orthogonality(w, m, n - j);
    }
  }

  lemma PowerCancel(w: Complex, v: Complex, d: nat, k: nat)
    requires Mul(w, v) == ONE || Mul(v, w) == ONE
    ensures Mul(Power(w, d + k), Power(v, k)) == Power(w, d)
  {
    hide Mul, Power;
    MulComm(w, v);
    PowerAdd(w, d, k);
    MulAssoc(Power(w, d), Power(w, k), Power(v, k));
    PowerOfProduct(w, v, k);
    PowerOne(k);
    MulOne(Power(w, d));
  }

  /** Only the coefficient of index j survives the weighting by powers of v^j. */
  lemma {:induction false} WeightedPicks(x: seq<Complex>, w: Complex, v: Complex, m: nat, n: nat, j: nat)
    requires InverseRoots(w, v, m) && |x| == Pow2(m) && n <= |x| && j < |x|
    ensures Weighted(x[n..], w, Mul(Power(w, n), Power(v, j)), |x|)
         == if n <= j then Mul(x[j], Complex(|x| as real, 0.0)) else ZERO
    decreases |x| - n
  {
    hide Mul, Add, Power, Geometric, Pow2, Eval, Weighted, InverseRoots;
    var u := Mul(Power(w, n), Power(v, j));
    if n == |x| {
      assert x[n..] == [];
      WeightedEmpty(w, u, |x|);
    } else {
      WeightedNext(x, w, v, n, j);
      WeightedPicks(x, w, v, m, n + 1, j);
      TermPicks(x[n], w, v, m, n, j);
      AddZero(Mul(x[n], Complex(|x| as real, 0.0)));
      AddZero(if n < j then Mul(x[j], Complex(|x| as real, 0.0)) else ZERO);
    }
  }

  /** The first of the weighted coefficients that are left. */
  lemma WeightedNext(x: seq<Complex>, w: Complex, v: Complex, n: nat, j: nat)
    requires n < |x|
    ensures Weighted(x[n..], w, Mul(Power(w, n), Power(v, j)), |x|)
         == Add(Mul(x[n], Geometric(Mul(Power(w, n), Power(v, j)), |x|)),
                Weighted(x[n + 1..], w, Mul(Power(w, n + 1), Power(v, j)), |x|))
  {
    hide Mul, Add, Power, Geometric, Weighted;
    WeightedStep(x[n..], w, Mul(Power(w, n), Power(v, j)), |x|);
    assert x[n..][1..] == x[n + 1..] && x[n..][0] == x[n];
    PowerSucc(w, n);
    MulAssoc(w, Power(w, n), Power(v, j));
  }

  lemma TermPicks(z: Complex, w: Complex, v: Complex, m: nat, n: nat, j: nat)
    requires InverseRoots(w, v, m) && n < Pow2(m) && j < Pow2(m)
    ensures Mul(z, Geometric(Mul(Power(w, n), Power(v, j)), Pow2(m)))
         == if n == j then Mul(z, Complex(Pow2(m) as real, 0.0)) else ZERO
  {
    hide Mul, Power, Geometric, Pow2, InverseRoots;
    PowerRatio(w, v, m, n, j);
    MulZero(z);
  }

  lemma AddZero(z: Complex)
    ensures Add(z, ZERO) == z && Add(ZERO, z) == z
  {
  }

  lemma PowerSucc(w: Complex, n: nat)
    ensures Power(w, n + 1) == Mul(w, Power(w, n))
  {
  }

  lemma {:induction false} WeightedEmpty(w: Complex, u: Complex, n: nat)
    ensures Weighted([], w, u, n) == ZERO
  {
    if n != 0 {
      WeightedEmpty(w, u, n - 1);
    }
  }

  /** Evaluating the transform of x at u is the weighted sum. */
  lemma {:induction false} EvalOfTransform(x: seq<Complex>, w: Complex, u: Complex, n: nat)
    requires n <= |x|
    ensures Eval(Transform(x, w)[..n], u) == Weighted(x, w, u, n)
  {
    hide Mul, Power;
    if n != 0 {
      EvalOfTransform(x, w, u, n - 1);
      var y := Transform(x, w);
      assert y[..n] == y[..n - 1] + [y[n - 1]];
      EvalAppend(y[..n - 1], y[n - 1], u);
      TransformAt(x, w, n - 1);
    }
  }

  /** Transforming with w and then with its inverse scales by the length. */
  lemma DoubleTransform(x: seq<Complex>, w: Complex, v: Complex, m: nat, j: nat)
    requires InverseRoots(w, v, m) && |x| == Pow2(m) && j < |x|
    ensures Eval(Transform(x, w), Power(v, j)) == Mul(x[j], Complex(|x| as real, 0.0))
  {
    hide Mul;
    var y := Transform(x, w);
    EvalOfTransform(x, w, Power(v, j), |x|);
    assert y[..|x|] == y && x[0..] == x;
    WeightedPicks(x, w, v, m, 0, j);
    MulOne(Power(v, j));
  }

  lemma ConjugateRoots(w: Complex, m: nat)
    requires m > 0 && Mul(Conj(w), w) == ONE && Power(w, Pow2(m - 1)) == MINUS_ONE
    ensures InverseRoots(w, Conj(w), m) && InverseRoots(Conj(w), w, m)
  {
    MulComm(w, Conj(w));
    PowerConj(w, Pow2(m - 1));
  }

  lemma ScaleBack(a: Complex, n: real)
    requires n != 0.0
    ensures DivReal(Mul(a, Complex(n, 0.0)), n) == a
  {
    assert a.re * n / n == a.re && a.im * n / n == a.im;
  }

  /** The inverse transform undoes the transform. */
  lemma InverseOfTransform(x: seq<Complex>, w: Complex, m: nat)
    requires m > 0 && |x| == Pow2(m)
    requires Mul(Conj(w), w) == ONE && Power(w, Pow2(m - 1)) == MINUS_ONE
    ensures Inverse(Transform(x, w), w) == x
  {
    hide Mul, Power, Eval, Coefficient;
    ConjugateRoots(w, m);
    forall j | 0 <= j < |x|
      ensures Inverse(Transform(x, w), w)[j] == x[j]
    {
      InverseAt(Transform(x, w), w, j);
      DoubleTransform(x, w, Conj(w), m, j);
      ScaleBack(x[j], |x| as real);
    }
  }

  lemma {:induction false} EvalScaled(c: seq<Complex>, z: Complex, n: real)
    requires n != 0.0
    ensures Eval(seq(|c|, i requires 0 <= i < |c| => DivReal(c[i], n)), z) == DivReal(Eval(c, z), n)
  {
    var s := seq(|c|, i requires 0 <= i < |c| => DivReal(c[i], n));
    if c != [] {
      var t := c[1..];
      var st := seq(|t|, i requires 0 <= i < |t| => DivReal(t[i], n));
      assert s[1..] == st;
      EvalScaled(t, z, n);
      DivLinear(c[0], z, Eval(t, z), n);
    }
  }

  lemma DivLinear(c0: Complex, z: Complex, e: Complex, n: real)
    requires n != 0.0
    ensures Add(DivReal(c0, n), Mul(z, DivReal(e, n))) == DivReal(Add(c0, Mul(z, e)), n)
  {
    var a, b := e.re / n, e.im / n;
    assert e.re == a * n && e.im == b * n;
    assert Mul(z, e) == Complex((z.re * a - z.im * b) * n, (z.re * b + z.im * a) * n);
    QuotientOfSum(c0.re, z.re * a - z.im * b, n);
    QuotientOfSum(c0.im, z.re * b + z.im * a, n);
  }

  lemma QuotientOfSum(p: real, q: real, n: real)
    requires n != 0.0
    ensures (p + q * n) / n == p / n + q
  {
    var t := p / n;
    assert p + q * n == (t + q) * n;
  }

  /** The transform undoes the inverse transform. */
  lemma TransformOfInverse(x: seq<Complex>, w: Complex, m: nat)
    requires m > 0 && |x| == Pow2(m)
    requires Mul(Conj(w), w) == ONE && Power(w, Pow2(m - 1)) == MINUS_ONE
    ensures Transform(Inverse(x, w), w) == x
  {
    hide Mul, Power, Eval, Coefficient;
    ConjugateRoots(w, m);
    var y, n := Transform(x, Conj(w)), |x| as real;
    var s := seq(|y|, i requires 0 <= i < |y| => DivReal(y[i], n));
    forall k | 0 <= k < |x|
      ensures s[k] == Inverse(x, w)[k]
    {
      InverseAt(x, w, k);
      TransformAt(x, Conj(w), k);
    }
    assert s == Inverse(x, w);
    forall j | 0 <= j < |x|
      ensures Transform(s, w)[j] == x[j]
    {
      TransformAt(s, w, j);
      EvalScaled(y, Power(w, j), n);
      DoubleTransform(x, Conj(w), w, m, j);
      ScaleBack(x[j], n);
    }
  }
}
