/**
 Complex arithmetic as ytlib/math/complex.hpp defines it, over exact reals:
 the rounding of the floating-point type is not modelled.
 */
module ComplexNumbers {

  datatype Complex = Complex(re: real, im: real)

  const ZERO := Complex(0.0, 0.0)
  const ONE := Complex(1.0, 0.0)

  function Add(a: Complex, b: Complex): Complex {
    Complex(a.re + b.re, a.im + b.im)
  }

  function Sub(a: Complex, b: Complex): Complex {
    Complex(a.re - b.re, a.im - b.im)
  }

  function Mul(a: Complex, b: Complex): Complex {
    Complex(a.re * b.re - a.im * b.im, a.re * b.im + a.im * b.re)
  }

  function Neg(a: Complex): Complex {
    Complex(-a.re, -a.im)
  }

  function Conj(a: Complex): Complex {
    Complex(a.re, -a.im)
  }

  function DivReal(a: Complex, s: real): Complex
    requires s != 0.0
  {
    Complex(a.re / s, a.im / s)
  }

  /** z multiplied by itself n times: what Pow computes. */
  ghost function Power(z: Complex, n: nat): Complex {
    if n == 0 then ONE else Mul(z, Power(z, n - 1))
  }

  // ---------- the ring laws ----------

  lemma MulComm(a: Complex, b: Complex)
    ensures Mul(a, b) == Mul(b, a)
  {
  }

  lemma MulAssoc(a: Complex, b: Complex, c: Complex)
    ensures Mul(Mul(a, b), c) == Mul(a, Mul(b, c))
  {
  }

  lemma MulOne(a: Complex)
    ensures Mul(ONE, a) == a == Mul(a, ONE)
  {
  }

  lemma MulDistrib(a: Complex, b: Complex, c: Complex)
    ensures Mul(a, Add(b, c)) == Add(Mul(a, b), Mul(a, c))
  {
  }

  lemma ConjHom(a: Complex, b: Complex)
    ensures Conj(Add(a, b)) == Add(Conj(a), Conj(b))
    ensures Conj(Mul(a, b)) == Mul(Conj(a), Conj(b))
  {
  }

  // ---------- moduli ----------

  const I := Complex(0.0, 1.0)

  function SquaredModulus(z: Complex): real {
    z.re * z.re + z.im * z.im
  }

  /** The product is the one in which i*i is -1. */
  lemma ImaginaryUnit()
    ensures Mul(I, I) == Complex(-1.0, 0.0)
    ensures Power(I, 2) == Complex(-1.0, 0.0) && Power(I, 4) == ONE
  {
    assert I.re == 0.0 && I.im == 1.0;
    FourFactors(I);
  }

  lemma FourFactors(z: Complex)
    ensures Power(z, 2) == Mul(z, z) && Power(z, 4) == Mul(z, Mul(z, Mul(z, z)))
  {
    hide Mul;
    PowerFirst(z);
    assert Power(z, 2) == Mul(z, Power(z, 1));
    assert Power(z, 3) == Mul(z, Power(z, 2));
    assert Power(z, 4) == Mul(z, Power(z, 3));
  }

  lemma ModulusOfProduct(a: Complex, b: Complex)
    ensures SquaredModulus(Mul(a, b)) == SquaredModulus(a) * SquaredModulus(b)
  {
    var p, q, r, s := a.re * b.re, a.im * b.im, a.re * b.im, a.im * b.re;
    SquareOfDifference(p, q);
    SquareOfSum(r, s);
    TwoSquares(a.re, a.im, b.re, b.im);
  }

  lemma SquareOfDifference(p: real, q: real)
    ensures (p - q) * (p - q) == p * p - 2.0 * (p * q) + q * q
  {
  }

  lemma SquareOfSum(p: real, q: real)
    ensures (p + q) * (p + q) == p * p + 2.0 * (p * q) + q * q
  {
  }

  lemma TwoSquares(a: real, b: real, c: real, d: real)
    ensures (a * c) * (b * d) == (a * d) * (b * c)
    ensures (a * c) * (a * c) + (b * d) * (b * d) + (a * d) * (a * d) + (b * c) * (b * c)
         == (a * a + b * b) * (c * c + d * d)
  {
    Square(a, c);
    Square(b, d);
    Square(a, d);
    Square(b, c);
  }

  lemma Square(x: real, y: real)
    ensures (x * y) * (x * y) == (x * x) * (y * y)
  {
  }

  /** A number of modulus one has its conjugate, and nothing else, for its inverse. */
  lemma InverseOfUnit(w: Complex, v: Complex)
    requires SquaredModulus(w) == 1.0
    ensures Mul(w, v) == ONE <==> v == Complex(w.re, -w.im)
    ensures Mul(Conj(w), w) == ONE
  {
    var c := Complex(w.re, -w.im);
    assert Mul(c, w) == ONE == Mul(w, c);
    if Mul(w, v) == ONE {
      MulAssoc(c, w, v);
      MulOne(v);
      MulOne(c);
    }
  }

  // ---------- powers ----------

  lemma {:induction false} PowerAdd(z: Complex, m: nat, n: nat)
    ensures Power(z, m + n) == Mul(Power(z, m), Power(z, n))
  {
    hide Mul;
    if m == 0 {
      MulOne(Power(z, n));
    } else {
      PowerAdd(z, m - 1, n);
      MulAssoc(z, Power(z, m - 1), Power(z, n));
    }
  }

  lemma {:induction false} PowerMul(z: Complex, m: nat, n: nat)
    ensures Power(Power(z, m), n) == Power(z, m * n)
  {
    hide Mul;
    if n != 0 {
      PowerMul(z, m, n - 1);
      PowerAdd(z, m, m * (n - 1));
      assert m + m * (n - 1) == m * n;
    }
  }

  lemma {:induction false} PowerOne(n: nat)
    ensures Power(ONE, n) == ONE
  {
    hide Mul;
    if n != 0 {
      PowerOne(n - 1);
      MulOne(ONE);
    }
  }

  lemma {:induction false} PowerOfProduct(a: Complex, b: Complex, n: nat)
    ensures Power(Mul(a, b), n) == Mul(Power(a, n), Power(b, n))
  {
    hide Mul;
    if n == 0 {
      MulOne(ONE);
    } else {
      PowerOfProduct(a, b, n - 1);
      MulSwap(a, b, Power(a, n - 1), Power(b, n - 1));
    }
  }

  lemma MulSwap(a: Complex, b: Complex, c: Complex, d: Complex)
    ensures Mul(Mul(a, b), Mul(c, d)) == Mul(Mul(a, c), Mul(b, d))
  {
    hide Mul;
    MulAssoc(a, b, Mul(c, d));
    MulAssoc(b, c, d);
    MulComm(b, c);
    MulAssoc(c, b, d);
    MulAssoc(a, c, Mul(b, d));
  }

  lemma {:induction false} PowerConj(z: Complex, n: nat)
    ensures Power(Conj(z), n) == Conj(Power(z, n))
  {
    hide Mul;
    if n != 0 {
      PowerConj(z, n - 1);
      ConjHom(z, Power(z, n - 1));
    }
  }

  // ---------- the members that update a number in place ----------

  /** A Complex object: the two fields that operator*= overwrites. */
  class Cell {
    var real_: real
    var imag: real

    ghost function Val(): Complex
      reads this
    {
      Complex(real_, imag)
    }

    constructor (z: Complex)
      ensures Val() == z
    {
      real_, imag := z.re, z.im;
    }

    /** operator*=. The argument may be the receiver itself, as in tmp *= tmp. */
    method MulAssign(value: Cell)
      modifies this
      ensures Val() == Mul(old(Val()), old(value.Val()))
    {
      var tmp := real_ * value.real_ - imag * value.imag;
      imag := real_ * value.imag + imag * value.real_;
      real_ := tmp;
    }
  }

  /** Pow by repeated squaring, including its one superfluous last squaring. */
  method Pow(value: Complex, n: nat) returns (r: Complex)
    ensures r == Power(value, n)
  {
    var re := new Cell(ONE);
    var tmp := new Cell(value);
    var e := n;
    MulOne(Power(value, n));
    while e != 0
      invariant fresh(re) && fresh(tmp) && re != tmp
      invariant Mul(re.Val(), Power(tmp.Val(), e)) == Power(value, n)
    {
      SquareStep(re.Val(), tmp.Val(), e);
      if e % 2 == 1 {
        re.MulAssign(tmp);
      }
      tmp.MulAssign(tmp);
      e := e / 2;
    }
    MulOne(re.Val());
    r := Complex(re.real_, re.imag);
  }

  lemma SquareStep(re: Complex, z: Complex, e: nat)
    requires e != 0
    ensures Mul(re, Power(z, e)) == Mul(if e % 2 == 1 then Mul(re, z) else re, Power(Mul(z, z), e / 2))
  {
    hide Mul, Power;
    var h := e / 2;
    PowerOfProduct(z, z, h);
    PowerAdd(z, h, h);
    if e % 2 == 1 {
      assert e == 1 + (h + h);
      PowerAdd(z, 1, h + h);
      PowerFirst(z);
      MulAssoc(re, z, Power(z, h + h));
    } else {
      assert e == h + h;
    }
  }

  lemma PowerFirst(z: Complex)
    ensures Power(z, 0) == ONE && Power(z, 1) == z
  {
    MulOne(z);
  }
}
