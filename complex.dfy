/** Complex numbers over exact reals, as used by the radix-2 transform.
    The source stores two f32 components; here they are unbounded reals, so
    rounding and the accuracy of the fused multiply-add are not modelled. */
module ComplexNumbers {

  datatype Complex = Complex(re: real, im: real)

  const Zero := Complex(0.0, 0.0)
  const One := Complex(1.0, 0.0)

  /** Componentwise sum, `impl Add`: Zero is its identity on either side. */
  function Add(a: Complex, b: Complex): (r: Complex)
    ensures b == Zero ==> r == a
    ensures a == Zero ==> r == b
  {
    Complex(a.re + b.re, a.im + b.im)
  }

  /** Componentwise difference, `impl Sub`: adding b back gives a, and it
      is the sum with the negation. */
  function Sub(a: Complex, b: Complex): (r: Complex)
    ensures Add(r, b) == a
    ensures r == Add(a, Neg(b))
  {
    Complex(a.re - b.re, a.im - b.im)
  }

  /** Componentwise negation, `impl Neg`: the additive inverse. */
  function Neg(a: Complex): (r: Complex)
    ensures Add(a, r) == Zero && Add(r, a) == Zero
  {
    Complex(-a.re, -a.im)
  }

  /** The complex product, written out once as the reference that MulAdd is
      checked against; the source itself has no separate product. */
  function Mul(a: Complex, b: Complex): Complex
  {
    Complex(a.re * b.re - a.im * b.im, a.re * b.im + a.im * b.re)
  }

  /** `self.mul_add(factor, term)`: each component is computed as two nested
      fused multiply-adds; over exact reals this is the product plus the term. */
  function MulAdd(self: Complex, factor: Complex, term: Complex): (r: Complex)
    ensures r == Add(Mul(self, factor), term)
    ensures r == Add(term, Mul(factor, self))
  {
    assert (-self.im) * factor.im == -(self.im * factor.im);
    assert factor.re * self.im == self.im * factor.re && factor.im * self.re == self.re * factor.im;
    Complex(
      self.re * factor.re + ((-self.im) * factor.im + term.re),
      self.re * factor.im + (self.im * factor.re + term.im))
  }

  /** Squared norm, `re * re + im * im`; never negative. */
  function NormSqr(z: Complex): (r: real)
    ensures r >= 0.0
  {
    SquareNonNegative(z.re);
    SquareNonNegative(z.im);
    z.re * z.re + z.im * z.im
  }

  lemma SquareNonNegative(x: real)
    ensures x * x >= 0.0
  {
    if x < 0.0 {
      assert x * x == (-x) * (-x);
    }
  }

  /** The second butterfly output, `cexp.mul_add(-odd, even)`, is the
      difference `even - cexp * odd`; and subtraction is addition of the
      negation. */
  lemma MulAddNegIsSub(c: Complex, odd: Complex, even: Complex)
    ensures MulAdd(c, Neg(odd), even) == Sub(even, Mul(c, odd))
    ensures Sub(even, Mul(c, odd)) == Add(even, Neg(Mul(c, odd)))
    ensures Mul(Neg(c), odd) == Mul(c, Neg(odd))
  {
  }

  // Ring laws used by the agreement proof with the direct DFT.

  lemma MulAssoc(a: Complex, b: Complex, c: Complex)
    ensures Mul(Mul(a, b), c) == Mul(a, Mul(b, c))
  {
    assert (a.re * b.re - a.im * b.im) * c.re == a.re * (b.re * c.re) - a.im * (b.im * c.re);
    assert (a.re * b.im + a.im * b.re) * c.im == a.re * (b.im * c.im) + a.im * (b.re * c.im);
    assert (a.re * b.re - a.im * b.im) * c.im == a.re * (b.re * c.im) - a.im * (b.im * c.im);
    assert (a.re * b.im + a.im * b.re) * c.re == a.re * (b.im * c.re) + a.im * (b.re * c.re);
  }

  lemma MulDistributes(a: Complex, u: Complex, v: Complex)
    ensures Mul(a, Add(u, v)) == Add(Mul(a, u), Mul(a, v))
  {
    assert a.re * (u.re + v.re) == a.re * u.re + a.re * v.re;
    assert a.im * (u.im + v.im) == a.im * u.im + a.im * v.im;
    assert a.re * (u.im + v.im) == a.re * u.im + a.re * v.im;
    assert a.im * (u.re + v.re) == a.im * u.re + a.im * v.re;
  }

  lemma MulComm(a: Complex, b: Complex)
    ensures Mul(a, b) == Mul(b, a)
  {
    assert a.re * b.re == b.re * a.re && a.im * b.im == b.im * a.im;
    assert a.re * b.im == b.im * a.re && a.im * b.re == b.re * a.im;
  }

  lemma MulOne(a: Complex)
    ensures Mul(One, a) == a && Mul(a, One) == a
  {
  }

  lemma MulZero(a: Complex)
    ensures Mul(a, Zero) == Zero
  {
  }

  lemma MulNeg(a: Complex, b: Complex)
    ensures Mul(Neg(a), b) == Neg(Mul(a, b))
  {
    assert (-a.re) * b.re == -(a.re * b.re) && (-a.im) * b.im == -(a.im * b.im);
    assert (-a.re) * b.im == -(a.re * b.im) && (-a.im) * b.re == -(a.im * b.re);
  }
}
