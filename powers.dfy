/** Powers of two, shared by the transform's length condition and the
    sample-scale shift in the decoder. */
module Powers {

  function Pow2(k: nat): (r: nat)
    ensures r >= 1
  {
    if k == 0 then 1 else 2 * Pow2(k - 1)
  }

  /** The largest i32. */
  const I32Max: nat := 0x7FFF_FFFF

  lemma I32MaxIsPow2()
    ensures I32Max == Pow2(31) - 1
  {
    Pow2Add(8, 8);
    Pow2Add(16, 15);
    Pow2Add(8, 7);
    assert Pow2(8) == 256;
    assert Pow2(7) == 128;
  }

  /** 2^(a+b) = 2^a * 2^b. */
  lemma {:induction false} Pow2Add(a: nat, b: nat)
    ensures Pow2(a + b) == Pow2(a) * Pow2(b)
  {
    if a > 0 {
      Pow2Add(a - 1, b);
      assert Pow2(a + b) == 2 * Pow2(a - 1 + b);
    }
  }

  lemma MulMonotone(a: nat, b: nat, d: nat)
    requires a <= b
    ensures a * d <= b * d
  {
  }

  lemma MulPred(q: nat, d: nat)
    requires q >= 1
    ensures (q - 1) * d == q * d - d
  {
  }

  /** One less than a multiple of d, divided by d, rounds down to one less
      than the multiplier. */
  lemma DivPred(q: nat, d: nat)
    requires q >= 1 && d >= 1
    ensures (q * d - 1) / d == q - 1
  {
    var x := q * d - 1;
    var s := x / d;
    assert s * d <= x < (s + 1) * d;
    if s >= q {
      MulMonotone(q, s, d);
    } else if s + 1 <= q - 1 {
      MulMonotone(s + 1, q - 1, d);
      MulPred(q, d);
    }
  }

  /** A quotient below `len` when the dividend is below `width * len`. */
  lemma DivBelow(a: nat, width: nat, len: nat)
    requires width > 0 && a < width * len
    ensures a / width < len
  {
    if a / width >= len {
      MulMonotone(len, a / width, width);
    }
  }

  /** A quotient at most `len` when the dividend is at most `width * len`. */
  lemma DivAtMost(a: nat, width: nat, len: nat)
    requires width > 0 && a <= width * len
    ensures a / width <= len
  {
    if a / width > len {
      MulMonotone(len + 1, a / width, width);
    }
  }

  /** Division is monotone in the dividend. */
  lemma DivMonotone(a: nat, b: nat, width: nat)
    requires width > 0 && a <= b
    ensures a / width <= b / width
  {
    if a / width > b / width {
      MulMonotone(b / width + 1, a / width, width);
    }
  }

  /** Quotient and remainder are unique. */
  lemma DivUnique(a: nat, width: nat, q: nat, r: nat)
    requires width > 0 && r < width && a == q * width + r
    ensures a / width == q
  {
    var s := a / width;
    assert s * width <= a < (s + 1) * width;
    if s > q {
      MulMonotone(q + 1, s, width);
    } else if s < q {
      MulMonotone(s + 1, q, width);
    }
  }

  /** Adding the divisor adds one to the quotient. */
  lemma DivAddDivisor(a: nat, width: nat)
    requires width > 0
    ensures (a + width) / width == a / width + 1
  {
    var q, r := a / width, a % width;
    assert (q + 1) * width == q * width + width;
    DivUnique(a + width, width, q + 1, r);
  }

  /** Division rounding down: the quotient brackets the dividend. */
  function Quotient(x: nat, d: nat): (r: nat)
    requires d > 0
    ensures r * d <= x < (r + 1) * d
  {
    var q, m := x / d, x % d;
    assert x == q * d + m;
    assert (q + 1) * d == q * d + d;
    q
  }

  /** A logical right shift of a non-negative value by k bits. */
  function ShiftRight(x: nat, k: nat): (r: nat)
    ensures r * Pow2(k) <= x < (r + 1) * Pow2(k)
  {
    Quotient(x, Pow2(k))
  }
}
