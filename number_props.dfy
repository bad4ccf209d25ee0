/** What the modular contracts of number.cpp's operations mean for int2023_t as a signed
    type: each operation is the two's-complement counterpart of the integer operation,
    exact whenever the integer result fits the width, and the operations undo one
    another as integer arithmetic does. The lemmas speak of any results r that meet the
    operations' ensures, so they hold of what Add, Sub, Negate, Mul and Div return. */
module NumberProps {
  import opened Int2023
  import opened NumberDiv

  // The integer cores take every operand of % as a parameter of its own, so that the
  // caller's terms and the lemma's are the same terms.

  /** Sums of representatives modulo m are representatives of the sum. */
  lemma WrapSum(vx: int, vy: int, sx: int, sy: int, m: int, u: int, t: int, r: int)
    requires m > 0 && sx % m == vx && sy % m == vy
    requires u == vx + vy && t == sx + sy && r == u % m
    ensures r == t % m
  {
    var qx, qy := sx / m, sy / m;
    var k := qx + qy;
    assert t == u + k * m;
    ModShift(u, k, m);
  }

  lemma WrapDifference(vx: int, vy: int, sx: int, sy: int, m: int, u: int, t: int, r: int)
    requires m > 0 && sx % m == vx && sy % m == vy
    requires u == vx - vy && t == sx - sy && r == u % m
    ensures r == t % m
  {
    var qx, qy := sx / m, sy / m;
    var k := qx - qy;
    assert t == u + k * m;
    ModShift(u, k, m);
  }

  lemma WrapNegation(v: int, s: int, m: int, u: int, t: int)
    requires m > 0 && s % m == v && u == -v && t == -s
    ensures u % m == t % m
  {
    var q := s / m;
    assert t == u + (-q) * m;
    ModShift(u, -q, m);
  }

  lemma WrapProduct(vx: int, vy: int, sx: int, sy: int, m: int, u: int, t: int, r: int)
    requires m > 0 && sx % m == vx && sy % m == vy
    requires u == vx * vy && t == sx * sy && r == u % m
    ensures r == t % m
  {
    ModMul(sx, sy, m);
    ModMul(sy, vx, m);
    assert u == vy * vx;
    assert sy * vx == vx * sy;
  }

  lemma NegNeg(v: int, m: int, u: int, w: int, u': int, w': int)
    requires 0 <= v < m && u == -v && w == u % m && u' == -w && w' == u' % m
    ensures w' == v
  {
    if v == 0 {
      DivModUnique(u, m, 0, 0);
      DivModUnique(u', m, 0, 0);
    } else {
      DivModUnique(u, m, -1, m - v);
      DivModUnique(u', m, -1, v);
    }
  }

  lemma NegSum(v: int, m: int, u: int, w: int, z: int, s: int)
    requires m > 0 && u == -v && w == u % m && z == v + w && s == z % m
    ensures s == 0
  {
    ModAdd(u, v, m);
    assert u + v == 0;
  }

  lemma AddBack(vx: int, vy: int, vd: int, vs: int, m: int, u: int, z: int)
    requires 0 <= vx < m && u == vx - vy && vd == u % m && z == vd + vy && vs == z % m
    ensures vs == vx
  {
    ModAdd(u, vy, m);
    assert u + vy == vx;
    DivModUnique(vx, m, 0, vx);
  }

  /** Add's result, Value(x) + Value(y) mod 256^n, is the signed sum wrapped to the width,
      and the signed sum itself when that fits. */
  lemma {:induction false} SumSigned(x: seq<Byte>, y: seq<Byte>, r: seq<Byte>)
    requires |x| == |y| == |r| >= 1 && Value(r) == (Value(x) + Value(y)) % Pow(|x|)
    ensures Value(r) == (Signed(x) + Signed(y)) % Pow(|x|)
    ensures -(Half(|x|) as int) <= Signed(x) + Signed(y) < Half(|x|) ==> Signed(r) == Signed(x) + Signed(y)
  {
    SignedRange(x);
    SignedRange(y);
    WrapSum(Value(x), Value(y), Signed(x), Signed(y), Pow(|x|), Value(x) + Value(y), Signed(x) + Signed(y), Value(r));
    if -(Half(|x|) as int) <= Signed(x) + Signed(y) < Half(|x|) {
      SignedOf(r, Signed(x) + Signed(y));
    }
  }

  /** Sub's result is the signed difference wrapped to the width. */
  lemma {:induction false} DifferenceSigned(x: seq<Byte>, y: seq<Byte>, r: seq<Byte>)
    requires |x| == |y| == |r| >= 1 && Value(r) == (Value(x) - Value(y)) % Pow(|x|)
    ensures Value(r) == (Signed(x) - Signed(y)) % Pow(|x|)
    ensures -(Half(|x|) as int) <= Signed(x) - Signed(y) < Half(|x|) ==> Signed(r) == Signed(x) - Signed(y)
  {
    SignedRange(x);
    SignedRange(y);
    WrapDifference(Value(x), Value(y), Signed(x), Signed(y), Pow(|x|), Value(x) - Value(y), Signed(x) - Signed(y), Value(r));
    if -(Half(|x|) as int) <= Signed(x) - Signed(y) < Half(|x|) {
      SignedOf(r, Signed(x) - Signed(y));
    }
  }

  /** Negate's result is the signed negation wrapped to the width; it is exact for every
      value but the most negative one, which it leaves as it is. */
  lemma {:induction false} NegationSigned(x: seq<Byte>, r: seq<Byte>)
    requires |x| == |r| >= 1 && Value(r) == (-(Value(x) as int)) % Pow(|x|)
    ensures Value(r) == (-Signed(x)) % Pow(|x|)
    ensures Signed(x) != -(Half(|x|) as int) ==> Signed(r) == -Signed(x)
    ensures Signed(x) == -(Half(|x|) as int) ==> r == x
  {
    SignedRange(x);
    WrapNegation(Value(x), Signed(x), Pow(|x|), -(Value(x) as int), -Signed(x));
    if Signed(x) != -(Half(|x|) as int) {
      SignedOf(r, -Signed(x));
    } else {
      HalfPow(|x|);
      assert Value(x) == Half(|x|);
      DivModUnique(-(Value(x) as int), Pow(|x|), -1, Value(x));
      ValueInjective(r, x);
    }
  }

  /** Mul's result is the signed product wrapped to the width. */
  lemma {:induction false} ProductSigned(x: seq<Byte>, y: seq<Byte>, r: seq<Byte>)
    requires |x| == |y| == |r| >= 1 && Value(r) == (Value(x) * Value(y)) % Pow(|x|)
    ensures Value(r) == (Signed(x) * Signed(y)) % Pow(|x|)
    ensures -(Half(|x|) as int) <= Signed(x) * Signed(y) < Half(|x|) ==> Signed(r) == Signed(x) * Signed(y)
  {
    SignedRange(x);
    SignedRange(y);
    WrapProduct(Value(x), Value(y), Signed(x), Signed(y), Pow(|x|), Value(x) * Value(y), Signed(x) * Signed(y), Value(r));
    if -(Half(|x|) as int) <= Signed(x) * Signed(y) < Half(|x|) {
      SignedOf(r, Signed(x) * Signed(y));
    }
  }

  /** -(-x) == x: negating twice gives back the bytes one started from. */
  lemma {:induction false} NegateTwice(x: seq<Byte>, r: seq<Byte>, r': seq<Byte>)
    requires |x| == |r| == |r'| && Value(r) == (-(Value(x) as int)) % Pow(|x|)
    requires Value(r') == (-(Value(r) as int)) % Pow(|x|)
    ensures r' == x
  {
    ValueBound(x);
    NegNeg(Value(x), Pow(|x|), -(Value(x) as int), Value(r), -(Value(r) as int), Value(r'));
    ValueInjective(r', x);
  }

  /** x + (-x) == 0 at every width. */
  lemma {:induction false} AddNegation(x: seq<Byte>, r: seq<Byte>, s: seq<Byte>)
    requires |x| == |r| == |s| && Value(r) == (-(Value(x) as int)) % Pow(|x|)
    requires Value(s) == (Value(x) + Value(r)) % Pow(|x|)
    ensures s == Zeros(|s|)
  {
    NegSum(Value(x), Pow(|x|), -(Value(x) as int), Value(r), Value(x) + Value(r), Value(s));
    ValueZeros(|s|);
    ValueInjective(s, Zeros(|s|));
  }

  /** (x - y) + y == x: adding back what Sub took away restores x. */
  lemma {:induction false} SubThenAdd(x: seq<Byte>, y: seq<Byte>, d: seq<Byte>, s: seq<Byte>)
    requires |x| == |y| == |d| == |s| && Value(d) == (Value(x) - Value(y)) % Pow(|x|)
    requires Value(s) == (Value(d) + Value(y)) % Pow(|x|)
    ensures s == x
  {
    ValueBound(x);
    AddBack(Value(x), Value(y), Value(d), Value(s), Pow(|x|), Value(x) - Value(y), Value(d) + Value(y));
    ValueInjective(s, x);
  }

  /** The magnitude of a product is the product of the magnitudes, and its sign is
      negative exactly when the signs of two nonzero factors differ. */
  lemma MagnitudeProduct(a: int, b: int, p: int)
    requires b != 0 && p == a * b
    ensures Magnitude(p) == Magnitude(a) * Magnitude(b)
    ensures a != 0 ==> (p < 0 <==> (a < 0) != (b < 0))
  {
    SignedProduct(a, b, Magnitude(a), Magnitude(b), a < 0, b < 0);
    if a != 0 {
      MulAtLeast(Magnitude(a), Magnitude(b));
    }
  }

  /** C++ division undoes an exact multiplication. */
  lemma ProductQuotient(a: int, b: int)
    requires b != 0
    ensures TruncDiv(a * b, b) == a
  {
    var ma, mb := Magnitude(a), Magnitude(b);
    MagnitudeProduct(a, b, a * b);
    DivModUnique(ma * mb, mb, ma, 0);
  }

  /** (x * y) / y == x when the signed product fits the width and y is not zero: Div
      undoes Mul. */
  lemma {:induction false} MulThenDiv(x: seq<Byte>, y: seq<Byte>, p: seq<Byte>, q: seq<Byte>)
    requires |x| == |y| == |p| == |q| >= 1 && Signed(y) != 0
    requires -(Half(|x|) as int) <= Signed(x) * Signed(y) < Half(|x|)
    requires Value(p) == (Value(x) * Value(y)) % Pow(|x|)
    requires Value(q) == TruncDiv(Signed(p), Signed(y)) % Pow(|x|)
    ensures q == x
  {
    ProductSigned(x, y, p);
    ProductQuotient(Signed(x), Signed(y));
    SignedRange(x);
    ValueInjective(q, x);
  }
}
