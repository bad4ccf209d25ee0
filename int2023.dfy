/** The representation of int2023_t (number.h:6-11): kDataSize = 253 bytes of base
    kSystemBase = 256, most significant first. A string of n bytes is read as a number
    modulo 256^n (for int2023_t, 256^253 = 2^2024) and, by its top bit, as a
    two's-complement value.

    The loops of number.cpp depend on kDataSize only as the number of bytes they walk,
    so the operations are modelled for byte strings of any width n >= 1 and specified by
    the value their result holds modulo 256^n; a string is determined by its width and
    value (ValueInjective). int2023_t is the width Size. */
module Int2023 {

  /** uint8_t. */
  type Byte = x: int | 0 <= x < 256

  /** kDataSize (number.h:7). */
  const Size: nat := 253

  /** 256^k. */
  function Pow(k: nat): (r: nat)
    ensures r >= 1
  {
    if k == 0 then 1 else 256 * Pow(k - 1)
  }

  /** 128 * 256^(n-1): the string 0x80 00 ... 00 of width n, the least value with its top
      bit set (2^2023 for int2023_t). */
  function Half(n: nat): nat
    requires n >= 1
  {
    128 * Pow(n - 1)
  }

  /** The unsigned reading of a big-endian byte string: the last byte is the least
      significant digit. */
  function Value(s: seq<Byte>): nat {
    if |s| == 0 then 0 else Value(s[..|s| - 1]) * 256 + s[|s| - 1]
  }

  function Zeros(n: nat): (r: seq<Byte>)
    ensures |r| == n && forall k | 0 <= k < n :: r[k] == 0
  {
    seq(n, _ => 0)
  }

  /** The n low base-256 digits of v, most significant first: byte k is the digit of
      weight 256^(n-1-k). v may be negative: Dafny's / and % round towards minus
      infinity, which gives the two's-complement digits. */
  function Bytes(v: int, n: nat): (r: seq<Byte>)
    ensures |r| == n
  {
    seq(n, k requires 0 <= k < n => (v / Pow(n - 1 - k)) % 256)
  }

  /** The two's-complement reading: strings with the top bit set are negative. */
  function Signed(s: seq<Byte>): int
    requires |s| >= 1
  {
    if Value(s) >= Half(|s|) then Value(s) - Pow(|s|) else Value(s)
  }

  // ------------------------------------------------ arithmetic on plain integers

  lemma MulAtLeast(a: int, m: int)
    requires a >= 1 && m > 0
    ensures a * m >= m
  {
  }

  lemma MulMono(a: int, b: int, c: int)
    requires a <= b && c >= 0
    ensures a * c <= b * c
  {
  }

  lemma MulAssoc(a: int, b: int, c: int)
    ensures a * (b * c) == (a * b) * c
  {
  }

  /** A multiple of m strictly between -m and m is zero. */
  lemma MulSmall(k: int, m: int)
    requires m > 0 && -m < k * m < m
    ensures k == 0
  {
  }

  lemma DivModUnique(v: int, m: int, q: int, r: int)
    requires m > 0 && 0 <= r < m && v == q * m + r
    ensures v / m == q && v % m == r
  {
    var q0, r0 := v / m, v % m;
    assert v == q0 * m + r0;
    assert (q - q0) * m == r0 - r;
    MulSmall(q - q0, m);
  }

  /** Adding a multiple of m does not change the remainder. */
  lemma ModShift(v: int, k: int, m: int)
    requires m > 0
    ensures (v + k * m) % m == v % m
  {
    var q, r := v / m, v % m;
    assert v == q * m + r;
    assert v + k * m == (q + k) * m + r;
    DivModUnique(v + k * m, m, q + k, r);
  }

  lemma ModAdd(u: int, v: int, m: int)
    requires m > 0
    ensures (u % m + v) % m == (u + v) % m
  {
    var q := u / m;
    assert u == q * m + u % m;
    assert u % m + v == (u + v) + (-q) * m;
    ModShift(u + v, -q, m);
  }

  lemma ModMul(u: int, v: int, m: int)
    requires m > 0
    ensures ((u % m) * v) % m == (u * v) % m
  {
    var q, r := u / m, u % m;
    assert u == q * m + r;
    assert u * v == r * v + (q * v) * m by {
      assert u * v == (q * m + r) * v;
    }
    ModShift(r * v, q * v, m);
  }

  /** A digit d followed by a remainder w below p stays below 256 p. */
  lemma DigitBound(d: int, p: int, w: int)
    requires 0 <= d < 256 && 0 <= w < p
    ensures 0 <= d * p + w < 256 * p
    ensures d >= 128 <==> d * p + w >= 128 * p
  {
    MulMono(0, d, p);
    if d >= 128 {
      MulMono(128, d, p);
    } else {
      MulMono(d, 127, p);
    }
    MulMono(d, 255, p);
  }

  // ------------------------------------------------ powers of 256 and values

  lemma {:induction false} PowAdd(a: nat, b: nat)
    ensures Pow(a + b) == Pow(a) * Pow(b)
  {
    if a > 0 {
      PowAdd(a - 1, b);
      assert Pow(a + b) == 256 * Pow(a - 1 + b);
      MulAssoc(256, Pow(a - 1), Pow(b));
    }
  }

  lemma PowMono(a: nat, b: nat)
    requires a <= b
    ensures Pow(a) <= Pow(b)
  {
    PowAdd(a, b - a);
    MulAtLeast(Pow(b - a), Pow(a));
  }

  lemma {:induction false} ValueBound(s: seq<Byte>)
    ensures Value(s) < Pow(|s|)
  {
    if |s| > 0 {
      ValueBound(s[..|s| - 1]);
    }
  }

  lemma {:induction false} ValueZeros(n: nat)
    ensures Value(Zeros(n)) == 0
  {
    if n > 0 {
      assert Zeros(n)[..n - 1] == Zeros(n - 1);
      ValueZeros(n - 1);
    }
  }

  /** The last byte of a string is its value modulo 256. */
  lemma ValueLast(init: seq<Byte>, b: Byte)
    ensures Value(init + [b]) == Value(init) * 256 + b
  {
    assert (init + [b])[..|init|] == init;
  }

  lemma AppendArith(a: int, p: int, b: int, d: int)
    ensures (a * p + b) * 256 + d == a * (256 * p) + (b * 256 + d)
  {
  }

  lemma {:induction false} ValueAppend(x: seq<Byte>, y: seq<Byte>)
    ensures Value(x + y) == Value(x) * Pow(|y|) + Value(y)
  {
    if |y| == 0 {
      assert x + y == x;
    } else {
      var init, b := y[..|y| - 1], y[|y| - 1];
      assert y == init + [b];
      assert x + y == (x + init) + [b];
      ValueLast(x + init, b);
      ValueLast(init, b);
      ValueAppend(x, init);
      AppendArith(Value(x), Pow(|init|), Value(init), b);
    }
  }

  /** The first byte of a string weighs 256^(n-1). */
  lemma ValueFront(s: seq<Byte>)
    requires |s| > 0
    ensures Value(s) == s[0] * Pow(|s| - 1) + Value(s[1..])
  {
    assert s == [s[0]] + s[1..];
    ValueAppend([s[0]], s[1..]);
    assert Value([s[0]]) == s[0] by { ValueLast([], s[0]); assert [] + [s[0]] == [s[0]]; }
  }

  /** One digit off the front of a suffix. */
  lemma ValueUnfold(s: seq<Byte>, i: int)
    requires 0 <= i < |s|
    ensures Value(s[i..]) == s[i] * Pow(|s| - 1 - i) + Value(s[i + 1..])
  {
    ValueFront(s[i..]);
    assert s[i..][1..] == s[i + 1..];
  }

  /** A string read as its first k bytes followed by the rest. */
  lemma ValueSplit(s: seq<Byte>, k: int)
    requires 0 <= k <= |s|
    ensures Value(s) == Value(s[..k]) * Pow(|s| - k) + Value(s[k..])
  {
    var x, y := s[..k], s[k..];
    assert x + y == s;
    assert |y| == |s| - k;
    ValueAppend(x, y);
  }

  /** Integer division in two steps: by 256, then by p. */
  lemma DivNest(v: int, p: int)
    requires p > 0
    ensures (v / 256) / p == v / (256 * p)
  {
    var q, r := v / 256, v % 256;
    var qp, rp := q / p, q % p;
    assert v == q * 256 + r;
    assert q == qp * p + rp;
    assert q * 256 == qp * (256 * p) + rp * 256;
    assert 0 <= rp * 256 + r < 256 * p by { DigitBound(r, 256, 0); MulMono(rp, p - 1, 256); }
    DivModUnique(v, 256 * p, qp, rp * 256 + r);
  }

  /** The last of the n low digits is v mod 256; the others are the n - 1 low digits of v / 256. */
  lemma BytesUnfold(v: int, n: nat)
    requires n > 0
    ensures Bytes(v, n) == Bytes(v / 256, n - 1) + [v % 256]
  {
    var b, c := Bytes(v, n), Bytes(v / 256, n - 1) + [v % 256];
    forall k | 0 <= k < n
      ensures b[k] == c[k]
    {
      if k < n - 1 {
        var p := Pow(n - 2 - k);
        assert Pow(n - 1 - k) == 256 * p;
        DivNest(v, p);
        assert b[k] == (v / (256 * p)) % 256;
        assert c[k] == Bytes(v / 256, n - 1)[k] == ((v / 256) / p) % 256;
      }
    }
  }

  /** Reading a byte string and writing it back gives the same bytes. */
  lemma {:induction false} BytesOfValue(s: seq<Byte>)
    ensures Bytes(Value(s), |s|) == s
  {
    if |s| > 0 {
      var n := |s| - 1;
      var init := s[..n];
      assert s == init + [s[n]];
      DivModUnique(Value(s), 256, Value(init), s[n]);
      BytesUnfold(Value(s), |s|);
      BytesOfValue(init);
    }
  }

  /** Byte strings of one length are equal exactly when their values are. */
  lemma ValueInjective(s: seq<Byte>, t: seq<Byte>)
    requires |s| == |t|
    ensures s == t <==> Value(s) == Value(t)
  {
    if Value(s) == Value(t) {
      BytesOfValue(s);
      BytesOfValue(t);
    }
  }

  // ------------------------------------------------ fixed-width strings

  /** A string whose value and a multiple of 256^n make up v holds v modulo 256^n. */
  lemma Settle(x: seq<Byte>, v: int, k: int, m: nat)
    requires m == Pow(|x|) && Value(x) + k * m == v
    ensures Value(x) == v % m
  {
    ValueBound(x);
    DivModUnique(v, m, k, Value(x));
  }

  /** The top bit of the first byte is set exactly when the unsigned value is at least
      128 * 256^(n-1). */
  lemma TopByte(s: seq<Byte>)
    requires |s| >= 1
    ensures s[0] >= 128 <==> Value(s) >= Half(|s|)
  {
    ValueFront(s);
    ValueBound(s[1..]);
    DigitBound(s[0], Pow(|s| - 1), Value(s[1..]));
  }

  lemma HalfPow(n: nat)
    requires n >= 1
    ensures Pow(n) == 2 * Half(n)
  {
  }

  /** Every string reads as a value in [-Half, Half) congruent to its unsigned value;
      it is negative exactly when its top bit is set. */
  lemma SignedRange(s: seq<Byte>)
    requires |s| >= 1
    ensures -(Half(|s|) as int) <= Signed(s) < Half(|s|)
    ensures Signed(s) % Pow(|s|) == Value(s)
    ensures Signed(s) < 0 <==> s[0] >= 128
  {
    ValueBound(s);
    HalfPow(|s|);
    TopByte(s);
    if Value(s) >= Half(|s|) {
      DivModUnique(Signed(s), Pow(|s|), -1, Value(s));
    } else {
      DivModUnique(Signed(s), Pow(|s|), 0, Value(s));
    }
  }

  /** A value in [-Half, Half) is read back from the string holding it modulo 256^n. */
  lemma SignedOf(s: seq<Byte>, v: int)
    requires |s| >= 1 && -(Half(|s|) as int) <= v < Half(|s|) && Value(s) == v % Pow(|s|)
    ensures Signed(s) == v
  {
    HalfPow(|s|);
    if v < 0 {
      DivModUnique(v, Pow(|s|), -1, v + Pow(|s|));
    } else {
      DivModUnique(v, Pow(|s|), 0, v);
    }
  }

  /** Zero bytes in front of index r add nothing. */
  lemma ZeroPrefix(s: seq<Byte>, r: int)
    requires 0 <= r <= |s| && forall k | 0 <= k < r :: s[k] == 0
    ensures Value(s) == Value(s[r..])
  {
    assert s[..r] == Zeros(r);
    ValueZeros(r);
    var z, p := Value(s[..r]), Pow(|s| - r);
    assert z == 0;
    ValueSplit(s, r);
    assert Value(s) == z * p + Value(s[r..]);
    assert z * p == 0;
  }

  /** Past the zero bytes in front of index r, the bytes from r on are a number of
      |s| - r digits, at least 256^(|s|-r-1) when the digit at r is not zero. */
  lemma LeadingDigit(s: seq<Byte>, r: int)
    requires 0 <= r < |s| && forall k | 0 <= k < r :: s[k] == 0
    ensures Value(s) == Value(s[r..]) < Pow(|s| - r)
    ensures s[r] != 0 ==> Pow(|s| - r - 1) <= Value(s)
    ensures r == |s| - 1 && s[r] == 0 ==> Value(s) == 0
  {
    var t, m := s[r..], |s| - r;
    ZeroPrefix(s, r);
    ValueBound(t);
    assert |t| == m;
    ValueFront(t);
    if s[r] != 0 {
      MulAtLeast(t[0], Pow(|t| - 1));
    }
    if r == |s| - 1 {
      assert t[1..] == [];
    }
  }



}
