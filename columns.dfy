/** The column steps of the carry loops in number.cpp (+=, += uint8, *= uint8,
    sum_with_shift) and the facts that close those loops. A loop walks from the last
    byte towards the first; after column i the bytes from i on, together with the carry
    out weighted by 256^(n-i), account for the same columns of the operands. */
module Columns {
  import opened Int2023

  lemma ColumnArith(sum: int, c: int, d: int, e: int, p: int)
    requires sum == c + d + e
    ensures (sum % 256) * p + (sum / 256) * (256 * p) == c * p + d * p + e * p
  {
    var q, r := sum / 256, sum % 256;
    assert sum == q * 256 + r;
    assert (q * 256 + r) * p == r * p + q * (256 * p);
  }

  /** Column i of an addition: byte s[i] (equal to x[i]) plus the addend d and the carry
      in c is written back as sum % 256 and carried out as sum / 256; t is what the
      other operand contributes to the columns after i. */
  lemma {:induction false} Column(s: seq<Byte>, s': seq<Byte>, x: seq<Byte>, i: int, c: int, d: int, sum: int, t: int)
    requires |s| == |x| && 0 <= i < |s|
    requires s[..i + 1] == x[..i + 1]
    requires sum == c + s[i] + d && s' == s[i := sum % 256]
    requires Value(s[i + 1..]) + c * Pow(|s| - 1 - i) == Value(x[i + 1..]) + t
    ensures s'[..i] == x[..i]
    ensures Value(s'[i..]) + (sum / 256) * Pow(|s| - i) == Value(x[i..]) + t + d * Pow(|s| - 1 - i)
  {
    assert s'[..i] == s[..i + 1][..i];
    assert s'[i + 1..] == s[i + 1..];
    assert x[i] == s[..i + 1][i];
    var p := Pow(|s| - 1 - i);
    ValueUnfold(s', i);
    ValueUnfold(x, i);
    assert Pow(|s| - i) == 256 * p;
    ColumnArith(sum, c, x[i], d, p);
  }

  /** The loop state of += uint8 after the columns i + 1 .. n - 1: those bytes and the
      carry still to add, c, make up the same columns of the original plus b. */
  predicate Carried(s: seq<Byte>, x: seq<Byte>, i: int, c: int, b: int)
    requires |s| == |x| && -1 <= i < |s|
  {
    Value(s[i + 1..]) + c * Pow(|s| - 1 - i) == Value(x[i + 1..]) + b
  }

  /** Column h of += uint8, from the loop's state before the column (index h, carry in c)
      to its state after it (index i == h - 1, carry out c'). */
  lemma {:induction false} ByteColumn(s: seq<Byte>, s': seq<Byte>, x: seq<Byte>, h: int, i: int, c: int, sum: int, c': int, b: int)
    requires |s| == |x| && 0 <= h < |s| && i == h - 1
    requires s[..h + 1] == x[..h + 1]
    requires sum == c + s[h] && s' == s[h := sum % 256] && c' == sum / 256
    requires Carried(s, x, h, c, b)
    ensures s'[..i + 1] == x[..i + 1]
    ensures Carried(s', x, i, c', b)
  {
    Column(s, s', x, h, c, 0, sum, b);
  }

  /** Column i of lhs += rhs: the addend is rhs[i]. */
  lemma {:induction false} AddColumn(s: seq<Byte>, s': seq<Byte>, x: seq<Byte>, y: seq<Byte>, i: int, c: int, sum: int)
    requires |s| == |x| == |y| && 0 <= i < |s|
    requires s[..i + 1] == x[..i + 1]
    requires sum == c + s[i] + y[i] && s' == s[i := sum % 256]
    requires Value(s[i + 1..]) + c * Pow(|s| - 1 - i) == Value(x[i + 1..]) + Value(y[i + 1..])
    ensures s'[..i] == x[..i]
    ensures Value(s'[i..]) + (sum / 256) * Pow(|s| - i) == Value(x[i..]) + Value(y[i..])
  {
    Column(s, s', x, i, c, y[i], sum, Value(y[i + 1..]));
    ValueUnfold(y, i);
  }

  lemma MulColumnArith(sum: int, c: int, b: int, d: int, p: int, w: int, vx: int)
    requires sum == c + b * d && vx == d * p + w
    ensures (sum % 256) * p + (sum / 256) * (256 * p) + w * b == c * p + vx * b
  {
    var q, r := sum / 256, sum % 256;
    assert sum == q * 256 + r;
    assert (q * 256 + r) * p == r * p + q * (256 * p);
    assert vx * b == (d * p) * b + w * b;
    assert (b * d) * p == (d * p) * b;
  }

  /** Column i of lhs *= b: the byte times b plus the carry in. */
  lemma {:induction false} MulColumn(s: seq<Byte>, s': seq<Byte>, x: seq<Byte>, i: int, c: int, b: Byte, sum: int)
    requires |s| == |x| && 0 <= i < |s|
    requires s[..i + 1] == x[..i + 1]
    requires sum == c + b * s[i] && s' == s[i := sum % 256]
    requires Value(s[i + 1..]) + c * Pow(|s| - 1 - i) == Value(x[i + 1..]) * b
    ensures s'[..i] == x[..i]
    ensures Value(s'[i..]) + (sum / 256) * Pow(|s| - i) == Value(x[i..]) * b
  {
    assert s'[..i] == s[..i + 1][..i];
    assert s'[i + 1..] == s[i + 1..];
    assert x[i] == s[..i + 1][i];
    var p := Pow(|s| - 1 - i);
    ValueUnfold(s', i);
    ValueUnfold(x, i);
    assert Pow(|s| - i) == 256 * p;
    MulColumnArith(sum, c, b, x[i], p, Value(x[i + 1..]), Value(x[i..]));
  }

  /** The column sum of *= stays below 2^16, so its carry stays below 256. */
  lemma ProductCarry(c: int, b: Byte, d: Byte, sum: int)
    requires 0 <= c <= 255 && sum == c + b * d
    ensures 0 <= sum / 256 <= 255
  {
    MulMono(b, 255, d);
    MulMono(d, 255, 255);
    MulMono(0, b, d);
  }

  /** The end of +=: all columns done, the carry out is dropped. */
  lemma {:induction false} CloseSum(s: seq<Byte>, x: seq<Byte>, y: seq<Byte>, c: int)
    requires Value(s[0..]) + c * Pow(|s|) == Value(x[0..]) + Value(y[0..])
    ensures Value(s) == (Value(x) + Value(y)) % Pow(|s|)
  {
    assert s[0..] == s && x[0..] == x && y[0..] == y;
    Settle(s, Value(x) + Value(y), c, Pow(|s|));
  }

  /** The end of += uint8. */
  lemma {:induction false} CloseByte(s: seq<Byte>, x: seq<Byte>, n: int, i: int, b: int, c: int)
    requires |s| == |x| == n && i == -1 && Carried(s, x, i, c, b)
    ensures Value(s) == (Value(x) + b) % Pow(n)
  {
    assert s[0..] == s && x[0..] == x;
    Settle(s, Value(x) + b, c, Pow(|s|));
  }

  /** The end of *= uint8. */
  lemma {:induction false} CloseProduct(s: seq<Byte>, x: seq<Byte>, b: int, c: int)
    requires Value(s[0..]) + c * Pow(|s|) == Value(x[0..]) * b
    ensures Value(s) == (Value(x) * b) % Pow(|s|)
  {
    assert s[0..] == s && x[0..] == x;
    Settle(s, Value(x) * b, c, Pow(|s|));
  }

  /** The early return of += uint8: no carry left after column i, so the bytes before i
      keep their values. */
  lemma {:induction false} CloseEarly(s: seq<Byte>, x: seq<Byte>, n: int, i: int, b: int, c: int)
    requires |s| == |x| == n && -1 <= i < |s| && s[..i + 1] == x[..i + 1]
    requires c == 0 && Carried(s, x, i, c, b)
    ensures Value(s) == (Value(x) + b) % Pow(n)
  {
    assert Value(s[i + 1..]) == Value(x[i + 1..]) + b;
    Rejoin(s, x, i + 1, b);
    var m := Pow(|s|);
    assert Value(s) + 0 * m == Value(x) + b;
    Settle(s, Value(x) + b, 0, m);
  }


  /** Bytes before i untouched and the columns from i on raised by t: the whole string is
      raised by t. */
  lemma {:induction false} Rejoin(s: seq<Byte>, x: seq<Byte>, i: int, t: int)
    requires |s| == |x| && 0 <= i <= |s| && s[..i] == x[..i]
    requires Value(s[i..]) == Value(x[i..]) + t
    ensures Value(s) == Value(x) + t
  {
    ValueSplit(s, i);
    ValueSplit(x, i);
  }

  /** Column i of sum_with_shift: lhs[i] meets rhs[i + shift]. Only the first k == n - shift
      bytes of lhs take part; the last shift bytes stay as they are. */
  lemma {:induction false} ShiftColumn(s: seq<Byte>, s': seq<Byte>, x: seq<Byte>, y: seq<Byte>, shift: nat, k: int,
                    h: int, i: int, c: int, sum: int, c': int)
    requires |s| == |x| == |y| && k == |s| - shift && 0 <= h < k && i == h - 1
    requires s[..h + 1] == x[..h + 1] && s[k..] == x[k..]
    requires sum == c + s[h] + y[h + shift] && s' == s[h := sum % 256] && c' == sum / 256
    requires Value(s[h + 1..k]) + c * Pow(k - 1 - h) == Value(x[h + 1..k]) + Value(y[h + 1 + shift..])
    ensures s'[..i + 1] == x[..i + 1] && s'[k..] == x[k..]
    ensures Value(s'[i + 1..k]) + c' * Pow(k - 1 - i) == Value(x[i + 1..k]) + Value(y[i + 1 + shift..])
  {
    var w, w', v, u := s[..k], s'[..k], x[..k], y[shift..];
    assert w' == w[h := sum % 256];
    assert w[..h + 1] == s[..h + 1] && v[..h + 1] == x[..h + 1];
    assert w[h + 1..] == s[h + 1..k] && v[h + 1..] == x[h + 1..k] && u[h + 1..] == y[h + 1 + shift..];
    assert w[h] == s[h] && u[h] == y[h + shift];
    AddColumn(w, w', v, u, h, c, sum);
    assert w'[h..] == s'[i + 1..k] && v[h..] == x[i + 1..k] && u[h..] == y[i + 1 + shift..];
    assert s'[..i + 1] == w'[..h] && x[..i + 1] == v[..h];
  }



  lemma SumArith(s1: int, s2: int, x1: int, y1: int, y2: int, c: int, pk: int, ps: int, pn: int,
                 vs: int, vx: int, vy: int, q: int, v: int)
    requires s1 + c * pk == x1 + y2 && pn == pk * ps
    requires vs == s1 * ps + s2 && vx == x1 * ps + s2 && vy == y1 * pk + y2
    requires q == c + y1 && v == vx + vy * ps
    ensures vs + q * pn == v
  {
    assert (c + y1) * pn == c * pk * ps + y1 * pk * ps;
    assert vy * ps == y1 * pk * ps + y2 * ps;
    assert (s1 + c * pk) * ps == s1 * ps + c * pk * ps;
    assert (x1 + y2) * ps == x1 * ps + y2 * ps;
  }

  /** The end of sum_with_shift: the first n - shift bytes hold the sum of lhs's first
      n - shift bytes and rhs's last n - shift bytes, less a carry out; the last shift
      bytes are lhs's own. That is lhs + rhs * 256^shift modulo 256^n. */
  lemma {:induction false} ShiftedSum(s: seq<Byte>, x: seq<Byte>, y: seq<Byte>, shift: nat, c: int)
    requires |s| == |x| == |y| && shift < |s|
    requires s[|s| - shift..] == x[|s| - shift..]
    requires Value(s[..|s| - shift]) + c * Pow(|s| - shift) == Value(x[..|s| - shift]) + Value(y[shift..])
    ensures Value(s) == (Value(x) + Value(y) * Pow(shift)) % Pow(|s|)
  {
    var n, k := |s|, |s| - shift;
    var pk, ps, pn := Pow(k), Pow(shift), Pow(n);
    ValueSplit(s, k);
    ValueSplit(x, k);
    ValueSplit(y, shift);
    assert Pow(n - k) == ps && Pow(n - shift) == pk;
    PowAdd(k, shift);
    assert k + shift == n;
    var q, v := c + Value(y[..shift]), Value(x) + Value(y) * ps;
    SumArith(Value(s[..k]), Value(s[k..]), Value(x[..k]), Value(y[..shift]), Value(y[shift..]), c,
             pk, ps, pn, Value(s), Value(x), Value(y), q, v);
    Settle(s, v, q, pn);
  }


  /** The end of the loop of sum_with_shift, in the loop's own terms. */
  lemma {:induction false} ShiftClose(s: seq<Byte>, x: seq<Byte>, y: seq<Byte>, shift: nat, k: int, i: int, c: int)
    requires |s| == |x| == |y| && k == |s| - shift && 0 < k && i == -1
    requires s[k..] == x[k..]
    requires Value(s[i + 1..k]) + c * Pow(k - 1 - i) == Value(x[i + 1..k]) + Value(y[i + 1 + shift..])
    ensures Value(s) == (Value(x) + Value(y) * Pow(shift)) % Pow(|s|)
  {
    assert s[i + 1..k] == s[..k] && x[i + 1..k] == x[..k];
    ShiftedSum(s, x, y, shift, c);
  }

  /** A shift of at least the width adds a multiple of 256^n: nothing changes. */
  lemma {:induction false} ShiftedOut(x: seq<Byte>, y: seq<Byte>, shift: nat)
    requires |x| == |y| && shift >= |x|
    ensures Value(x) == (Value(x) + Value(y) * Pow(shift)) % Pow(|x|)
  {
    var n := |x|;
    var pd, pn, ps := Pow(shift - n), Pow(n), Pow(shift);
    PowAdd(shift - n, n);
    assert shift - n + n == shift;
    assert ps == pd * pn;
    MulAssoc(Value(y), pd, pn);
    Settle(x, Value(x) + Value(y) * ps, Value(y) * pd, pn);
  }


  /** The byte-wise complement ~b of uint8_t b, truncated back to uint8_t, is 255 - b. */
  function Complement(s: seq<Byte>): (r: seq<Byte>)
    ensures |r| == |s|
  {
    seq(|s|, k requires 0 <= k < |s| => 255 - s[k])
  }

  /** A string and its complement add up to 256^n - 1. */
  lemma {:induction false} ComplementValue(s: seq<Byte>)
    ensures Value(Complement(s)) + Value(s) + 1 == Pow(|s|)
  {
    if |s| > 0 {
      var n := |s| - 1;
      assert Complement(s)[..n] == Complement(s[..n]);
      ComplementValue(s[..n]);
    }
  }

  lemma ShiftArith(hi: int, lo: int, pk: int, ps: int, pn: int, v: int)
    requires pn == pk * ps && v == hi * pk + lo && 0 <= lo < pk && ps >= 1 && hi >= 0
    ensures (v * ps) % pn == lo * ps
  {
    assert v * ps == hi * pn + lo * ps by {
      assert v * ps == (hi * pk) * ps + lo * ps;
      MulAssoc(hi, pk, ps);
    }
    MulMono(lo, pk - 1, ps);
    MulMono(0, lo, ps);
    DivModUnique(v * ps, pn, hi, lo * ps);
  }

  /** The digits of v moved shift places to the front, zeros filling in: v * 256^shift
      modulo 256^n. */
  lemma {:induction false} ShiftedValue(v: seq<Byte>, shift: nat)
    requires shift <= |v|
    ensures Value(v[shift..] + Zeros(shift)) == (Value(v) * Pow(shift)) % Pow(|v|)
  {
    var n := |v|;
    ValueAppend(v[shift..], Zeros(shift));
    ValueZeros(shift);
    ValueSplit(v, shift);
    PowAdd(n - shift, shift);
    ValueBound(v[shift..]);
    ShiftArith(Value(v[..shift]), Value(v[shift..]), Pow(n - shift), Pow(shift), Pow(n), Value(v));
  }
}
