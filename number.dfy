/** The operations of number.cpp. An int2023_t that an operation updates in place is an
    array of bytes; one it takes by value or by const reference is a sequence of bytes.
    An operation returning an int2023_t by value works on a copy of its argument, as the
    source does, and returns the copy's bytes. */
module Number {
  import opened Int2023
  import opened Columns

  /** int2023_t() (number.cpp:6-8): every byte zero; n = Size for int2023_t itself. */
  method Zero(n: nat) returns (a: array<Byte>)
    ensures fresh(a) && a.Length == n && a[..] == Zeros(n)
  {
    a := new Byte[n](_ => 0);
  }

  /** The copy made when an int2023_t is passed or returned by value. */
  method Copy(x: seq<Byte>) returns (a: array<Byte>)
    ensures fresh(a) && a[..] == x
  {
    a := new Byte[|x|](k => if 0 <= k < |x| then x[k] else 0);
  }

  /** lhs += rhs (number.cpp:51-60): byte-wise addition from the last byte towards
      data[0] with the final carry dropped, so lhs becomes (lhs + rhs) mod 256^n. */
  method AddInPlace(a: array<Byte>, r: seq<Byte>)
    requires a.Length == |r|
    modifies a
    ensures Value(a[..]) == (Value(old(a[..])) + Value(r)) % Pow(a.Length)
  {
    ghost var o := a[..];
    var carry := 0;
    var i := a.Length - 1;
    while i >= 0
      invariant -1 <= i < a.Length
      invariant a[..i + 1] == o[..i + 1]
      invariant 0 <= carry <= 1
      invariant Value(a[i + 1..]) + carry * Pow(a.Length - 1 - i) == Value(o[i + 1..]) + Value(r[i + 1..])
    {
      ghost var before := a[..];
      var sum := carry + a[i] + r[i];
      a[i] := sum % 256;
      AddColumn(before, a[..], o, r, i, carry, sum);
      carry := sum / 256;
      i := i - 1;
    }
    CloseSum(a[..], old(a[..]), r, carry);
  }

  /** lhs + rhs (number.cpp:46-49). */
  method Add(x: seq<Byte>, y: seq<Byte>) returns (r: seq<Byte>)
    requires |x| == |y|
    ensures |r| == |x| && Value(r) == (Value(x) + Value(y)) % Pow(|x|)
  {
    var a := Copy(x);
    AddInPlace(a, y);
    r := a[..];
  }

  /** lhs += b for a byte b (number.cpp:67-81): b enters the last column only, and the
      loop stops as soon as a column leaves no carry. */
  method AddByteInPlace(a: array<Byte>, b: Byte)
    modifies a
    ensures Value(a[..]) == (Value(old(a[..])) + b) % Pow(a.Length)
  {
    ghost var o := a[..];
    var carry: int := 0;
    var rhs: int := b;
    var i := a.Length - 1;
    while i >= 0
      invariant -1 <= i < a.Length
      invariant a[..][..i + 1] == o[..i + 1]
      invariant 0 <= carry + rhs <= 255 && 0 <= carry && 0 <= rhs
      invariant Carried(a[..], o, i, carry + rhs, b)
    {
      ghost var before, h, c := a[..], i, carry + rhs;
      var sum := carry + a[i] + rhs;
      a[i] := sum % 256;
      carry := sum / 256;
      rhs := 0;
      ByteColumn(before, a[..], o, h, h - 1, c, sum, carry + rhs, b);
      if carry == 0 {
        CloseEarly(a[..], o, a.Length, h - 1, b, carry + rhs);
        return;
      }
      i := i - 1;
    }
    CloseByte(a[..], o, a.Length, i, b, carry + rhs);
  }

  /** lhs + b for a byte b (number.cpp:62-65). */
  method AddByte(x: seq<Byte>, b: Byte) returns (r: seq<Byte>)
    ensures |r| == |x| && Value(r) == (Value(x) + b) % Pow(|x|)
  {
    var a := Copy(x);
    AddByteInPlace(a, b);
    r := a[..];
  }

  /** ++x (number.cpp:83-85). */
  method Increment(a: array<Byte>)
    modifies a
    ensures Value(a[..]) == (Value(old(a[..])) + 1) % Pow(a.Length)
  {
    AddByteInPlace(a, 1);
  }

  /** -x (number.cpp:91-98): every byte complemented, then one added: two's-complement
      negation modulo 256^n. */
  method Negate(x: seq<Byte>) returns (r: seq<Byte>)
    ensures |r| == |x| && Value(r) == (-(Value(x) as int)) % Pow(|x|)
  {
    var a := Copy(x);
    var i := 0;
    while i < a.Length
      invariant 0 <= i <= a.Length
      invariant forall k | 0 <= k < i :: a[k] == 255 - x[k]
      invariant forall k | i <= k < a.Length :: a[k] == x[k]
    {
      a[i] := 255 - a[i];
      i := i + 1;
    }
    assert a[..] == Complement(x);
    ComplementValue(x);
    Increment(a);
    r := a[..];
    ModShift(-(Value(x) as int), 1, Pow(|x|));
  }

  /** lhs - rhs (number.cpp:87-89): lhs + (-rhs). */
  method Sub(x: seq<Byte>, y: seq<Byte>) returns (r: seq<Byte>)
    requires |x| == |y|
    ensures |r| == |x| && Value(r) == (Value(x) - Value(y)) % Pow(|x|)
  {
    var ny := Negate(y);
    r := Add(x, ny);
    ModAdd(-(Value(y) as int), Value(x), Pow(|x|));
  }

  /** shift_digits_to_left(v, shift) (number.cpp:100-110): every byte moved shift places
      towards data[0] and zeros shifted in, so v * 256^shift modulo 256^n. A shift above
      the width would make the source's unsigned loop bound wrap. */
  method ShiftDigitsToLeft(v: seq<Byte>, shift: nat) returns (r: seq<Byte>)
    requires shift <= |v|
    ensures |r| == |v| && Value(r) == (Value(v) * Pow(shift)) % Pow(|v|)
  {
    var a := Copy(v);
    var n := a.Length;
    var t := 0;
    while t < n - shift
      invariant 0 <= t <= n - shift
      invariant forall k | 0 <= k < t :: a[k] == v[k + shift]
      invariant forall k | t <= k < n :: a[k] == v[k]
    {
      a[t] := a[t + shift];
      t := t + 1;
    }
    while t < n
      invariant n - shift <= t <= n
      invariant forall k | 0 <= k < n - shift :: a[k] == v[k + shift]
      invariant forall k | n - shift <= k < t :: a[k] == 0
    {
      a[t] := 0;
      t := t + 1;
    }
    assert a[..] == v[shift..] + Zeros(shift);
    ShiftedValue(v, shift);
    r := a[..];
  }

  /** lhs *= b for a byte b (number.cpp:127-136): the carry stays below 256 and the
      column sum below 2^16, so the uint32_t arithmetic never wraps. */
  method MulByteInPlace(a: array<Byte>, b: Byte)
    modifies a
    ensures Value(a[..]) == (Value(old(a[..])) * b) % Pow(a.Length)
  {
    ghost var o := a[..];
    var carry := 0;
    var i := a.Length - 1;
    while i >= 0
      invariant -1 <= i < a.Length
      invariant a[..i + 1] == o[..i + 1]
      invariant 0 <= carry <= 255
      invariant Value(a[i + 1..]) + carry * Pow(a.Length - 1 - i) == Value(o[i + 1..]) * b
    {
      ghost var before := a[..];
      var sum := carry + b * a[i];
      ProductCarry(carry, b, a[i], sum);
      a[i] := sum % 256;
      MulColumn(before, a[..], o, i, carry, b, sum);
      carry := sum / 256;
      i := i - 1;
    }
    CloseProduct(a[..], old(a[..]), b, carry);
  }

  /** lhs * b for a byte b (number.cpp:122-125). */
  method MulByte(x: seq<Byte>, b: Byte) returns (r: seq<Byte>)
    ensures |r| == |x| && Value(r) == (Value(x) * b) % Pow(|x|)
  {
    var a := Copy(x);
    MulByteInPlace(a, b);
    r := a[..];
  }

  /** One round of lhs * rhs: adding the partial product of column d, shifted w places,
      to the product by the later columns t gives the product by v == d * w + t. */
  lemma ProductStep(u: int, d: int, w: int, t: int, v: int, m: int, prev: int, p: int, q: int, next: int)
    requires m > 0 && prev == (u * t) % m && p == (u * d) % m && q == (p * w) % m
    requires next == (prev + q) % m && v == d * w + t
    ensures next == (u * v) % m
  {
    ModMul(u * d, w, m);
    ModAdd(u * t, q, m);
    ModAdd((u * d) * w, u * t, m);
    assert (u * d) * w + u * t == u * (d * w + t);
  }

  /** lhs * rhs (number.cpp:112-120): the sum over the bytes of rhs of lhs times the byte,
      shifted by the byte's place; lhs * rhs modulo 256^n. */
  method Mul(x: seq<Byte>, y: seq<Byte>) returns (r: seq<Byte>)
    requires |x| == |y|
    ensures |r| == |x| && Value(r) == (Value(x) * Value(y)) % Pow(|x|)
  {
    var n := |x|;
    var result := Zero(n);
    ValueZeros(n);
    var i := n - 1;
    assert y[i + 1..] == [];
    Settle(result[..], Value(x) * Value(y[i + 1..]), 0, Pow(n));
    while i >= 0
      invariant -1 <= i < n && result.Length == n
      invariant Value(result[..]) == (Value(x) * Value(y[i + 1..])) % Pow(n)
    {
      var shift := n - 1 - i;
      var p := MulByte(x, y[i]);
      var q := ShiftDigitsToLeft(p, shift);
      ghost var prev := Value(result[..]);
      AddInPlace(result, q);
      ValueUnfold(y, i);
      assert Pow(shift) == Pow(|y| - 1 - i);
      ProductStep(Value(x), y[i], Pow(shift), Value(y[i + 1..]), Value(y[i..]), Pow(n), prev, Value(p), Value(q), Value(result[..]));
      i := i - 1;
    }
    assert y[0..] == y;
    r := result[..];
  }

  /** sum_with_shift(lhs, rhs, shift) (number.cpp:138-146): rhs * 256^shift added into
      lhs. Only the first n - shift bytes of lhs take part, against the last n - shift
      bytes of rhs, so lhs becomes lhs + rhs * 256^shift modulo 256^n; a shift of the
      width or more leaves lhs as it is. The shift must fit the source's cast to int. */
  method SumWithShift(a: array<Byte>, r: seq<Byte>, shift: nat)
    requires a.Length == |r| && shift < 0x8000_0000
    modifies a
    ensures Value(a[..]) == (Value(old(a[..])) + Value(r) * Pow(shift)) % Pow(a.Length)
  {
    if shift < a.Length {
      ShiftLoop(a, r, shift);
    } else {
      // the loop would start at a negative index and do nothing
      ShiftedOut(a[..], r, shift);
    }
  }

  /** The loop of sum_with_shift for a shift below the width. */
  method ShiftLoop(a: array<Byte>, r: seq<Byte>, shift: nat)
    requires a.Length == |r| && shift < a.Length
    modifies a
    ensures Value(a[..]) == (Value(old(a[..])) + Value(r) * Pow(shift)) % Pow(a.Length)
  {
    ghost var o := a[..];
    ghost var k := a.Length - shift;
    var carry := 0;
    var i := a.Length - shift - 1;
    while i >= 0
      invariant -1 <= i < k
      invariant a[..][..i + 1] == o[..i + 1] && a[..][k..] == o[k..]
      invariant 0 <= carry <= 1
      invariant Value(a[..][i + 1..k]) + carry * Pow(k - 1 - i) == Value(o[i + 1..k]) + Value(r[i + 1 + shift..])
    {
      ghost var before, h, c := a[..], i, carry;
      var sum := carry + a[i] + r[i + shift];
      a[i] := sum % 256;
      carry := sum / 256;
      i := i - 1;
      ShiftColumn(before, a[..], o, r, shift, k, h, i, c, sum, carry);
    }
    ShiftClose(a[..], o, r, shift, k, i, carry);
  }

  /** get_ind_of_first_digit(value) (number.cpp:166-176): the index of the first nonzero
      byte, or the last index when every byte is zero. */
  method FirstDigit(v: seq<Byte>) returns (r: nat)
    requires |v| >= 1
    ensures r < |v| && (v[r] != 0 || r == |v| - 1)
    ensures forall k | 0 <= k < r :: v[k] == 0
  {
    var i := 0;
    while i < |v| && v[i] == 0
      invariant 0 <= i <= |v|
      invariant forall k | 0 <= k < i :: v[k] == 0
    {
      i := i + 1;
    }
    if i == |v| {
      i := i - 1;
    }
    r := i;
  }

  /** len(value) (number.cpp:148-150): the number of bytes from the first nonzero one on,
      at least 1: the unsigned value needs exactly that many base-256 digits. */
  method Len(v: seq<Byte>) returns (r: nat)
    requires |v| >= 1
    ensures 1 <= r <= |v| && Value(v) < Pow(r)
    ensures Value(v) == 0 <==> r == 1 && v[|v| - 1] == 0
    ensures Value(v) != 0 ==> Pow(r - 1) <= Value(v)
  {
    var first := FirstDigit(v);
    LeadingDigit(v, first);
    r := |v| - first;
  }

  /** is_negative(value) (number.cpp:152-155): bit 7 of data[0], the sign of the
      two's-complement reading. */
  function IsNegative(v: seq<Byte>): (r: bool)
    requires |v| >= 1
    ensures r <==> Signed(v) < 0
  {
    SignedRange(v);
    ((v[0] as bv8) >> 7) & 1 == 1
  }

  /** abs(value) (number.cpp:157-164): negative values negated, others as they are. The
      most negative value has no positive counterpart and stays as it is. */
  method Abs(v: seq<Byte>) returns (r: seq<Byte>)
    requires |v| >= 1
    ensures |r| == |v|
    ensures Value(r) == (if Signed(v) < 0 then -Signed(v) else Signed(v)) % Pow(|v|)
    ensures Signed(v) != -(Half(|v|) as int) ==> Signed(r) == (if Signed(v) < 0 then -Signed(v) else Signed(v))
  {
    SignedRange(v);
    var m := Pow(|v|);
    if IsNegative(v) {
      r := Negate(v);
      var a := -Signed(v);
      assert a == -(Value(v) as int) + 1 * m;
      ModShift(-(Value(v) as int), 1, m);
      assert Value(r) == a % m;
      if Signed(v) != -(Half(|v|) as int) {
        SignedOf(r, a);
      }
    } else {
      r := v;
    }
  }

  /** lhs == rhs (number.cpp:213-222): byte by byte, so the same bit pattern, and so
      the same value. */
  method Equal(x: seq<Byte>, y: seq<Byte>) returns (r: bool)
    requires |x| == |y|
    ensures r <==> x == y
    ensures r <==> Value(x) == Value(y)
  {
    ValueInjective(x, y);
    var i := 0;
    while i < |x|
      invariant 0 <= i <= |x|
      invariant x[..i] == y[..i]
    {
      if x[i] != y[i] {
        return false;
      }
      i := i + 1;
    }
    assert x == x[..i] && y == y[..i];
    return true;
  }

  /** lhs != rhs (number.cpp:224-226). */
  method NotEqual(x: seq<Byte>, y: seq<Byte>) returns (r: bool)
    requires |x| == |y|
    ensures r <==> x != y
    ensures r <==> Value(x) != Value(y)
  {
    var e := Equal(x, y);
    r := !e;
  }

  /** get_hex_digit(num) (number.cpp:228-235): the hexadecimal digit for 0..15, upper
      case. */
  function HexDigit(num: Byte): (r: char)
    ensures num < 16 ==> r == "0123456789ABCDEF"[num]
  {
    if num <= 9 then (num + 48) as char else ((num - 10 + 65) % 256) as char
  }
}
