/** operator/ of number.cpp (lines 178-211): long division of the magnitudes in base 256,
    one quotient digit per position, each found by subtracting the shifted divisor until
    the remainder turns negative; then the digits are moved to the low end and the sign
    is applied. Modelled, like the rest of the arithmetic, for any width n. */
module NumberDiv {
  import opened Int2023
  import opened Number

  // ------------------------------------------------ the reference

  function Magnitude(a: int): nat {
    if a < 0 then -a else a
  }

  /** C++ integer division: the quotient of the magnitudes, negative when exactly one
      operand is. */
  function TruncDiv(a: int, b: int): int
    requires b != 0
  {
    var q := Magnitude(a) / Magnitude(b);
    if (a < 0) != (b < 0) then -q else q
  }

  /** TruncDiv is the division of the C++ standard: the remainder a - b * (a / b) is
      smaller than b in magnitude and never of the opposite sign to a. */
  lemma TruncDivRemainder(a: int, b: int)
    requires b != 0
    ensures Magnitude(a - b * TruncDiv(a, b)) < Magnitude(b)
    ensures a >= 0 ==> a - b * TruncDiv(a, b) >= 0
    ensures a <= 0 ==> a - b * TruncDiv(a, b) <= 0
  {
    var p: int, d: int := Magnitude(a), Magnitude(b);
    var q: int, w: int := p / d, p % d;
    DivIdentity(p, d, q, w);
    SignedProduct(b, TruncDiv(a, b), d, q, b < 0, (a < 0) != (b < 0));
  }

  /** The division identity for a nonnegative p and a positive d. */
  lemma DivIdentity(p: int, d: int, q: int, w: int)
    requires p >= 0 && d > 0 && q == p / d && w == p % d
    ensures p == d * q + w && 0 <= w < d
  {
  }

  /** The product of two values given as magnitudes with signs. */
  lemma SignedProduct(b: int, t: int, d: int, q: int, sb: bool, st: bool)
    requires b == (if sb then -d else d) && t == (if st then -q else q)
    ensures b * t == (if sb == st then d * q else -(d * q))
  {
  }

  // ------------------------------------------------ one quotient digit

  /** Subtracting b * p through the two's complement neg of b: the value goes from
      t to t - b * p modulo m. */
  lemma Subtracted(v: int, t: int, b: int, neg: int, p: int, m: int, v': int)
    requires m > 0 && v == t % m && neg == (-b) % m && v' == (v + neg * p) % m
    ensures v' == (t - b * p) % m
  {
    ModAdd(t, neg * p, m);
    ModMul(-b, p, m);
    ModAdd(neg * p, t, m);
    ModAdd(-b * p, t, m);
    assert -b * p + t == t - b * p;
  }

  /** Adding p back to a value holding t - p modulo m. */
  lemma Restored(v: int, t: int, p: int, m: int, v': int, r: int)
    requires m > 0 && v == t % m && v' == (v + p) % m && r == t + p && 0 <= r < m
    ensures v' == r
  {
    ModAdd(t, p, m);
    DivModUnique(r, m, 0, r);
  }

  /** After k subtractions of p from r0 the remainder is negative exactly when k
      exceeds r0 / p, and one subtraction past r0 / p leaves it at -p or above. */
  lemma Count(r0: int, p: int, k: int, q: int)
    requires p > 0 && r0 >= 0 && q == r0 / p
    ensures r0 - k * p >= 0 <==> k <= q
    ensures k <= q + 1 ==> r0 - k * p >= -p
    ensures k == q + 1 ==> r0 - k * p + p == r0 % p
    ensures k >= 1 ==> r0 - k * p <= r0 - p
  {
    var w := r0 % p;
    var d := q - k;
    assert r0 == q * p + w;
    assert r0 - k * p == d * p + w;
    if d >= 0 {
      MulMono(0, d, p);
    } else {
      MulMono(d, -1, p);
    }
    if d >= -1 {
      MulMono(-1, d, p);
    }
    if k >= 1 {
      MulMono(1, k, p);
    }
  }

  /** One more subtraction: the remainder's two's-complement reading is its true value
      as long as it stays within the signed range. */
  lemma Lowered(s: seq<Byte>, v: int, t: int, b: int, neg: int, ps: int, p: int, m: nat, t': int)
    requires |s| >= 1 && m == Pow(|s|) && p == b * ps && t' == t - p
    requires v == t % m && neg == (-b) % m && Value(s) == (v + neg * ps) % m
    requires -(Half(|s|) as int) <= t' < Half(|s|)
    ensures Value(s) == t' % m && Signed(s) == t'
  {
    Subtracted(v, t, b, neg, ps, m, Value(s));
    SignedOf(s, t');
  }

  /** One more subtraction of p, counted. */
  lemma CountStep(r0: int, p: int, h: int, k: int, u: int, t: int)
    requires k == h + 1 && u == r0 - h * p && t == u - p
    ensures t == r0 - k * p
  {
  }

  /** The digit the source stores: digit - 1 as a uint8_t, where digit has counted the
      q + 1 subtractions modulo 256. */
  lemma StoredDigit(k: int, q: int, digit: int)
    requires 0 <= q <= 255 && k == q + 1 && digit == (if k == 256 then 0 else k)
    ensures (digit - 1) % 256 == q
  {
  }

  /** The uint8_t counter after one more increment. */
  lemma DigitCount(digit: int, h: int, k: int)
    requires 1 <= h < 256 && k == h + 1 && digit == (h + 1) % 256
    ensures digit == (if k == 256 then 0 else k)
  {
  }

  lemma DigitRange(r0: int, p: int)
    requires p > 0 && 0 <= r0 < 256 * p
    ensures 0 <= r0 / p <= 255
  {
    var q := r0 / p;
    assert r0 == q * p + r0 % p;
    if q >= 256 {
      MulMono(256, q, p);
    }
    if q < 0 {
      MulMono(q, -1, p);
    }
  }

  /** One subtraction of rhs * 256^shift from a holding t: a then holds t - p, and
      reads so as a signed number. */
  method SubtractOnce(a: array<Byte>, rhs: seq<Byte>, neg: seq<Byte>, shift: nat, ghost t: int, ghost p: int, ghost t': int)
    requires a.Length == |rhs| == |neg| >= 1 && shift < 0x8000_0000
    requires Value(neg) == (-(Value(rhs) as int)) % Pow(a.Length) && p == Value(rhs) * Pow(shift)
    requires Value(a[..]) == t % Pow(a.Length) && t' == t - p && -(Half(a.Length) as int) <= t' < Half(a.Length)
    modifies a
    ensures Value(a[..]) == t' % Pow(a.Length) && (IsNegative(a[..]) <==> t' < 0)
  {
    ghost var v := Value(a[..]);
    SumWithShift(a, neg, shift);
    Lowered(a[..], v, t, Value(rhs), Value(neg), Pow(shift), p, Pow(a.Length), t');
  }

  /** The inner loop of operator/ (number.cpp:190-197) at a shift with a quotient digit
      below 256: it subtracts rhs * 256^shift until lhs_abs reads as negative, adds it
      back once, and yields the count of successful subtractions. The counter is a
      uint8_t, so its bound 255 never stops the loop; the model loops on the sign test,
      which is where the source leaves it. The remainder must stay within the signed
      range, which is what skip_first_iteration is for. */
  method QuotientDigit(a: array<Byte>, rhs: seq<Byte>, shift: nat, ghost p: int) returns (digit: Byte)
    requires a.Length == |rhs| >= 1 && shift < 0x8000_0000
    requires p == Value(rhs) * Pow(shift) && 1 <= p <= Half(a.Length)
    requires Value(a[..]) <= Half(a.Length) && Value(a[..]) < 256 * p
    modifies a
    ensures digit == old(Value(a[..])) / p && Value(a[..]) == old(Value(a[..])) % p
  {
    ghost var m, r0, ps := Pow(a.Length), Value(a[..]), Pow(shift);
    ghost var q := r0 / p;
    DigitRange(r0, p);
    ghost var k := 1;
    ghost var t := r0 - p;
    HalfPow(a.Length);
    DivModUnique(r0, m, 0, r0);
    var neg := Negate(rhs);
    digit := 1;
    Count(r0, p, k, q);
    SubtractOnce(a, rhs, neg, shift, r0, p, t);
    while !IsNegative(a[..])
      invariant 1 <= k <= q + 1 && digit == (if k == 256 then 0 else k)
      invariant t == r0 - k * p
      invariant Value(a[..]) == t % Pow(a.Length) && (IsNegative(a[..]) <==> t < 0)
      decreases q + 1 - k
    {
      Count(r0, p, k, q);
      ghost var h, u := k, t;
      digit := (digit + 1) % 256;
      k := k + 1;
      DigitCount(digit, h, k);
      t := t - p;
      CountStep(r0, p, h, k, u, t);
      Count(r0, p, k, q);
      SubtractOnce(a, rhs, neg, shift, u, p, t);
    }
    Count(r0, p, k, q);
    assert t < 0 && k == q + 1;
    ghost var v, r := Value(a[..]), r0 % p;
    assert r == t + p && 0 <= r < p;
    SumWithShift(a, rhs, shift);
    Restored(v, t, Value(rhs) * Pow(shift), Pow(a.Length), Value(a[..]), r);
    StoredDigit(k, q, digit);
    digit := (digit - 1) % 256;
  }

  // ------------------------------------------------ the long division

  /** The quotient digits the outer loop still has to produce at index i: one for
      every index from i down to nb, the length of the divisor. */
  function Room(i: int, nb: int): nat {
    if i >= nb then i - nb + 1 else 0
  }

  lemma ScaleStep(b: int, s: nat)
    ensures b * Pow(s + 1) == 256 * (b * Pow(s))
  {
    assert Pow(s + 1) == 256 * Pow(s);
  }

  /** One digit of the long division at index h: a quotient prefix qv over the
      divisor scaled by 256^Room(h) with remainder w becomes qv * 256 + digit over the
      divisor scaled by 256^Room(h - 1), with remainder w % (B * 256^(h - nb)). */
  lemma LongStep(A: int, B: int, qv: int, w: int, p: int, digit: int, w': int, qv': int, h: int, i: int, nb: int)
    requires B >= 1 && 1 <= nb <= h && i == h - 1 && 0 <= w <= A
    requires A == qv * (B * Pow(Room(h, nb))) + w && p == B * Pow(h - nb)
    requires digit == w / p && w' == w % p && qv' == qv * 256 + digit
    ensures A == qv' * (B * Pow(Room(i, nb))) + w' && w' < B * Pow(Room(i, nb)) && w' <= A
  {
    var s := h - nb;
    assert Room(i, nb) == s && Room(h, nb) == s + 1;
    ScaleStep(B, s);
    MulAtLeast(B, Pow(s));
    DivParts(w, p);
    Regroup(qv, p, digit, w');
  }

  lemma DivParts(w: int, p: int)
    requires w >= 0 && p > 0
    ensures w == (w / p) * p + w % p && 0 <= w % p < p && w % p <= w
  {
    var d := w / p;
    assert w == d * p + w % p;
    if d < 0 {
      MulMono(d, -1, p);
    } else {
      MulMono(0, d, p);
    }
  }

  lemma Regroup(qv: int, p: int, digit: int, w': int)
    ensures qv * (256 * p) + (digit * p + w') == (qv * 256 + digit) * p + w'
  {
  }

  /** The divisor at a smaller shift stays within the signed range. */
  lemma ScaledBelow(b: int, s: nat, t: nat, h: int)
    requires b >= 1 && s <= t && b * Pow(t) <= h
    ensures 1 <= b * Pow(s) <= h
  {
    PowMono(s, t);
    MulMono(Pow(s), Pow(t), b);
    MulAtLeast(b, Pow(s));
  }

  /** The outer loop of operator/ (number.cpp:186-198) from index start down to 1:
      every index i from nb on, nb being the length of the divisor rhs, yields one
      quotient digit, found by QuotientDigit at shift i - nb and written at the next
      free place of a zero result. The digits read, most significant first, as the
      quotient of a and rhs, provided the divisor at the first shift keeps the
      remainder within the signed range and the quotient has no more than Room digits;
      a keeps the remainder. */
  method LongDivide(a: array<Byte>, rhs: seq<Byte>, nb: nat, start: nat) returns (res: array<Byte>, len: nat)
    requires a.Length == |rhs| >= 1 && a.Length < 0x8000_0000
    requires 1 <= nb && 1 <= Value(rhs) && start <= a.Length
    requires Value(a[..]) <= Half(a.Length)
    requires start >= nb ==> Value(rhs) * Pow(start - nb) <= Half(a.Length)
    requires Value(a[..]) < Value(rhs) * Pow(Room(start, nb))
    modifies a
    ensures fresh(res) && res.Length == a.Length && len == Room(start, nb)
    ensures Value(res[..len]) == old(Value(a[..])) / Value(rhs)
    ensures Value(a[..]) == old(Value(a[..])) % Value(rhs)
    ensures forall k | len <= k < res.Length :: res[k] == 0
  {
    ghost var A, B := Value(a[..]), Value(rhs);
    res := Zero(a.Length);
    len := 0;
    var i := start;
    ghost var ds: seq<Byte> := [];
    ghost var scale := B * Pow(Room(i, nb));
    while i > 0
      invariant 0 <= i <= start && len == |ds| && len + Room(i, nb) == Room(start, nb)
      invariant res.Length == a.Length && Holds(res[..], ds)
      invariant scale == B * Pow(Room(i, nb))
      invariant A == Value(ds) * scale + Value(a[..]) && Value(a[..]) < scale && Value(a[..]) <= A
    {
      if nb <= i {
        ScaledBelow(B, i - nb, start - nb, Half(a.Length));
        var digit := NextDigit(a, rhs, res, len, i, nb, A, ds);
        ds := ds + [digit];
        len := len + 1;
        scale := B * Pow(Room(i - 1, nb));
        i := i - 1;
      } else {
        assert Room(i - 1, nb) == Room(i, nb);
        i := i - 1;
      }
    }
    assert Room(i, nb) == 0 && Pow(0) == 1 && scale == B;
    DivModUnique(A, B, Value(ds), Value(a[..]));
    assert res[..len] == ds;
  }

  /** One pass of the outer loop at an index i from nb on: the quotient digit at
      shift i - nb, written at the next free place of the result. */
  method NextDigit(a: array<Byte>, rhs: seq<Byte>, res: array<Byte>, len: nat, i: nat, nb: nat,
                   ghost A: int, ghost ds: seq<Byte>) returns (digit: Byte)
    requires a != res && res.Length == a.Length == |rhs| >= 1 && a.Length < 0x8000_0000
    requires 1 <= nb <= i <= a.Length && 1 <= Value(rhs) * Pow(i - nb) <= Half(a.Length)
    requires len == |ds| < res.Length && Holds(res[..], ds) && A <= Half(a.Length)
    requires A == Value(ds) * (Value(rhs) * Pow(Room(i, nb))) + Value(a[..])
    requires Value(a[..]) < Value(rhs) * Pow(Room(i, nb)) && Value(a[..]) <= A
    modifies a, res
    ensures Holds(res[..], ds + [digit])
    ensures A == Value(ds + [digit]) * (Value(rhs) * Pow(Room(i - 1, nb))) + Value(a[..])
    ensures Value(a[..]) < Value(rhs) * Pow(Room(i - 1, nb)) && Value(a[..]) <= A
  {
    ghost var B, w, before := Value(rhs), Value(a[..]), res[..];
    ghost var p := B * Pow(i - nb);
    ScaleStep(B, i - nb);
    digit := QuotientDigit(a, rhs, i - nb, p);
    res[len] := digit;
    Written(before, res[..], ds, digit);
    ValueLast(ds, digit);
    LongStep(A, B, Value(ds), w, p, digit, Value(a[..]), Value(ds + [digit]), i, i - 1, nb);
  }

  /** The result array holds the digits ds so far, then zeros. */
  ghost predicate Holds(r: seq<Byte>, ds: seq<Byte>) {
    |ds| <= |r| && r[..|ds|] == ds && forall k | |ds| <= k < |r| :: r[k] == 0
  }

  /** Writing the next digit at the first free place. */
  lemma Written(r: seq<Byte>, r': seq<Byte>, ds: seq<Byte>, d: Byte)
    requires Holds(r, ds) && |ds| < |r| && r' == r[|ds| := d]
    ensures Holds(r', ds + [d])
  {
    assert r'[..|ds| + 1] == ds + [d];
  }

  /** The reformat loop of operator/ (number.cpp:200-204) with each digit taken before
      its place is cleared: the len digits at the front move to the back, in order,
      and zeros fill the front. */
  method Align(res: array<Byte>, len: nat)
    requires len <= res.Length && forall k | len <= k < res.Length :: res[k] == 0
    modifies res
    ensures res[..] == Zeros(res.Length - len) + old(res[..len])
  {
    ghost var o := res[..];
    var n := res.Length;
    var i := len;
    while i > 0
      invariant 0 <= i <= len
      invariant forall k | 0 <= k < i :: res[k] == o[k]
      invariant forall k | i <= k < n - len + i :: res[k] == 0
      invariant forall k | n - len + i <= k < n :: res[k] == o[k - (n - len)]
    {
      var d := res[i - 1];
      res[i - 1] := 0;
      res[n - len + i - 1] := d;
      i := i - 1;
    }
    Layout(res[..], o, len);
  }

  /** Zeros in front of the len digits of o, read position by position. */
  lemma Layout(r: seq<Byte>, o: seq<Byte>, len: nat)
    requires |r| == |o| && len <= |o|
    requires forall k | 0 <= k < |r| - len :: r[k] == 0
    requires forall k | |r| - len <= k < |r| :: r[k] == o[k - (|r| - len)]
    ensures r == Zeros(|r| - len) + o[..len]
  {
    var z := Zeros(|r| - len);
    assert forall k | 0 <= k < |r| :: r[k] == (z + o[..len])[k];
  }

  /** The reformat loop as the source writes it: the digit is copied to its new place
      and then its old place cleared. When the quotient fills every byte the two places
      are the same, and every digit is cleared. */
  method AlignAsWritten(res: array<Byte>, len: nat)
    requires len <= res.Length && forall k | len <= k < res.Length :: res[k] == 0
    modifies res
    ensures len < res.Length ==> res[..] == Zeros(res.Length - len) + old(res[..len])
    ensures len == res.Length ==> res[..] == Zeros(res.Length)
  {
    ghost var o := res[..];
    var n := res.Length;
    var i := len;
    while i > 0
      invariant 0 <= i <= len
      invariant forall k | 0 <= k < i :: res[k] == o[k]
      invariant len < n ==> forall k | i <= k < n - len + i :: res[k] == 0
      invariant len < n ==> forall k | n - len + i <= k < n :: res[k] == o[k - (n - len)]
      invariant len == n ==> forall k | i <= k < n :: res[k] == 0
    {
      res[n - len + i - 1] := res[i - 1];
      res[i - 1] := 0;
      i := i - 1;
    }
    if len < n {
      Layout(res[..], o, len);
    } else {
      Layout(res[..], o, 0);
      assert o[..0] == [];
    }
  }

  // ------------------------------------------------ operator/

  /** The bytes of abs(v) hold the magnitude of the signed reading of v; for the most
      negative value that is Half itself. */
  lemma AbsMagnitude(v: seq<Byte>, r: seq<Byte>)
    requires |v| >= 1 && Value(r) == (if Signed(v) < 0 then -Signed(v) else Signed(v)) % Pow(|v|)
    ensures Value(r) == Magnitude(Signed(v)) <= Half(|v|)
  {
    SignedRange(v);
    HalfPow(|v|);
    DivModUnique(Magnitude(Signed(v)), Pow(|v|), 0, Magnitude(Signed(v)));
  }

  /** data[0] of a string is nonzero exactly when the string needs all its bytes. */
  lemma FrontDigit(s: seq<Byte>)
    requires |s| >= 1
    ensures s[0] != 0 <==> Value(s) >= Pow(|s| - 1)
  {
    ValueFront(s);
    ValueBound(s[1..]);
    if s[0] != 0 {
      MulAtLeast(s[0], Pow(|s| - 1));
    }
  }

  /** A positive number has one length in digits. */
  lemma LengthUnique(b: int, x: nat, y: nat)
    requires 1 <= x && 1 <= y && Pow(x - 1) <= b < Pow(x) && Pow(y - 1) <= b < Pow(y)
    ensures x == y
  {
    if x < y {
      PowMono(x, y - 1);
    } else if y < x {
      PowMono(y, x - 1);
    }
  }

  /** The first nonzero byte of a positive divisor of nb digits is its leading digit,
      at index |v| - nb; its top bit is set exactly when the divisor is at least
      128 * 256^(nb-1). */
  lemma LeadingByte(v: seq<Byte>, first: nat, nb: nat)
    requires first < |v| && (v[first] != 0 || first == |v| - 1) && forall k | 0 <= k < first :: v[k] == 0
    requires 1 <= nb <= |v| && Value(v) < Pow(nb) && Pow(nb - 1) <= Value(v)
    ensures first == |v| - nb
    ensures v[first] >= 128 <==> Value(v) >= Half(nb)
  {
    LeadingDigit(v, first);
    LengthUnique(Value(v), |v| - first, nb);
    TopByte(v[first..]);
  }

  lemma HalfSplit(nb: nat, n: nat)
    requires 1 <= nb <= n
    ensures Half(nb) * Pow(n - nb) == Half(n)
  {
    PowAdd(nb - 1, n - nb);
    MulAssoc(128, Pow(nb - 1), Pow(n - nb));
  }

  /** A number of nb digits shifted by k places is below 256^(nb+k). */
  lemma ShiftedBelow(b: int, nb: nat, k: nat)
    requires 0 <= b < Pow(nb)
    ensures b * Pow(k) < Pow(nb + k)
  {
    PowAdd(nb, k);
    MulMono(b + 1, Pow(nb), Pow(k));
    assert (b + 1) * Pow(k) == b * Pow(k) + Pow(k);
  }

  /** The divisor moved to the top of the width: B * 256^(n-nb) is below 256^n. */
  lemma TopFits(b: int, nb: nat, n: nat)
    requires 0 <= b < Pow(nb) && nb <= n
    ensures (b * Pow(n - nb)) % Pow(n) == b * Pow(n - nb)
  {
    ShiftedBelow(b, nb, n - nb);
    DivModUnique(b * Pow(n - nb), Pow(n), 0, b * Pow(n - nb));
  }

  /** Why the outer loop may start where it does. A is the dividend, B the divisor,
      la and nb their lengths. The first shift is at most Half unless lhs_abs needs
      every byte (lead) and the top bit of the divisor's leading digit is set (top);
      skipping that index then loses nothing, since the quotient is below 256^(n-nb),
      except when A == B * 256^(n-nb) == Half (exact), which is then not skipped.
      Either way A is below B * 256^Room(start). */
  lemma StartRoom(n: nat, A: int, B: int, la: nat, nb: nat, lead: bool, top: bool, exact: bool, skip: bool, start: int)
    requires n >= 1 && 0 <= A <= Half(n) && 1 <= B <= Half(n)
    requires 1 <= la <= n && A < Pow(la) && (A != 0 ==> Pow(la - 1) <= A) && (A == 0 ==> la == 1)
    requires 1 <= nb <= n && B < Pow(nb) && Pow(nb - 1) <= B
    requires (lead <==> A >= Pow(n - 1)) && (top <==> B >= Half(nb)) && (exact <==> A == B * Pow(n - nb))
    requires skip == (lead && top && !exact) && start == la - (if skip then 1 else 0)
    ensures 0 <= start <= n
    ensures start >= nb ==> B * Pow(start - nb) <= Half(n)
    ensures A < B * Pow(Room(start, nb))
  {
    if lead && la < n {
      PowMono(la, n - 1);
    }
    if skip {
      StartSkipped(n, A, B, nb);
    } else {
      if la == n && !lead {
        assert A == 0;
        assert Pow(n - nb) == 1;
      }
      if start >= nb {
        ScaledFits(n, B, la, nb);
      }
      AboveDividend(A, B, la, nb);
    }
  }

  /** With the first index skipped, start is n - 1. */
  lemma StartSkipped(n: nat, A: int, B: int, nb: nat)
    requires n >= 1 && 0 <= A <= Half(n) && 1 <= nb <= n && Half(nb) <= B < Pow(nb)
    requires A != B * Pow(n - nb)
    ensures n - 1 >= nb ==> B * Pow(n - 1 - nb) <= Half(n)
    ensures A < B * Pow(Room(n - 1, nb))
  {
    assert Room(n - 1, nb) == n - nb;
    HalfSplit(nb, n);
    MulMono(Half(nb), B, Pow(n - nb));
    if n - 1 >= nb {
      ShiftedBelow(B, nb, n - 1 - nb);
    }
  }

  /** Without the skip, the first shift is at most Half: below 256^la when la < n, and
      otherwise because the divisor's leading digit is below 128 or the shifted
      divisor equals the dividend. */
  lemma ScaledFits(n: nat, B: int, la: nat, nb: nat)
    requires n >= 1 && 1 <= B < Pow(nb) && 1 <= nb <= la <= n
    requires la == n ==> B < Half(nb) || B * Pow(n - nb) <= Half(n)
    ensures B * Pow(la - nb) <= Half(n)
  {
    if la < n {
      ShiftedBelow(B, nb, la - nb);
      PowMono(la, n - 1);
    } else if B < Half(nb) {
      HalfSplit(nb, n);
      MulMono(B, Half(nb), Pow(n - nb));
    }
  }

  /** Without the skip, the dividend is below B * 256^Room(la). */
  lemma AboveDividend(A: int, B: int, la: nat, nb: nat)
    requires 1 <= la && 1 <= nb && A < Pow(la) && Pow(nb - 1) <= B
    ensures A < B * Pow(Room(la, nb))
  {
    if la >= nb {
      PowAdd(nb - 1, la - nb + 1);
      MulMono(Pow(nb - 1), B, Pow(la - nb + 1));
    } else {
      PowMono(la, nb - 1);
    }
  }

  /** The quotient of a dividend of at most h is at most h, and equals h only for the
      divisor 1. */
  lemma QuotientRange(A: int, B: int, h: int)
    requires 0 <= A <= h && 1 <= B && 1 <= h
    ensures 0 <= A / B <= A && (A / B == h ==> A == h && B == 1)
  {
    var q := A / B;
    assert A == q * B + A % B;
    MulMono(0, q, B);
    if q >= 1 {
      MulAtLeast(q, B);
      if B >= 2 {
        MulMono(2, B, q);
      }
    }
  }

  /** Lines 179-186 of operator/: the lengths of the magnitudes and whether the first
      index is skipped, corrected so that the index is not skipped when the dividend
      equals the divisor moved to the top of the width. The outer loop then starts at
      an index from which it yields the whole quotient without leaving the signed
      range. */
  method LoopStart(lhsAbs: seq<Byte>, rhsAbs: seq<Byte>) returns (start: nat, rhsLen: nat)
    requires |lhsAbs| == |rhsAbs| >= 1 && Value(lhsAbs) <= Half(|lhsAbs|)
    requires 1 <= Value(rhsAbs) <= Half(|rhsAbs|)
    ensures 1 <= rhsLen && start <= |lhsAbs|
    ensures start >= rhsLen ==> Value(rhsAbs) * Pow(start - rhsLen) <= Half(|lhsAbs|)
    ensures Value(lhsAbs) < Value(rhsAbs) * Pow(Room(start, rhsLen))
  {
    var n := |lhsAbs|;
    ghost var A, B := Value(lhsAbs), Value(rhsAbs);
    rhsLen := Len(rhsAbs);
    var first := FirstDigit(rhsAbs);
    LeadingByte(rhsAbs, first, rhsLen);
    FrontDigit(lhsAbs);
    TopFits(B, rhsLen, n);
    var skip := lhsAbs[0] != 0 && rhsAbs[first] >= 128;
    if skip {
      var top := ShiftDigitsToLeft(rhsAbs, n - rhsLen);
      var same := Equal(lhsAbs, top);
      skip := !same;
    }
    var lhsLen := Len(lhsAbs);
    start := lhsLen - (if skip then 1 else 0);
    StartRoom(n, A, B, lhsLen, rhsLen, lhsAbs[0] != 0, rhsAbs[first] >= 128, A == B * Pow(n - rhsLen), skip, start);
  }

  /** Lines 179-204 of operator/: the long division of the magnitudes, its digits
      moved to the low end. */
  method DivideMagnitudes(lhsAbs: seq<Byte>, rhsAbs: seq<Byte>) returns (q: seq<Byte>)
    requires |lhsAbs| == |rhsAbs| >= 1 && |lhsAbs| < 0x8000_0000
    requires Value(lhsAbs) <= Half(|lhsAbs|) && 1 <= Value(rhsAbs) <= Half(|rhsAbs|)
    ensures |q| == |lhsAbs| && Value(q) == Value(lhsAbs) / Value(rhsAbs)
  {
    var start, rhsLen := LoopStart(lhsAbs, rhsAbs);
    var a := Copy(lhsAbs);
    var res, len := LongDivide(a, rhsAbs, rhsLen, start);
    ghost var ds := res[..len];
    Align(res, len);
    q := res[..];
    AlignedValue(q, ds);
  }

  /** operator/ (number.cpp:178-211), with the two corrections listed as findings: the
      magnitudes are divided digit by digit, the digits moved to the low end, and the
      quotient negated when exactly one operand is negative. The result is the C++
      quotient, truncated towards zero, modulo 256^n; it is that quotient itself except
      for the most negative value divided by -1, whose quotient does not fit. A zero
      divisor would make the digit loop run forever. */
  method Div(x: seq<Byte>, y: seq<Byte>) returns (r: seq<Byte>)
    requires |x| == |y| >= 1 && |x| < 0x8000_0000 && Signed(y) != 0
    ensures |r| == |x| && Value(r) == TruncDiv(Signed(x), Signed(y)) % Pow(|x|)
    ensures !(Signed(x) == -(Half(|x|) as int) && Signed(y) == -1) ==> Signed(r) == TruncDiv(Signed(x), Signed(y))
  {
    var n := |x|;
    var lhsAbs := Abs(x);
    var rhsAbs := Abs(y);
    AbsMagnitude(x, lhsAbs);
    AbsMagnitude(y, rhsAbs);
    var q := DivideMagnitudes(lhsAbs, rhsAbs);
    SignedRange(x);
    QuotientRange(Value(lhsAbs), Value(rhsAbs), Half(n));
    QuotientFits(Signed(x), Signed(y), q, Value(q));
    ghost var t := TruncDiv(Signed(x), Signed(y));
    if IsNegative(x) != IsNegative(y) {
      r := Negate(q);
      assert t == -(Value(q) as int) && -(Half(n) as int) <= t < Half(n);
      assert Value(r) == t % Pow(n);
      SignedOf(r, t);
    } else {
      r := q;
    }
  }

  /** Zeros in front of the digits add nothing. */
  lemma AlignedValue(q: seq<Byte>, ds: seq<Byte>)
    requires |ds| <= |q| && q == Zeros(|q| - |ds|) + ds
    ensures Value(q) == Value(ds)
  {
    ZeroPrefix(q, |q| - |ds|);
    assert q[|q| - |ds|..] == ds;
  }

  /** The quotient t of the magnitudes, at most Half, read from q. */
  lemma QuotientFits(sx: int, sy: int, q: seq<Byte>, t: int)
    requires |q| >= 1 && sy != 0 && -(Half(|q|) as int) <= sx < Half(|q|) && Value(q) == t
    requires t == Magnitude(sx) / Magnitude(sy) && 0 <= t <= Half(|q|)
    requires t == Half(|q|) ==> Magnitude(sx) == Half(|q|) && Magnitude(sy) == 1
    ensures (sx < 0) != (sy < 0) ==> TruncDiv(sx, sy) == -t
    ensures (sx < 0) == (sy < 0) ==> TruncDiv(sx, sy) == t == Value(q) % Pow(|q|)
    ensures (sx < 0) == (sy < 0) && !(sx == -(Half(|q|) as int) && sy == -1) ==> Signed(q) == t
  {
    var n := |q|;
    HalfPow(n);
    DivModUnique(t, Pow(n), 0, t);
    if (sx < 0) == (sy < 0) && !(sx == -(Half(n) as int) && sy == -1) {
      if t == Half(n) {
        assert false;
      }
      SignedOf(q, t);
    }
  }

  // ------------------------------------------------ the source as written

  /** skip_first_iteration as the source writes it (number.cpp:184-185): lhs_abs needs
      every byte and the leading digit of rhs_abs, at index first, has its top bit
      set. */
  function SkipAsWritten(lhsAbs: seq<Byte>, rhsAbs: seq<Byte>, first: nat): (r: bool)
    requires |lhsAbs| >= 1 && first < |rhsAbs| && forall k | 0 <= k < first :: rhsAbs[k] == 0
    ensures r <==> Value(lhsAbs) >= Pow(|lhsAbs| - 1) && Value(rhsAbs) >= Half(|rhsAbs| - first)
  {
    FrontDigit(lhsAbs);
    ZeroPrefix(rhsAbs, first);
    TopByte(rhsAbs[first..]);
    lhsAbs[0] != 0 && rhsAbs[first] >= 128
  }

  /** INT2023_MIN / INT2023_MIN: abs leaves the most negative value 0x80 00 ... 00 as it
      is, the skip as written holds for it, and the loop starting at n - 1, below the
      divisor's length n, yields no digit: the quotient is 0 where it should be 1. */
  lemma SkipLosesDigit(n: nat)
    requires n >= 1
    ensures var m := [128] + Zeros(n - 1);
      Signed(m) == -(Half(n) as int) && Value(m) == Half(n) && SkipAsWritten(m, m, 0)
      && Room(n - 1, n) == 0 && TruncDiv(Signed(m), Signed(m)) == 1
  {
    var m := [128] + Zeros(n - 1);
    ValueFront(m);
    assert m[1..] == Zeros(n - 1);
    ValueZeros(n - 1);
    HalfPow(n);
    PowMono(n - 1, n);
  }

  /** 2^2016 / 1 for int2023_t, and 256^(n-1) / 1 at any width: lhs_abs needs every
      byte, the divisor has one digit, below 128, so the skip as written does not hold
      and the loop yields Room(n, 1) == n digits, one for every byte. AlignAsWritten
      clears all of them, so the quotient 256^(n-1) comes out as 0. */
  lemma FullWidthQuotient(n: nat)
    requires n >= 1
    ensures var x, y := [1] + Zeros(n - 1), Zeros(n - 1) + [1];
      Signed(x) == Pow(n - 1) && Signed(y) == 1 && !SkipAsWritten(x, y, n - 1)
      && Room(n, 1) == n && TruncDiv(Signed(x), Signed(y)) == Pow(n - 1) != 0
  {
    var x, y := [1] + Zeros(n - 1), Zeros(n - 1) + [1];
    var p := Pow(n - 1);
    assert Value(x) == p by {
      ValueFront(x);
      assert x[1..] == Zeros(n - 1);
      ValueZeros(n - 1);
    }
    assert Value(y) == 1 by {
      ValueLast(Zeros(n - 1), 1);
      ValueZeros(n - 1);
    }
    assert Half(n) == 128 * p;
    assert Value(x) < Half(n);
    assert Signed(x) == p;
    assert Half(|y|) >= 128 by { MulAtLeast(p, 128); }
    assert Signed(y) == 1;
    assert |y| - (n - 1) == 1 && Half(1) == 128;
    assert TruncDiv(p, 1) == p;
  }
}
