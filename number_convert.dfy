/** The conversions of number.cpp into and out of int2023_t: from_int, from_string and
    the hexadecimal text that operator<< writes. Like the arithmetic, they are modelled
    for any width n; int2023_t is the width Size. */
module NumberConvert {
  import opened Int2023
  import opened Number

  // ------------------------------------------------ from_int

  /** One digit of from_int: writing m % 256 at weight p and keeping m / 256 at weight
      256 * p accounts for m at weight p. */
  lemma DigitStep(m: int, p: int, v: int, w: int)
    requires v + m * p == w
    ensures (m % 256) * p + v + (m / 256) * (256 * p) == w
  {
    var q, d := m / 256, m % 256;
    assert m == q * 256 + d;
    assert m * p == d * p + q * (256 * p);
  }

  /** A nonzero number below 2^31 fits in four base-256 digits. */
  lemma FourDigits(m: int, k: nat, w: int)
    requires m >= 1 && m * Pow(k) <= w < 0x8000_0000
    ensures k < 4
  {
    assert Pow(4) == 0x1_0000_0000;
    if k >= 4 {
      MulAtLeast(m, Pow(k));
      PowMono(4, k);
      assert false;
    }
  }

  /** Every int32_t except INT32_MIN lies strictly inside the signed range of four or
      more bytes. */
  lemma Int32Fits(n: nat)
    requires n >= 4
    ensures Half(n) >= 0x8000_0000
  {
    PowMono(3, n - 1);
    assert Pow(3) == 0x100_0000;
  }

  /** from_int(i) (number.cpp:10-25): the base-256 digits of |i| written from the last
      byte on, then negated when i is negative: the two's-complement encoding of i.
      INT32_MIN is excluded, as abs(INT32_MIN) is undefined. */
  method FromInt(i: int, n: nat) returns (r: seq<Byte>)
    requires -0x8000_0000 < i < 0x8000_0000 && n >= 4
    ensures |r| == n && Signed(r) == i
  {
    var a := Zero(n);
    var negative := i < 0;
    var m := if negative then -i else i;
    ghost var w := m;
    var cnt := n;
    while m != 0
      invariant 0 <= cnt <= n && a.Length == n && 0 <= m
      invariant forall k | 0 <= k < cnt :: a[k] == 0
      invariant Value(a[..][cnt..]) + m * Pow(n - cnt) == w
      decreases m
    {
      FourDigits(m, n - cnt, w);
      ghost var before, p := a[..], Pow(n - cnt);
      cnt := cnt - 1;
      a[cnt] := m % 256;
      assert a[..][cnt + 1..] == before[cnt + 1..];
      ValueUnfold(a[..], cnt);
      assert Pow(n - cnt) == 256 * p;
      DigitStep(m, p, Value(before[cnt + 1..]), w);
      m := m / 256;
    }
    ZeroPrefix(a[..], cnt);
    Int32Fits(n);
    if negative {
      r := Negate(a[..]);
    } else {
      r := a[..];
      Settle(r, i, 0, Pow(n));
    }
    SignedOf(r, i);
  }

  // ------------------------------------------------ from_string

  /** static_cast<uint8_t>(c - '0') for a char c: the digit of '0'..'9', and some
      other byte for any other character. */
  function DigitByte(c: char): (r: Byte)
    ensures '0' <= c <= '9' ==> r == c as int - '0' as int
  {
    ((c as int) - 48) % 256
  }

  /** The characters of a C string: bytes, none of them the terminating NUL. */
  predicate CString(s: seq<char>) {
    forall k | 0 <= k < |s| :: 0 < s[k] as int < 256
  }

  /** The unbounded value of a digit string by Horner's rule: each character shifts the
      value one decimal place and adds its digit. */
  function Decimal(s: seq<char>): (r: int)
    ensures (forall k | 0 <= k < |s| :: '0' <= s[k] <= '9') ==> r >= 0
  {
    if |s| == 0 then 0 else Decimal(s[..|s| - 1]) * 10 + DigitByte(s[|s| - 1])
  }

  /** What from_string reads: the digits after a leading '-', negated, or the digits of
      the whole string. */
  function Parsed(s: seq<char>): int {
    if |s| > 0 && s[0] == '-' then -Decimal(s[1..]) else Decimal(s)
  }

  /** One step of Horner's rule modulo m. */
  lemma HornerStep(d: int, m: int, prev: int, times: int, digit: int, next: int, d': int)
    requires m > 0 && prev == d % m && times == (prev * 10) % m && next == (times + digit) % m
    requires d' == d * 10 + digit
    ensures next == d' % m
  {
    ModMul(d, 10, m);
    ModAdd(d * 10, digit, m);
  }

  /** One more character read. */
  lemma DecimalSnoc(s: seq<char>, start: int, h: int, i: int)
    requires 0 <= start <= h < |s| && i == h + 1
    ensures Decimal(s[start..i]) == Decimal(s[start..h]) * 10 + DigitByte(s[h])
  {
    assert s[start..i][..h - start] == s[start..h];
  }

  /** from_string skips the '-' of a negative numeral and reads the rest. */
  lemma ParsedFrom(s: seq<char>, start: int)
    requires start == if |s| > 0 && s[0] == '-' then 1 else 0
    ensures Parsed(s) == if start == 1 then -Decimal(s[start..]) else Decimal(s[start..])
  {
    assert s[0..] == s;
  }

  /** d and d mod m have the same negation modulo m. */
  lemma NegMod(d: int, m: int)
    requires m > 0
    ensures (-(d % m)) % m == (-d) % m
  {
    assert -(d % m) == -d + (d / m) * m;
    ModShift(-d, d / m, m);
  }

  /** from_string(buff) (number.cpp:27-44): result *= 10, result += digit for each
      character after an optional leading '-', then negated if the '-' was there. buff
      is a C string, given here as its characters before the NUL. */
  method FromString(s: seq<char>, n: nat) returns (r: seq<Byte>)
    requires CString(s) && n >= 1
    ensures |r| == n && Value(r) == Parsed(s) % Pow(n)
    ensures -(Half(n) as int) <= Parsed(s) < Half(n) ==> Signed(r) == Parsed(s)
  {
    var a := Zero(n);
    var negative := |s| > 0 && s[0] == '-';
    var i := if negative then 1 else 0;
    ghost var start := i;
    ValueZeros(n);
    assert s[start..i] == [];
    Settle(a[..], Decimal(s[start..i]), 0, Pow(n));
    while i < |s|
      invariant start <= i <= |s| && a.Length == n
      invariant Value(a[..]) == Decimal(s[start..i]) % Pow(n)
    {
      ghost var prev, h := Value(a[..]), i;
      MulByteInPlace(a, 10);
      ghost var times := Value(a[..]);
      var digit := DigitByte(s[i]);
      AddByteInPlace(a, digit);
      i := i + 1;
      DecimalSnoc(s, start, h, i);
      HornerStep(Decimal(s[start..h]), Pow(n), prev, times, digit, Value(a[..]), Decimal(s[start..i]));
    }
    assert s[start..] == s[start..i];
    ghost var d, m, v := Decimal(s[start..]), Pow(n), Parsed(s);
    ParsedFrom(s, start);
    if negative {
      r := Negate(a[..]);
      NegMod(d, m);
      assert Value(r) == v % m;
    } else {
      r := a[..];
      assert Value(r) == v % m;
    }
    if -(Half(n) as int) <= v < Half(n) {
      SignedOf(r, v);
    }
  }

  /** The decimal digits of k, most significant first, without leading zeros. */
  function DecimalString(k: nat): (r: seq<char>)
    ensures |r| >= 1 && forall j | 0 <= j < |r| :: '0' <= r[j] <= '9'
  {
    if k < 10 then [(48 + k) as char] else DecimalString(k / 10) + [(48 + k % 10) as char]
  }

  /** Horner's rule reads the decimal digits of k back as k. */
  lemma {:induction false} DecimalRoundTrip(k: nat)
    ensures Decimal(DecimalString(k)) == k
  {
    var s := DecimalString(k);
    if k >= 10 {
      DecimalRoundTrip(k / 10);
      assert s[..|s| - 1] == DecimalString(k / 10);
    } else {
      assert s[..0] == [];
    }
  }

  /** from_string reads the decimal text of k, with or without a '-', as k or -k. */
  lemma ParsedDecimal(k: nat)
    ensures CString(DecimalString(k)) && Parsed(DecimalString(k)) == k
    ensures CString("-" + DecimalString(k)) && Parsed("-" + DecimalString(k)) == -(k as int)
  {
    DecimalRoundTrip(k);
    var s := DecimalString(k);
    assert ("-" + s)[1..] == s;
  }

  // ------------------------------------------------ operator<<

  /** The value of a hexadecimal digit character, upper case. */
  function HexOf(c: char): int {
    if '0' <= c <= '9' then c as int - '0' as int
    else if 'A' <= c <= 'F' then c as int - 'A' as int + 10
    else 0
  }

  /** A hexadecimal string read by Horner's rule. */
  function HexValue(s: seq<char>): nat {
    if |s| == 0 then 0 else HexValue(s[..|s| - 1]) * 16 + HexOf(s[|s| - 1])
  }

  /** The two hexadecimal digits of a byte, high nibble first. value.data[i] >> 4 and
      value.data[i] & 0b00001111 are b / 16 and b % 16. */
  function HexPair(b: Byte): seq<char> {
    [HexDigit(b / 16), HexDigit(b % 16)]
  }

  /** Upper-case hexadecimal digits only. */
  predicate HexDigits(s: seq<char>) {
    forall k | 0 <= k < |s| :: s[k] in "0123456789ABCDEF"
  }

  /** HexOf reads back the digit HexDigit writes. */
  lemma HexOfDigit(d: Byte)
    requires d < 16
    ensures HexOf(HexDigit(d)) == d
  {
  }

  /** Two more digits for one more byte, the text read so far staying in front. */
  lemma HexAppend(h: seq<char>, b: Byte, h': seq<char>)
    requires HexDigits(h) && h' == h + HexPair(b)
    ensures HexValue(h') == HexValue(h) * 256 + b && HexDigits(h')
    ensures |h| >= 2 ==> h'[..2] == h[..2]
  {
    var hi, lo := HexDigit(b / 16), HexDigit(b % 16);
    var h1 := h + [hi];
    assert h'[..|h'| - 1] == h1 && h'[|h'| - 1] == lo;
    assert h1[..|h1| - 1] == h && h1[|h1| - 1] == hi;
    HexOfDigit(b / 16);
    HexOfDigit(b % 16);
    assert HexValue(h') == (HexValue(h) * 16 + b / 16) * 16 + b % 16;
    forall k | 0 <= k < |h'|
      ensures h'[k] in "0123456789ABCDEF"
    {
      if k >= |h| {
        assert h'[k] == hi || h'[k] == lo;
      }
    }
  }


  /** One more byte read. */
  lemma ValueSnoc(v: seq<Byte>, first: int, h: int, i: int)
    requires 0 <= first <= h < |v| && i == h + 1
    ensures Value(v[first..i]) == Value(v[first..h]) * 256 + v[h]
  {
    assert v[first..i] == v[first..h] + [v[h]];
    ValueLast(v[first..h], v[h]);
  }

  /** The first digit of a byte's pair is '0' exactly when the byte is below 16, and
      then the second is '0' exactly when the byte is 0. */
  lemma HexFront(b: Byte)
    ensures HexPair(b)[0] == '0' <==> b < 16
    ensures b < 16 ==> (HexPair(b)[1] == '0' <==> b == 0)
  {
  }

  /** A leading '0' adds nothing. */
  lemma {:induction false} HexLeadingZero(t: seq<char>)
    ensures HexValue(['0'] + t) == HexValue(t)
  {
    if |t| > 0 {
      var u := ['0'] + t;
      assert u[..|u| - 1] == ['0'] + t[..|t| - 1];
      HexLeadingZero(t[..|t| - 1]);
    } else {
      assert (['0'] + t)[..0] == [];
    }
  }

  /** The end of operator<<: dropping a leading '0' from the digits of the bytes from
      the first nonzero one on leaves the numeral of the value without leading zeros. */
  lemma HexTrim(v: seq<Byte>, first: int, i: int, hex: seq<char>)
    requires 0 <= first < |v| && i == |v| && (v[first] != 0 || first == |v| - 1)
    requires forall k | 0 <= k < first :: v[k] == 0
    requires |hex| == 2 * (i - first) && HexValue(hex) == Value(v[first..i]) && HexDigits(hex)
    requires hex[..2] == HexPair(v[first])
    ensures hex[0] == '0' ==> HexValue(hex[1..]) == Value(v) && HexDigits(hex[1..]) && (hex[1] != '0' || hex[1..] == "0")
    ensures hex[0] != '0' ==> HexValue(hex) == Value(v)
  {
    assert v[first..] == v[first..i];
    LeadingDigit(v, first);
    var b := v[first];
    HexFront(b);
    assert hex[0] == HexPair(b)[0] && hex[1] == HexPair(b)[1];
    if hex[0] == '0' {
      assert hex == ['0'] + hex[1..];
      HexLeadingZero(hex[1..]);
      if b == 0 {
        assert |hex| == 2;
      }
    }
  }

  /** The text operator<< writes for value (number.cpp:237-253): two hexadecimal digits
      per byte from the first nonzero byte on, with a leading '0' dropped. It is the
      upper-case hexadecimal numeral of the unsigned value, without leading zeros. */
  method HexString(v: seq<Byte>) returns (s: seq<char>)
    requires |v| >= 1
    ensures |s| >= 1 && HexValue(s) == Value(v) && HexDigits(s)
    ensures s[0] != '0' || s == "0"
  {
    var first := FirstDigit(v);
    var hex: seq<char> := [];
    var i := first;
    assert v[first..i] == [];
    while i < |v|
      invariant first <= i <= |v| && |hex| == 2 * (i - first)
      invariant HexValue(hex) == Value(v[first..i]) && HexDigits(hex)
      invariant i > first ==> hex[..2] == HexPair(v[first])
    {
      ghost var h, before := i, hex;
      hex := hex + HexPair(v[i]);
      i := i + 1;
      HexAppend(before, v[h], hex);
      ValueSnoc(v, first, h, i);
    }
    HexTrim(v, first, i, hex);
    if hex[0] == '0' {
      s := hex[1..];
    } else {
      s := hex;
    }
  }
}
