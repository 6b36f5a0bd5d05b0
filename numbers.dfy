/** The number parsers the header decoder calls: `u8::from_str_radix(_, 16)` for
    checksums, `str::parse::<i32>` and `str::parse::<f64>` for alarm tokens. */
module Numbers {
  import opened Outcomes
  import opened Text

  const PLUS: Byte := 0x2B
  const MINUS: Byte := 0x2D
  const DOT: Byte := 0x2E

  const I32_MIN: int := -0x8000_0000
  const I32_MAX: int := 0x7FFF_FFFF

  /** `char::to_digit(radix)` for the two radixes the decoder uses. */
  function DigitValue(b: Byte, radix: nat): (r: Option<nat>)
    requires radix == 10 || radix == 16
    ensures r.Some? ==> r.value < radix
    ensures r.Some? <==> (0x30 <= b <= 0x39 || (radix == 16 && (0x41 <= b <= 0x46 || 0x61 <= b <= 0x66)))
  {
    if b == 0x30 then Some(0) else if b == 0x31 then Some(1)
    else if b == 0x32 then Some(2) else if b == 0x33 then Some(3)
    else if b == 0x34 then Some(4) else if b == 0x35 then Some(5)
    else if b == 0x36 then Some(6) else if b == 0x37 then Some(7)
    else if b == 0x38 then Some(8) else if b == 0x39 then Some(9)
    else if radix != 16 then None
    else if b == 0x41 || b == 0x61 then Some(10) else if b == 0x42 || b == 0x62 then Some(11)
    else if b == 0x43 || b == 0x63 then Some(12) else if b == 0x44 || b == 0x64 then Some(13)
    else if b == 0x45 || b == 0x65 then Some(14) else if b == 0x46 || b == 0x66 then Some(15)
    else None
  }

  /** The upper-case digit bytes, indexed by their value. */
  const DIGITS: seq<Byte> := [0x30, 0x31, 0x32, 0x33, 0x34, 0x35, 0x36, 0x37, 0x38, 0x39,
                               0x41, 0x42, 0x43, 0x44, 0x45, 0x46]

  /** The digit byte for `n`, the inverse of `DigitValue`. */
  function DigitByte(n: nat): (b: Byte)
    requires n < 16
    ensures DigitValue(b, 16) == Some(n)
    ensures n < 10 ==> DigitValue(b, 10) == Some(n)
  {
    DIGITS[n]
  }

  predicate AllDigits(s: seq<Byte>, radix: nat)
    requires radix == 10 || radix == 16
  {
    forall i :: 0 <= i < |s| ==> DigitValue(s[i], radix).Some?
  }

  function Pow(radix: nat, n: nat): (p: nat)
    ensures p >= 1 || radix == 0
  {
    if n == 0 then 1 else radix * Pow(radix, n - 1)
  }

  /** The value of a run of digits, most significant first, accumulated as
      `value * radix + digit` the way `from_str_radix` does. */
  function DigitsValue(s: seq<Byte>, radix: nat): (r: Option<nat>)
    requires radix == 10 || radix == 16
    ensures r.Some? <==> AllDigits(s, radix)
    decreases |s|
  {
    if s == [] then Some(0)
    else
      var init := DigitsValue(s[..|s| - 1], radix);
      var last := DigitValue(s[|s| - 1], radix);
      assert AllDigits(s, radix) <==> AllDigits(s[..|s| - 1], radix) && last.Some? by {
        assert forall i :: 0 <= i < |s| - 1 ==> s[..|s| - 1][i] == s[i];
      }
      if init.Some? && last.Some? then Some(init.value * radix + last.value) else None
  }

  /** Appending one digit multiplies by the radix and adds the digit. */
  lemma DigitsValueSnoc(s: seq<Byte>, b: Byte, radix: nat)
    requires radix == 10 || radix == 16
    requires AllDigits(s, radix) && DigitValue(b, radix).Some?
    ensures DigitsValue(s + [b], radix).Some?
    ensures DigitsValue(s + [b], radix).value
            == DigitsValue(s, radix).value * radix + DigitValue(b, radix).value
  {
    var t := s + [b];
    assert t != [];
    assert t[..|t| - 1] == s;
    assert t[|t| - 1] == b;
  }

  lemma ShiftStep(va: nat, p: nat, vb: nat, radix: nat, d: nat)
    ensures (va * p + vb) * radix + d == va * (radix * p) + (vb * radix + d)
  {
  }

  /** Digits of `a` followed by digits of `b`: `a`'s value shifted by `|b|` places. */
  lemma {:induction false} DigitsValueConcat(a: seq<Byte>, b: seq<Byte>, radix: nat)
    requires radix == 10 || radix == 16
    requires AllDigits(a, radix) && AllDigits(b, radix)
    ensures DigitsValue(a + b, radix).Some?
    ensures DigitsValue(a + b, radix).value
            == DigitsValue(a, radix).value * Pow(radix, |b|) + DigitsValue(b, radix).value
    decreases |b|
  {
    if b == [] {
      assert a + b == a;
    } else {
      var b' := b[..|b| - 1];
      var last := b[|b| - 1];
      assert b == b' + [last];
      assert a + b == (a + b') + [last];
      DigitsValueConcat(a, b', radix);
      DigitsValueSnoc(a + b', last, radix);
      DigitsValueSnoc(b', last, radix);
      ShiftStep(DigitsValue(a, radix).value, Pow(radix, |b'|), DigitsValue(b', radix).value,
                radix, DigitValue(last, radix).value);
    }
  }

  /** `from_str_radix`: a lone sign is rejected, `+` may lead, `-` may lead only
      a signed type, every other byte must be a digit, and the value must fit
      `lo..=hi`. Rust checks overflow digit by digit; because every prefix of a
      digit run is worth at most the whole run, checking the final value is the
      same test. */
  function FromStrRadix(s: seq<Byte>, radix: nat, signed: bool, lo: int, hi: int): (r: Option<int>)
    requires radix == 10 || radix == 16
    ensures r.Some? ==> lo <= r.value <= hi
    ensures r.Some? ==> s != [] && s != [PLUS] && s != [MINUS]
  {
    if s == [] then None
    else if |s| == 1 && (s[0] == PLUS || s[0] == MINUS) then None
    else
      var (negative, digits) := SignSplit(s, signed);
      match DigitsValue(digits, radix)
      case None => None
      case Some(v) =>
        var x := if negative then -(v as int) else v;
        if lo <= x <= hi then Some(x) else None
  }

  /** The sign `from_str_radix` reads off the front, and the digits after it:
      a `+` is always skipped, a `-` only for a signed type. */
  function SignSplit(s: seq<Byte>, signed: bool): (r: (bool, seq<Byte>))
    requires s != []
    ensures r.0 <==> signed && s[0] == MINUS
    ensures r.1 == if s[0] == PLUS || r.0 then s[1..] else s
  {
    var negative := signed && s[0] == MINUS;
    (negative, if s[0] == PLUS || negative then s[1..] else s)
  }

  /** `u8::from_str_radix(s, 16)`. */
  function ParseHexU8(s: seq<Byte>): (r: Option<Byte>)
    ensures r.Some? ==> s != [] && AllDigits(if s[0] == PLUS then s[1..] else s, 16)
    ensures r.Some? ==> MINUS !in s
  {
    match FromStrRadix(s, 16, false, 0, 255)
    case None => None
    case Some(v) => Some(v as Byte)
  }

  /** `str::parse::<i32>`, that is `i32::from_str_radix(s, 10)`. */
  function ParseI32(s: seq<Byte>): (r: Option<int>)
    ensures r.Some? ==> I32_MIN <= r.value <= I32_MAX
    ensures r.Some? ==> s != [] && AllDigits(if s[0] == PLUS || s[0] == MINUS then s[1..] else s, 10)
  {
    FromStrRadix(s, 10, true, I32_MIN, I32_MAX)
  }

  /** A decimal number `mantissa / 10^scale`, the exact value of a decimal float literal. */
  datatype Decimal = Decimal(mantissa: int, scale: nat)

  ghost function Value(d: Decimal): real
  {
    d.mantissa as real / Pow(10, d.scale) as real
  }

  /** `str::parse::<f64>` on literals without exponent: an optional sign, then
      digits with at most one `.`, at least one digit in all. The value is kept
      exact; the rounding to the nearest `f64` is not modelled. */
  function ParseF64(s: seq<Byte>): (r: Option<Decimal>)
    ensures r.Some? ==> r.value.scale < |s|
    ensures r.Some? && DOT !in s ==> r.value.scale == 0
  {
    if s != [] && (s[0] == PLUS || s[0] == MINUS) then
      match ParseUnsignedDecimal(s[1..])
      case None => None
      case Some(d) => Some(if s[0] == MINUS then Decimal(-d.mantissa, d.scale) else d)
    else ParseUnsignedDecimal(s)
  }

  /** The sign-free part of a float literal: `whole[.fraction]`, at least one digit. */
  function ParseUnsignedDecimal(body: seq<Byte>): (r: Option<Decimal>)
    ensures r.Some? ==> r.value.mantissa >= 0 && r.value.scale < |body|
    ensures r.Some? && DOT !in body ==> r.value.scale == 0
  {
    var whole := match SplitOnce(body, DOT) case None => body case Some(parts) => parts.0;
    var fraction := match SplitOnce(body, DOT) case None => [] case Some(parts) => parts.1;
    if |whole| + |fraction| == 0 then None
    else match DigitsValue(whole + fraction, 10)
      case None => None
      case Some(m) => Some(Decimal(m, |fraction|))
  }

  /** The model of `x / 10.0` on a parsed literal: one more decimal place. */
  function Tenth(d: Decimal): (r: Decimal)
    ensures Value(r) == Value(d) / 10.0
  {
    var p := Pow(10, d.scale) as real;
    assert Pow(10, d.scale + 1) as real == 10.0 * p;
    DivideByTen(d.mantissa as real, p);
    Decimal(d.mantissa, d.scale + 1)
  }

  lemma DivideByTen(m: real, p: real)
    requires p > 0.0
    ensures (m / p) / 10.0 == m / (10.0 * p)
  {
    var q := m / p;
    assert q * p == m;
    assert (q / 10.0) * (10.0 * p) == q * p;
  }

  /** Decimal digits of `n` with no leading zero. */
  function Render(n: nat): (r: seq<Byte>)
    ensures r != [] && AllDigits(r, 10)
  {
    if n < 10 then [DigitByte(n)] else Render(n / 10) + [DigitByte(n % 10)]
  }

  lemma {:induction false} RenderValue(n: nat)
    ensures DigitsValue(Render(n), 10) == Some(n)
  {
    if n >= 10 {
      RenderValue(n / 10);
      DigitsValueSnoc(Render(n / 10), DigitByte(n % 10), 10);
      assert n == n / 10 * 10 + n % 10;
    } else {
      DigitsValueSnoc([], DigitByte(n), 10);
      assert [] + [DigitByte(n)] == Render(n);
    }
  }

  /** `parse::<i32>` reads back every rendered i32, with any sign. */
  lemma ParseI32Render(n: nat)
    ensures n <= I32_MAX ==> ParseI32(Render(n)) == Some(n)
    ensures n <= I32_MAX ==> ParseI32([PLUS] + Render(n)) == Some(n)
    ensures n <= -I32_MIN ==> ParseI32([MINUS] + Render(n)) == Some(-(n as int))
    ensures n > I32_MAX ==> ParseI32(Render(n)) == None
  {
    RenderValue(n);
    var r := Render(n);
    UnsignedRender(n);
    SignedDigits(PLUS, r, I32_MIN, I32_MAX);
    SignedDigits(MINUS, r, I32_MIN, I32_MAX);
  }

  lemma UnsignedRender(n: nat)
    ensures n <= I32_MAX ==> ParseI32(Render(n)) == Some(n)
    ensures n > I32_MAX ==> ParseI32(Render(n)) == None
  {
    RenderValue(n);
    var r := Render(n);
    NoSignOrDot(r, 10);
    if n <= I32_MAX {
      FromStrRadixOfDigits(r, 10, true, I32_MIN, I32_MAX);
    } else {
      FromStrRadixOverflow(r, 10, true, I32_MIN, I32_MAX);
    }
  }

  /** A run of digits above the range is rejected. */
  lemma FromStrRadixOverflow(s: seq<Byte>, radix: nat, signed: bool, lo: int, hi: int)
    requires radix == 10 || radix == 16
    requires s != [] && AllDigits(s, radix)
    requires DigitsValue(s, radix).value > hi
    ensures FromStrRadix(s, radix, signed, lo, hi) == None
  {
    NoSignOrDot(s, radix);
  }

  /** A sign followed by decimal digits, as a signed `from_str_radix` reads it. */
  lemma SignedDigits(sign: Byte, s: seq<Byte>, lo: int, hi: int)
    requires sign == PLUS || sign == MINUS
    requires s != [] && AllDigits(s, 10)
    ensures var v := DigitsValue(s, 10).value;
            var x := if sign == MINUS then -(v as int) else v;
            FromStrRadix([sign] + s, 10, true, lo, hi) == if lo <= x <= hi then Some(x) else None
  {
    SignedValue(sign, s, lo, hi);
  }

  lemma SignedValue(sign: Byte, s: seq<Byte>, lo: int, hi: int)
    requires sign == PLUS || sign == MINUS
    requires s != []
    ensures FromStrRadix([sign] + s, 10, true, lo, hi)
            == match DigitsValue(s, 10)
               case None => None
               case Some(v) =>
                 var x := if sign == MINUS then -(v as int) else v;
                 if lo <= x <= hi then Some(x) else None
  {
    SignSplitOf(sign, s);
  }

  lemma SignSplitOf(sign: Byte, s: seq<Byte>)
    requires sign == PLUS || sign == MINUS
    requires s != []
    ensures SignSplit([sign] + s, true) == (sign == MINUS, s)
  {
    var t := [sign] + s;
    assert t[0] == sign && t[1..] == s;
  }

  /** Digits are never a sign or a dot. */
  lemma NoSignOrDot(s: seq<Byte>, radix: nat)
    requires radix == 10 || radix == 16
    requires AllDigits(s, radix)
    ensures PLUS !in s && MINUS !in s && DOT !in s
  {
    forall i | 0 <= i < |s| ensures s[i] != PLUS && s[i] != MINUS && s[i] != DOT {
      assert DigitValue(s[i], radix).Some?;
    }
  }

  /** A token `parse::<i32>` accepts is read by `parse::<f64>` as the same whole number. */
  lemma ParseF64OfInteger(s: seq<Byte>)
    requires ParseI32(s).Some?
    ensures ParseF64(s) == Some(Decimal(ParseI32(s).value, 0))
  {
    var body := if s[0] == PLUS || s[0] == MINUS then s[1..] else s;
    NoSignOrDot(body, 10);
    assert body + [] == body;
    assert ParseUnsignedDecimal(body) == Some(Decimal(DigitsValue(body, 10).value, 0));
  }

  /** `whole.fraction` parses to `whole + fraction / 10^|fraction|`. */
  lemma ParseF64Fraction(whole: seq<Byte>, fraction: seq<Byte>)
    requires AllDigits(whole, 10) && AllDigits(fraction, 10) && whole != []
    ensures ParseF64(whole + [DOT] + fraction).Some?
    ensures ParseF64(whole + [DOT] + fraction).value.mantissa
            == DigitsValue(whole, 10).value * Pow(10, |fraction|) + DigitsValue(fraction, 10).value
    ensures ParseF64(whole + [DOT] + fraction).value.scale == |fraction|
  {
    UnsignedFraction(whole, fraction);
    FractionParts(whole, fraction);
    DigitsValueConcat(whole, fraction, 10);
  }

  lemma UnsignedFraction(whole: seq<Byte>, fraction: seq<Byte>)
    requires AllDigits(whole, 10) && whole != []
    ensures ParseF64(whole + [DOT] + fraction) == ParseUnsignedDecimal(whole + [DOT] + fraction)
  {
    NoSignOrDot(whole, 10);
    assert (whole + [DOT] + fraction)[0] == whole[0];
  }

  lemma FractionParts(whole: seq<Byte>, fraction: seq<Byte>)
    requires AllDigits(whole, 10) && AllDigits(fraction, 10) && whole != []
    ensures DigitsValue(whole + fraction, 10).Some?
    ensures ParseUnsignedDecimal(whole + [DOT] + fraction)
            == Some(Decimal(DigitsValue(whole + fraction, 10).value, |fraction|))
  {
    DigitsValueConcat(whole, fraction, 10);
    NoSignOrDot(whole, 10);
    SplitOnceAt(whole, fraction, DOT);
  }

  /** A run of digits in range is accepted by `from_str_radix` with its own value. */
  lemma FromStrRadixOfDigits(s: seq<Byte>, radix: nat, signed: bool, lo: int, hi: int)
    requires radix == 10 || radix == 16
    requires s != [] && AllDigits(s, radix)
    requires lo <= DigitsValue(s, radix).value <= hi
    ensures FromStrRadix(s, radix, signed, lo, hi) == Some(DigitsValue(s, radix).value)
  {
    NoSignOrDot(s, radix);
  }

  lemma ByteAsNat(b: Byte)
    ensures b as nat < 256 && (b as nat) as Byte == b
  {
  }

  /** The two upper-case hexadecimal digits of a checksum byte, as a writer emits them. */
  function Hex2(b: Byte): (r: seq<Byte>)
    ensures |r| == 2 && AllDigits(r, 16)
  {
    [DigitByte(b as nat / 16), DigitByte(b as nat % 16)]
  }

  /** Both digits of a rendering are printable ASCII. */
  lemma Hex2Ascii(b: Byte)
    ensures forall i :: 0 <= i < |Hex2(b)| ==> 0x30 <= Hex2(b)[i] <= 0x46
  {
    assert forall n :: 0 <= n < |DIGITS| ==> 0x30 <= DIGITS[n] <= 0x46;
  }

  /** The value of the two digits is the byte. */
  lemma Hex2Value(b: Byte)
    ensures DigitsValue(Hex2(b), 16) == Some(b as nat)
  {
    var n := b as nat;
    ByteAsNat(b);
    var r := Hex2(b);
    DigitsValueSnoc([], r[0], 16);
    assert [] + [r[0]] == [r[0]];
    DigitsValueSnoc([r[0]], r[1], 16);
    assert [r[0]] + [r[1]] == r;
    assert (n / 16) * 16 + n % 16 == n;
  }

  /** `u8::from_str_radix(_, 16)` reads back every two-digit rendering. */
  lemma ParseHex2(b: Byte)
    ensures ParseHexU8(Hex2(b)) == Some(b)
  {
    Hex2Value(b);
    ByteAsNat(b);
    FromStrRadixOfDigits(Hex2(b), 16, false, 0, 255);
  }

  /** A sign-free run of hex digits worth more than 255 does not fit a `u8`. */
  lemma ParseHexOverflow(s: seq<Byte>)
    requires AllDigits(s, 16) && s != []
    requires DigitsValue(s, 16).value > 255
    ensures ParseHexU8(s) == None
  {
    assert DigitValue(s[0], 16).Some?;
  }
}
