/** `int_to_float_str` of the DSP test program: renders the fixed-point integer
    `decimal`, read as `decimal / 10^precision`, as decimal text.

    The C function builds a printf format at run time (`"%d.%0"` followed by the
    digit count and a `d`, with a `-` in front for negative values) and prints the
    magnitudes of C's truncating quotient and remainder with it. The model keeps
    those steps: `Render` is the part of `snprintf` that such formats use, and
    `FloatStr` states what the text means. */
module FixedPoint {
  import opened Opt
  import opened CInt

  const NUL: char := '\0'

  function Pow10(n: nat): (p: nat)
    ensures p >= 1
  {
    if n == 0 then 1 else 10 * Pow10(n - 1)
  }

  predicate IsDigit(c: char) {
    '0' <= c <= '9'
  }

  predicate AllDigits(s: string) {
    forall i :: 0 <= i < |s| ==> IsDigit(s[i])
  }

  function DigitValue(c: char): (d: nat)
    requires IsDigit(c)
    ensures d < 10
  {
    c as int - '0' as int
  }

  function DigitChar(d: nat): (c: char)
    requires d < 10
    ensures IsDigit(c) && DigitValue(c) == d
  {
    ('0' as int + d) as char
  }

  /** The decimal digits of `n`, most significant first, without leading zeros:
      what `%d` and `%u` print for a non-negative value. */
  function Dec(n: nat): (s: string)
    ensures 1 <= |s| && AllDigits(s)
    decreases n
  {
    if n < 10 then [DigitChar(n)] else Dec(n / 10) + [DigitChar(n % 10)]
  }

  function Fill(c: char, k: nat): (s: string)
    ensures |s| == k && forall i :: 0 <= i < k ==> s[i] == c
  {
    seq(k, _ => c)
  }

  /** The number a string of decimal digits denotes. */
  function DigitsValue(s: string): nat
    requires AllDigits(s)
    decreases |s|
  {
    if s == [] then 0 else DigitsValue(s[..|s| - 1]) * 10 + DigitValue(s[|s| - 1])
  }

  // ---------------------------------------------------------------------------
  // Facts about decimal digits

  lemma {:induction false} DecValue(n: nat)
    ensures DigitsValue(Dec(n)) == n
    decreases n
  {
    if n >= 10 {
      var s := Dec(n);
      assert s[..|s| - 1] == Dec(n / 10);
      DecValue(n / 10);
    }
  }

  /** Digits side by side denote the left part shifted by the right part's length. */
  lemma {:induction false} DigitsValueAppend(x: string, y: string)
    requires AllDigits(x) && AllDigits(y)
    ensures AllDigits(x + y)
    ensures DigitsValue(x + y) == DigitsValue(x) * Pow10(|y|) + DigitsValue(y)
    decreases |y|
  {
    if y == [] {
      assert x + y == x;
    } else {
      var y' := y[..|y| - 1];
      assert (x + y)[..|x + y| - 1] == x + y';
      DigitsValueAppend(x, y');
      assert DigitsValue(x + y) == DigitsValue(x + y') * 10 + DigitValue(y[|y| - 1]);
      assert DigitsValue(y) == DigitsValue(y') * 10 + DigitValue(y[|y| - 1]);
      ShiftDigit(DigitsValue(x), Pow10(|y'|), DigitsValue(y'), DigitValue(y[|y| - 1]));
    }
  }

  /** Appending one digit to `x` followed by `y`. */
  lemma ShiftDigit(x: int, p: int, y: int, d: int)
    ensures (x * p + y) * 10 + d == x * (p * 10) + (y * 10 + d)
  {
  }

  lemma {:induction false} ZerosValue(k: nat)
    ensures AllDigits(Fill('0', k)) && DigitsValue(Fill('0', k)) == 0
    decreases k
  {
    if k > 0 {
      assert Fill('0', k)[..k - 1] == Fill('0', k - 1);
      ZerosValue(k - 1);
    }
  }

  /** A value below 10^k takes at most k digits. */
  lemma {:induction false} DecLength(n: nat, k: nat)
    requires 1 <= k && n < Pow10(k)
    ensures |Dec(n)| <= k
    decreases n
  {
    if n >= 10 {
      assert k >= 2;
      assert n / 10 < Pow10(k - 1);
      DecLength(n / 10, k - 1);
    }
  }

  lemma {:induction false} Pow10Monotone(i: nat, j: nat)
    requires i <= j
    ensures Pow10(i) <= Pow10(j)
    decreases j
  {
    if i < j {
      Pow10Monotone(i, j - 1);
    }
  }

  // ---------------------------------------------------------------------------
  // The part of snprintf these formats use

  /** A `%d` conversion specification: the `0` flag and the minimum field width. */
  datatype Conversion = Conversion(zeroPad: bool, width: nat)

  /** A directive read after a `%`, and the number of characters it spans. */
  datatype Directive = Directive(conv: Conversion, length: nat)

  /** `%d` of `v`: sign and digits, padded to the field width with zeros after the
      sign (`0` flag) or with spaces before it. */
  function FormatInt(v: int, conv: Conversion): string {
    var sign := if v < 0 then "-" else "";
    var digits := Dec(Abs(v));
    var pad := if |sign| + |digits| < conv.width then conv.width - (|sign| + |digits|) else 0;
    if conv.zeroPad then sign + Fill('0', pad) + digits else Fill(' ', pad) + sign + digits
  }

  function LeadingZeros(s: string): (k: nat)
    ensures k <= |s|
    ensures forall i :: 0 <= i < k ==> s[i] == '0'
    ensures k < |s| ==> s[k] != '0'
    decreases |s|
  {
    if s != [] && s[0] == '0' then 1 + LeadingZeros(s[1..]) else 0
  }

  function LeadingDigits(s: string): (k: nat)
    ensures k <= |s|
    ensures AllDigits(s[..k])
    ensures k < |s| ==> !IsDigit(s[k])
    decreases |s|
  {
    if s != [] && IsDigit(s[0]) then 1 + LeadingDigits(s[1..]) else 0
  }

  /** Reads the directive that follows a `%`: any number of `0` flags, an optional
      width (digits not starting with 0), then the conversion `d`. */
  function ParseDirective(s: string): (d: Option<Directive>)
    ensures d.Some? ==> 1 <= d.value.length <= |s| && s[d.value.length - 1] == 'd'
  {
    var z := LeadingZeros(s);
    var w := LeadingDigits(s[z..]);
    if z + w < |s| && s[z + w] == 'd' then
      assert s[z..][..w] == s[z..z + w];
      Some(Directive(Conversion(z > 0, DigitsValue(s[z..z + w])), z + w + 1))
    else
      None
  }

  /** `head` followed by the text of the rest of the format, if that succeeded. */
  function Emit(head: string, rest: Option<string>): (r: Option<string>)
    ensures r.Some? <==> rest.Some?
  {
    if rest.None? then None else Some(head + rest.value)
  }

  /** `snprintf` without the size limit: the text `fmt` produces with `args`, or
      None for a format these rules do not cover or too few arguments. */
  function Render(fmt: string, args: seq<int>): (r: Option<string>)
    decreases |fmt|
  {
    if fmt == [] then Some([])
    else if fmt[0] != '%' then Emit([fmt[0]], Render(fmt[1..], args))
    else
      var d := ParseDirective(fmt[1..]);
      if d.None? || args == [] then None
      else Emit(FormatInt(args[0], d.value.conv), Render(fmt[1 + d.value.length..], args[1..]))
  }

  /** What `snprintf` stores in a buffer of `size` bytes, before the terminator:
      at most `size - 1` characters of the text. */
  function Truncate(s: string, size: nat): (t: string)
    requires size >= 1
    ensures |t| < size && |t| <= |s| && t == s[..|t|]
    ensures |s| < size ==> t == s
  {
    if |s| < size then s else s[..size - 1]
  }

  // ---------------------------------------------------------------------------
  // The format int_to_float_str builds, and what it prints

  function Sign(negative: bool): string {
    if negative then "-" else ""
  }

  /** The format string: an optional `-`, then `%d.%0`, then what
      `snprintf(digits, 3, "%" PRIu32 "d", i)` stores, the loop count followed
      by a literal `d`, cut to two characters. */
  function FloatFormat(negative: bool, count: nat): string {
    Sign(negative) + "%d.%0" + Truncate(Dec(count) + "d", 3)
  }

  /** The number of fraction digits printed. With precision 0 the format's
      conversion is `%00d` (two `0` flags, no width), which prints the zero
      remainder as a single `0`. */
  function FractionWidth(precision: nat): (w: nat)
    ensures w >= 1 && w >= precision
  {
    if precision == 0 then 1 else precision
  }

  /** `n` in decimal, zero-padded on the left to `width` digits. */
  function ZeroPad(n: nat, width: nat): (s: string)
    ensures AllDigits(s)
  {
    Fill('0', if |Dec(n)| < width then width - |Dec(n)| else 0) + Dec(n)
  }

  /** The text `int_to_float_str` leaves in its buffer: a `-` exactly when
      `decimal` is negative, the magnitude of the truncated quotient by
      10^precision, a point, and the magnitude of the remainder. */
  function FloatStr(decimal: int, precision: nat): string {
    var divider := Pow10(precision);
    Sign(decimal < 0)
      + (Dec(Abs(CDiv(decimal, divider))) + "." + ZeroPad(Abs(CRem(decimal, divider)), FractionWidth(precision)))
  }

  /** A character other than `%` is copied to the output. */
  lemma RenderLiteral(fmt: string, args: seq<int>, out: string)
    requires fmt != [] && fmt[0] != '%' && Render(fmt[1..], args) == Some(out)
    ensures Render(fmt, args) == Some([fmt[0]] + out)
  {
  }

  /** A `%` directive of `n` characters prints the next argument as it specifies. */
  lemma RenderDirective(fmt: string, args: seq<int>, conv: Conversion, n: nat, out: string)
    requires fmt != [] && fmt[0] == '%' && ParseDirective(fmt[1..]) == Some(Directive(conv, n))
    requires args != [] && Render(fmt[1 + n..], args[1..]) == Some(out)
    ensures Render(fmt, args) == Some(FormatInt(args[0], conv) + out)
  {
  }

  /** `%d`: no flag, no width. */
  lemma ParsePlain(s: string)
    requires s != [] && s[0] == 'd'
    ensures ParseDirective(s) == Some(Directive(Conversion(false, 0), 1))
  {
    assert LeadingZeros(s) == 0;
    assert s[0..] == s;
    assert LeadingDigits(s) == 0;
    assert s[0..0] == [];
  }

  /** `%00d`: two `0` flags and no width. */
  lemma ParseDoubleZero(s: string)
    requires |s| >= 3 && s[0] == '0' && s[1] == '0' && s[2] == 'd'
    ensures ParseDirective(s) == Some(Directive(Conversion(true, 0), 3))
  {
    assert LeadingZeros(s[2..]) == 0;
    assert s[1..][1..] == s[2..];
    assert LeadingZeros(s) == 2;
    assert LeadingDigits(s[2..]) == 0;
    assert s[2..2] == [];
  }

  /** `%0Nd` with N a non-zero digit: the `0` flag and width N. */
  lemma ParseZeroWidth(s: string)
    requires |s| >= 3 && s[0] == '0' && '1' <= s[1] <= '9' && s[2] == 'd'
    ensures ParseDirective(s) == Some(Directive(Conversion(true, DigitValue(s[1])), 3))
  {
    assert LeadingZeros(s[1..]) == 0;
    assert LeadingZeros(s) == 1;
    assert s[1..][1..] == s[2..];
    assert LeadingDigits(s[2..]) == 0;
    assert LeadingDigits(s[1..]) == 1;
    assert s[1..2] == [s[1]];
    assert [s[1]][..0] == [];
    assert DigitsValue([s[1]]) == DigitValue(s[1]);
  }

  /** `%0<width>d` of a non-negative value is the value zero-padded to the width;
      a width of 0 pads nothing. */
  lemma FormatIntZeroPad(b: nat, width: nat)
    ensures FormatInt(b, Conversion(true, width)) == ZeroPad(b, width)
    ensures FormatInt(b, Conversion(false, 0)) == Dec(b)
  {
    assert Abs(b) == b;
    assert Fill('0', 0) == [];
    assert Fill(' ', 0) == [];
  }

  /** The fraction conversion `%0` followed by the digit count and `d` prints the
      remainder zero-padded to FractionWidth digits. */
  lemma RenderFraction(fmt: string, precision: nat, b: nat)
    requires precision <= 9 && b < Pow10(precision)
    requires fmt == ['%', '0', DigitChar(precision), 'd']
    ensures Render(fmt, [b]) == Some(ZeroPad(b, FractionWidth(precision)))
  {
    var conv := Conversion(true, if precision == 0 then 0 else precision);
    if precision == 0 {
      ParseDoubleZero(fmt[1..]);
    } else {
      ParseZeroWidth(fmt[1..]);
    }
    assert fmt[4..] == [];
    assert [b][1..] == [];
    RenderDirective(fmt, [b], conv, 3, []);
    FormatIntZeroPad(b, conv.width);
    assert ZeroPad(b, conv.width) + [] == ZeroPad(b, FractionWidth(precision));
  }

  /** `%d.%0` with the digit count and `d`: the integer part, the point and the
      zero-padded fraction. */
  lemma RenderIntPoint(fmt: string, precision: nat, a: nat, b: nat)
    requires precision <= 9 && b < Pow10(precision)
    requires fmt == ['%', 'd', '.', '%', '0', DigitChar(precision), 'd']
    ensures Render(fmt, [a, b]) == Some(Dec(a) + "." + ZeroPad(b, FractionWidth(precision)))
  {
    var fracOut := ZeroPad(b, FractionWidth(precision));
    RenderFraction(fmt[3..], precision, b);
    RenderLiteral(fmt[2..], [b], fracOut);
    assert fmt[2..][1..] == fmt[3..];
    ParsePlain(fmt[1..]);
    FormatIntZeroPad(a, 0);
    assert [a, b][1..] == [b];
    RenderDirective(fmt, [a, b], Conversion(false, 0), 1, ['.'] + fracOut);
    assert Dec(a) + (['.'] + fracOut) == Dec(a) + "." + fracOut;
  }

  /** The format is the optional sign followed by the seven characters
      `%d.%0`, the digit for `precision` and `d`. */
  lemma FloatFormatShape(negative: bool, precision: nat)
    requires precision <= 9
    ensures FloatFormat(negative, precision)
         == Sign(negative) + ['%', 'd', '.', '%', '0', DigitChar(precision), 'd']
  {
    var c := DigitChar(precision);
    assert Dec(precision) == [c];
    assert Truncate(Dec(precision) + "d", 3) == [c, 'd'];
  }

  /** The format built for `decimal` and `precision` prints exactly FloatStr. */
  lemma RenderFloatFormat(decimal: int, precision: nat)
    requires precision <= 9
    ensures Render(FloatFormat(decimal < 0, precision),
                   [Abs(CDiv(decimal, Pow10(precision))), Abs(CRem(decimal, Pow10(precision)))])
         == Some(FloatStr(decimal, precision))
  {
    var divider := Pow10(precision);
    var a, b := Abs(CDiv(decimal, divider)), Abs(CRem(decimal, divider));
    AbsDivRem(decimal, divider);
    var tail := ['%', 'd', '.', '%', '0', DigitChar(precision), 'd'];
    var fmt := FloatFormat(decimal < 0, precision);
    var out := Dec(a) + "." + ZeroPad(b, FractionWidth(precision));
    FloatFormatShape(decimal < 0, precision);
    RenderIntPoint(tail, precision, a, b);
    if decimal < 0 {
      assert fmt[0] == '-' && fmt[1..] == tail;
      RenderLiteral(fmt, [a, b], out);
      assert FloatStr(decimal, precision) == ['-'] + out;
    } else {
      assert fmt == tail;
      assert FloatStr(decimal, precision) == out;
    }
  }

  /** The text starts with `-` exactly when `decimal` is negative, also when the
      integer part printed is 0 (-5 at precision 3 gives "-0.005"). */
  lemma FloatStrSign(decimal: int, precision: nat)
    ensures |FloatStr(decimal, precision)| >= 3
    ensures FloatStr(decimal, precision)[0] == '-' <==> decimal < 0
  {
    var digits := Dec(Abs(CDiv(decimal, Pow10(precision))));
    var rest := digits + "." + ZeroPad(Abs(CRem(decimal, Pow10(precision))), FractionWidth(precision));
    assert rest[0] == digits[0] && IsDigit(digits[0]);
    if decimal < 0 {
      assert FloatStr(decimal, precision) == ['-'] + rest;
    } else {
      assert FloatStr(decimal, precision) == rest;
    }
  }

  /** The fraction field is exactly FractionWidth(precision) digits wide. */
  lemma FractionLength(b: nat, precision: nat)
    requires b < Pow10(precision)
    ensures |ZeroPad(b, FractionWidth(precision))| == FractionWidth(precision)
  {
    Pow10Monotone(precision, FractionWidth(precision));
    DecLength(b, FractionWidth(precision));
  }

  lemma Pow10Ten()
    ensures Pow10(10) == 10_000_000_000
  {
    assert Pow10(0) == 1;
    assert Pow10(1) == 10;
    assert Pow10(2) == 100;
    assert Pow10(3) == 1_000;
    assert Pow10(4) == 10_000;
    assert Pow10(5) == 100_000;
    assert Pow10(6) == 1_000_000;
    assert Pow10(7) == 10_000_000;
    assert Pow10(8) == 100_000_000;
    assert Pow10(9) == 1_000_000_000;
  }

  /** The whole text is at most 21 characters when `decimal` is a C int and the
      precision at most 9, so it always fits the 50 bytes `snprintf` may write,
      terminator included. */
  lemma FloatStrLength(decimal: int, precision: nat)
    requires IsInt32(decimal) && precision <= 9
    ensures |FloatStr(decimal, precision)| <= 21
    ensures |FloatStr(decimal, precision)| + 1 <= 50
  {
    var divider := Pow10(precision);
    var a, b := Abs(CDiv(decimal, divider)), Abs(CRem(decimal, divider));
    AbsDivRem(decimal, divider);
    FractionLength(b, precision);
    assert a <= Abs(decimal);
    Pow10Ten();
    DecLength(a, 10);
  }

  // ---------------------------------------------------------------------------
  // Reading the text back

  /** A decimal fraction read from text: `mantissa / 10^scale`. */
  datatype Fixed = Fixed(mantissa: int, scale: nat)

  /** Reads `digits.digits`: the mantissa is the digits with the point removed,
      the scale the number of digits after the point. */
  function ParseUnsigned(s: string): (r: Option<Fixed>)
    ensures r.Some? ==> r.value.mantissa >= 0
  {
    var k := LeadingDigits(s);
    if 0 < k && k + 1 < |s| && s[k] == '.' && AllDigits(s[k + 1..]) then
      DigitsValueAppend(s[..k], s[k + 1..]);
      Some(Fixed(DigitsValue(s[..k] + s[k + 1..]), |s| - (k + 1)))
    else
      None
  }

  /** Reads `[-]digits.digits`, negating the mantissa after a `-`. */
  function ParseFixed(s: string): Option<Fixed> {
    if |s| > 0 && s[0] == '-' then
      var r := ParseUnsigned(s[1..]);
      if r.None? then None else Some(Fixed(-r.value.mantissa, r.value.scale))
    else
      ParseUnsigned(s)
  }

  lemma {:induction false} LeadingDigitsOf(x: string, rest: string)
    requires AllDigits(x) && rest != [] && !IsDigit(rest[0])
    ensures LeadingDigits(x + rest) == |x|
    decreases |x|
  {
    var s := x + rest;
    if x == [] {
      assert s == rest;
    } else {
      assert IsDigit(s[0]) by {
        assert s[0] == x[0];
      }
      assert AllDigits(x[1..]) by {
        forall i | 0 <= i < |x| - 1
          ensures IsDigit(x[1..][i])
        {
          assert x[1..][i] == x[i + 1];
        }
      }
      assert s[1..] == x[1..] + rest;
      LeadingDigitsOf(x[1..], rest);
    }
  }

  /** Reading back integer digits, a point and fraction digits gives the digits
      with the point removed, scaled by the fraction's length. */
  lemma ParseUnsignedOf(x: string, frac: string)
    requires AllDigits(x) && AllDigits(frac) && x != [] && frac != []
    ensures AllDigits(x + frac)
    ensures ParseUnsigned(x + "." + frac) == Some(Fixed(DigitsValue(x + frac), |frac|))
  {
    DigitsValueAppend(x, frac);
    var s := x + "." + frac;
    LeadingDigitsOf(x, "." + frac);
    assert x + ("." + frac) == s;
    var k := |x|;
    assert s[..k] == x;
    assert s[k + 1..] == frac;
    assert s[k] == '.';
  }

  /** `m`, negated when `negative`. */
  function Signed(negative: bool, m: int): int {
    if negative then -m else m
  }

  /** With a sign in front of text that starts with a digit, the mantissa read
      is negated. */
  lemma ParseFixedSign(negative: bool, body: string)
    requires body != [] && IsDigit(body[0]) && ParseUnsigned(body).Some?
    ensures ParseFixed(Sign(negative) + body)
         == Some(Fixed(Signed(negative, ParseUnsigned(body).value.mantissa), ParseUnsigned(body).value.scale))
  {
    var s := Sign(negative) + body;
    if negative {
      assert s[0] == '-' && s[1..] == body;
    } else {
      assert s == body;
    }
  }

  /** Zero padding does not change the number the digits denote. */
  lemma ZeroPadValue(n: nat, width: nat)
    ensures DigitsValue(ZeroPad(n, width)) == n
  {
    var pad := if |Dec(n)| < width then width - |Dec(n)| else 0;
    ZerosValue(pad);
    DigitsValueAppend(Fill('0', pad), Dec(n));
    DecValue(n);
  }

  /** Reading the text back gives the digits of the quotient followed by the
      FractionWidth digits of the remainder as one number, signed as `decimal`. */
  lemma ParseFloatStr(decimal: int, precision: nat)
    ensures var divider := Pow10(precision);
            var w := FractionWidth(precision);
            var m := Abs(CDiv(decimal, divider)) * Pow10(w) + Abs(CRem(decimal, divider));
            ParseFixed(FloatStr(decimal, precision)) == Some(Fixed(Signed(decimal < 0, m), w))
  {
    var divider := Pow10(precision);
    var w := FractionWidth(precision);
    var a, b := Abs(CDiv(decimal, divider)), Abs(CRem(decimal, divider));
    var frac := ZeroPad(b, w);
    assert |frac| == w by {
      AbsDivRem(decimal, divider);
      FractionLength(b, precision);
    }
    // the digits with the point removed denote |decimal| scaled to w fraction digits
    var v := DigitsValue(Dec(a) + frac);
    assert v == a * Pow10(w) + b by {
      DigitsValueAppend(Dec(a), frac);
      DecValue(a);
      ZeroPadValue(b, w);
    }
    assert ParseFixed(FloatStr(decimal, precision)) == Some(Fixed(Signed(decimal < 0, v), w)) by {
      ParseUnsignedOf(Dec(a), frac);
      ParseFixedSign(decimal < 0, Dec(a) + "." + frac);
    }
  }

  /** Round trip: reading the text back gives a value equal to
      `decimal / 10^precision`, sign included; for precision 1 to 9 it gives back
      `decimal` itself with `precision` fraction digits, and for precision 0 the
      single zero digit scales it by ten. */
  lemma FloatStrRoundTrip(decimal: int, precision: nat)
    ensures ParseFixed(FloatStr(decimal, precision))
         == Some(Fixed(decimal * Pow10(FractionWidth(precision) - precision), FractionWidth(precision)))
    ensures precision >= 1 ==> ParseFixed(FloatStr(decimal, precision)) == Some(Fixed(decimal, precision))
  {
    ParseFloatStr(decimal, precision);
    Mantissa(decimal, precision);
  }

  /** The digits of the quotient and the `FractionWidth` remainder digits, read
      as one number with the sign of `decimal`, are `decimal` scaled from
      `precision` to `FractionWidth(precision)` fraction digits. */
  lemma Mantissa(decimal: int, precision: nat)
    ensures var divider := Pow10(precision);
            var w := FractionWidth(precision);
            var m := Abs(CDiv(decimal, divider)) * Pow10(w) + Abs(CRem(decimal, divider));
            Signed(decimal < 0, m) == decimal * Pow10(w - precision)
              && (precision >= 1 ==> Signed(decimal < 0, m) == decimal)
  {
    var divider := Pow10(precision);
    var a, b := Abs(CDiv(decimal, divider)), Abs(CRem(decimal, divider));
    AbsDivRem(decimal, divider);
    if precision == 0 {
      assert divider == 1 && b == 0;
      assert a == Abs(decimal);
      assert Pow10(1) == 10;
    } else {
      assert Pow10(0) == 1;
    }
  }

  // ---------------------------------------------------------------------------
  // The C function

  /** The loop of `int_to_float_str` that multiplies `divider` by ten once per
      fraction digit: it ends with the count at `precision` and `divider` at
      10^precision, which is still a C int for precision up to 9. */
  method ScaleLoop(precision: nat) returns (i: nat, divider: int)
    requires precision <= 9
    ensures i == precision && divider == Pow10(precision)
    ensures IsInt32(divider)
  {
    i, divider := 0, 1;
    while i < precision
      invariant i <= precision
      invariant divider == Pow10(i)
    {
      divider := divider * 10;
      i := i + 1;
    }
    assert IsInt32(divider) by {
      Pow10Monotone(i, 9);
      assert Pow10(9) == 1_000_000_000;
    }
  }

  /** The first half of `int_to_float_str`: the format is built by appending to
      the empty `char format[10]` an optional `-`, then `%d.%0`, then the loop
      count printed with `"%" PRIu32 "d"` into `char digits[3]`; the divider is
      10^precision. */
  method PrepareFormat(negative: bool, precision: nat) returns (format: string, divider: int)
    requires precision <= 9
    ensures format == FloatFormat(negative, precision)
    ensures |format| + 1 <= 10
    ensures divider == Pow10(precision) && IsInt32(divider)
  {
    format := "";
    if negative {
      format := format + "-";
    }
    format := format + "%d.%0";

    var i;
    i, divider := ScaleLoop(precision);

    var digits := Truncate(Dec(i) + "d", 3);
    format := format + digits;
    assert format == FloatFormat(negative, precision) && |format| + 1 <= 10 by {
      FloatFormatShape(negative, precision);
    }
  }

  /** The format prints FloatStr with the magnitudes of C's quotient and
      remainder, and the text fits the 50 bytes `snprintf` may write. */
  lemma FormatPrintsFloatStr(decimal: int, precision: nat, format: string, divider: int)
    requires IsInt32(decimal) && precision <= 9
    requires format == FloatFormat(decimal < 0, precision) && divider == Pow10(precision)
    ensures var printed := Render(format, [Abs(CDiv(decimal, divider)), Abs(CRem(decimal, divider))]);
            printed == Some(FloatStr(decimal, precision))
            && Truncate(printed.value, 50) == FloatStr(decimal, precision)
  {
    RenderFloatFormat(decimal, precision);
    FloatStrLength(decimal, precision);
  }

  /** The text `snprintf(buf, 50, format, ...)` produces in `int_to_float_str`:
      the format rendered with the magnitudes of C's quotient and remainder by
      the divider, cut to the 49 characters the size allows. */
  method FormatText(decimal: int, precision: nat) returns (text: string)
    requires IsInt32(decimal) && precision <= 9
    requires precision == 0 ==> decimal != INT_MIN
    ensures text == FloatStr(decimal, precision)
    ensures |text| <= 21
  {
    var format, divider := PrepareFormat(decimal < 0, precision);
    var a, b := Abs(CDiv(decimal, divider)), Abs(CRem(decimal, divider));
    FormatPrintsFloatStr(decimal, precision, format, divider);
    text := Truncate(Render(format, [a, b]).value, 50);
    FloatStrLength(decimal, precision);
  }

  /** What `snprintf` leaves in `buf`: the text, then the terminator; the rest of
      the buffer is untouched. */
  method Store(buf: array<char>, text: string)
    requires |text| < buf.Length
    modifies buf
    ensures buf[..|text|] == text && buf[|text|] == NUL
    ensures buf[|text| + 1..] == old(buf[|text| + 1..])
  {
    var n := |text|;
    var k := 0;
    while k < n
      invariant 0 <= k <= n
      invariant buf[..k] == text[..k]
      invariant buf[n + 1..] == old(buf[n + 1..])
    {
      buf[k] := text[k];
      k := k + 1;
    }
    buf[n] := NUL;
  }

  /** `int_to_float_str(buf, decimal, precision)`. The caller's buffer must hold
      the text and its terminator; C leaves `abs(INT_MIN)` undefined (reached with
      precision 0) and `divider` overflows an int from precision 10 on. */
  method IntToFloatStr(buf: array<char>, decimal: int, precision: nat)
    requires IsInt32(decimal) && precision <= 9
    requires precision == 0 ==> decimal != INT_MIN
    requires |FloatStr(decimal, precision)| < buf.Length
    modifies buf
    ensures buf[..|FloatStr(decimal, precision)|] == FloatStr(decimal, precision)
    ensures buf[|FloatStr(decimal, precision)|] == NUL
    ensures buf[|FloatStr(decimal, precision)| + 1..] == old(buf[|FloatStr(decimal, precision)| + 1..])
  {
    buf[0] := NUL;
    var text := FormatText(decimal, precision);
    Store(buf, text);
  }
}
