/**
 * Absolute lengths (mathml_renderer/src/length.rs): a fixed-point count of
 * 1/360 of a point, which is also 1/480 of a CSS pixel. Lengths are read
 * from a decimal with a `pt` or `px` unit and written back with at most
 * two decimals, in points when that is exact to a tenth of a point.
 */
module Length {
  import opened Wrappers
  import opened Integers
  import opened Decimal
  import opened Seqs

  /** `PT_IN_LEN`: length units in a point. */
  const PT_IN_LEN: int := 360
  /** `PX_IN_LEN`: length units in a CSS pixel. */
  const PX_IN_LEN: int := 480

  /** `LengthParseError`. */
  datatype LengthParseError = LengthParseError

  /** `Length::from_pt`. */
  function FromPt(pt: int): int {
    pt * PT_IN_LEN
  }

  /** `Length::from_twip`: a twip is a twentieth of a point. */
  function FromTwip(twip: int): int {
    TruncDiv(twip * (PT_IN_LEN / 10), 2)
  }

  /** `Length::from_px`. */
  function FromPx(px: int): int {
    px * PX_IN_LEN
  }

  /** `<i32 as Display>::fmt`: a minus sign for negative values, then the decimal digits. */
  function IntString(n: int): string {
    if n < 0 then "-" + DecimalString(-n) else DecimalString(n)
  }

  // Writing

  /**
   * `write_impl` as the source writes it: the quotient by `conv`, then,
   * when the remainder is not zero, a dot and one or two more digits, each
   * the next remainder times ten divided by `conv`. Rust's `/` and `%`
   * truncate toward zero, so for a negative length that is not a whole
   * unit the remainder is negative and its digits carry their own minus
   * sign after the dot (see NegativeFractionMisplacesSign).
   */
  function WriteImpl(v: int, conv: int, unit: string): string
    requires conv > 0
  {
    WriteNumber(v, conv) + unit
  }

  /** What `write_impl` prints before the unit; it is never empty. */
  function WriteNumber(v: int, conv: int): (s: string)
    requires conv > 0
    ensures |s| >= 1
  {
    var frac := TruncRem(v, conv);
    IntString(TruncDiv(v, conv))
    + (if frac == 0 then ""
       else "." + IntString(TruncDiv(frac * 10, conv))
            + (var frac2 := TruncRem(frac * 10, conv);
               if frac2 == 0 then "" else IntString(TruncDiv(frac2 * 10, conv))))
  }

  /**
   * The writer with the sign in front, as `write_impl` is evidently meant to
   * behave: a negative length is written as a minus sign and the writing of
   * its magnitude. For lengths that are not negative it is `write_impl`
   * itself. The `Display` functions below keep the source's `write_impl`.
   */
  function WriteLength(v: int, conv: int, unit: string): string
    requires conv > 0
  {
    if v < 0 then "-" + WriteImpl(-v, conv, unit) else WriteImpl(v, conv, unit)
  }

  /** `display_pt`: `write_impl` in points, with the source's placement of the sign. */
  function DisplayPt(v: int): string {
    WriteImpl(v, PT_IN_LEN, "pt")
  }

  /** `display_px`: `write_impl` in pixels, with the source's placement of the sign. */
  function DisplayPx(v: int): string {
    WriteImpl(v, PX_IN_LEN, "px")
  }

  /** Whether `Display` writes a length in points: it is a whole number of tenths of a point, or not of tenths of a pixel. */
  predicate PrefersPoints(v: int) {
    TruncRem(v, PT_IN_LEN / 10) == 0 || TruncRem(v, PX_IN_LEN / 10) != 0
  }

  /** `impl Display for Length`: `0` on its own, otherwise `write_impl` in points or pixels. */
  function Display(v: int): string {
    if v == 0 then "0"
    else if PrefersPoints(v) then WriteImpl(v, PT_IN_LEN, "pt")
    else WriteImpl(v, PX_IN_LEN, "px")
  }

  /**
   * An independent statement of what the writer prints for a length that is
   * not negative: the whole number of units, then, unless the length is a
   * whole number of units, a dot and the first decimal of the quotient, and
   * the second decimal unless the length is a whole number of tenths.
   * Further decimals are cut off.
   */
  function TwoDecimals(v: nat, conv: int, unit: string): string
    requires conv > 0
  {
    TwoDecimalNumber(v, conv) + unit
  }

  /** What `TwoDecimals` prints before the unit. */
  function TwoDecimalNumber(v: nat, conv: int): string
    requires conv > 0
  {
    DecimalString(v / conv)
    + (if v % conv == 0 then ""
       else "." + [DigitChar(10 * v / conv % 10)] + (if 10 * v % conv == 0 then "" else [DigitChar(100 * v / conv % 10)]))
  }

  /** A whole number `n`, a dot and the one decimal `d`, then the unit. */
  function OneDecimal(n: nat, d: nat, unit: string): string
    requires d < 10
  {
    DecimalString(n) + "." + [DigitChar(d)] + unit
  }

  /** A whole number `n`, a dot, the decimal `d` and a 5, then the unit. */
  function FiveHundredths(n: nat, d: nat, unit: string): string
    requires d < 10
  {
    DecimalString(n) + "." + [DigitChar(d), '5'] + unit
  }

  // Reading

  /** The unit a text ends with: `pt` before `px`, as the source checks them. */
  function UnitOf(s: string): (r: Option<int>)
    ensures r.Some? ==> |s| >= 2
  {
    if |s| >= 2 && s[|s| - 2..] == "pt" then Some(PT_IN_LEN)
    else if |s| >= 2 && s[|s| - 2..] == "px" then Some(PX_IN_LEN)
    else None
  }

  /** The digits before the first dot, and those after it (none without a dot). */
  function SplitAtDot(body: string): (string, string) {
    match FindFrom('.', body, 0)
    case Some(k) => (body[..k], body[k + 1..])
    case None => (body, [])
  }

  /**
   * `Length::from_str`: the unit, then the number before it, which must not
   * be empty of meaning: any character other than a digit or the first dot
   * is an error.
   */
  function Parse(s: string): Result<int, LengthParseError> {
    match UnitOf(s)
    case None => Err(LengthParseError)
    case Some(conv) => ParseNumber(s[..|s| - 2], conv)
  }

  /**
   * The digits before and after the first dot read as one number, scaled by
   * the unit and divided by the power of ten the fraction digits stand for.
   * The number is not negative, so the truncating division of the source is
   * `/` here.
   */
  function ParseNumber(body: string, conv: int): Result<int, LengthParseError> {
    var (whole, frac) := SplitAtDot(body);
    if AllDigits(whole) && AllDigits(frac) then Ok(Scale(DecimalValue(whole + frac), conv, Pow10(|frac|)))
    else Err(LengthParseError)
  }

  /** The digits read, in units, over the power of ten the fraction digits stand for. */
  function Scale(digits: nat, conv: int, div: nat): int
    requires div >= 1
  {
    digits * conv / div
  }

  /** The text is a number `Parse` accepts: digits, and at most one dot among them. */
  predicate WellFormedNumber(body: string) {
    forall i | 0 <= i < |body| :: IsDigit(body[i]) || (body[i] == '.' && forall j | 0 <= j < i :: body[j] != '.')
  }

  /** `from_str`: the unit, then the number before it. */
  method FromStr(s: string) returns (r: Result<int, LengthParseError>)
    ensures r == Parse(s)
  {
    var conv: int;
    if |s| >= 2 && s[|s| - 2..] == "pt" {
      conv := PT_IN_LEN;
    } else if |s| >= 2 && s[|s| - 2..] == "px" {
      conv := PX_IN_LEN;
    } else {
      return Err(LengthParseError);
    }
    r := ReadNumber(s[..|s| - 2], conv);
  }

  /**
   * The number part of `from_str`: the digits before the first dot, then
   * those after it, read as one number and scaled by the unit over the
   * power of ten the fraction digits stand for; any other character is an
   * error.
   */
  method ReadNumber(body: string, conv: int) returns (r: Result<int, LengthParseError>)
    ensures r == ParseNumber(body, conv)
  {
    var whole := ReadWholeDigits(body);
    if whole.None? {
      return Err(LengthParseError);
    }
    var (acc, j) := whole.value;
    var all := ReadFractionDigits(body, j, SplitAtDot(body).0, acc);
    if all.None? {
      return Err(LengthParseError);
    }
    var (digits, div) := all.value;
    return Ok(Scale(digits, conv, div));
  }

  /**
   * The first loop of `from_str`: each digit before the first dot
   * multiplies the accumulator by ten and adds itself. Returns the value
   * read and where the fraction starts, or nothing at a character that is
   * neither a digit nor the dot.
   */
  method ReadWholeDigits(body: string) returns (r: Option<(nat, nat)>)
    ensures r.Some? <==> AllDigits(SplitAtDot(body).0)
    ensures r.Some? ==>
      && r.value.0 == DecimalValue(SplitAtDot(body).0)
      && r.value.1 <= |body| && SplitAtDot(body).1 == body[r.value.1..]
  {
    var acc := 0;
    var i := 0;
    while i < |body| && body[i] != '.'
      invariant 0 <= i <= |body|
      invariant AllDigits(body[..i]) && forall k | 0 <= k < i :: body[k] != '.'
      invariant acc == DecimalValue(body[..i])
    {
      if !IsDigit(body[i]) {
        NonDigitBeforeDot(body, i);
        return None;
      }
      DecimalValueSnoc(body[..i], body[i]);
      assert body[..i + 1] == body[..i] + [body[i]];
      acc := acc * 10 + DigitValue(body[i]);
      i := i + 1;
    }
    DotSplit(body, i);
    r := Some((acc, if i < |body| then i + 1 else i));
  }

  /**
   * The second loop of `from_str`: each digit after the dot multiplies the
   * accumulator, which holds the value of the digits `whole` before the
   * dot, by ten and adds itself, and multiplies the divisor by ten. Returns
   * the value of all the digits and the divisor, or nothing at a character
   * that is not a digit.
   */
  method ReadFractionDigits(body: string, j: nat, ghost whole: string, acc0: nat) returns (r: Option<(nat, nat)>)
    requires j <= |body| && AllDigits(whole) && acc0 == DecimalValue(whole)
    ensures r.Some? <==> AllDigits(body[j..])
    ensures r.Some? ==>
      && AllDigits(whole + body[j..])
      && r.value == (DecimalValue(whole + body[j..]), Pow10(|body| - j))
  {
    var acc, div, k := acc0, 1, j;
    assert whole + body[j..k] == whole;
    while k < |body|
      invariant j <= k <= |body|
      invariant AllDigits(body[j..k]) && AllDigits(whole + body[j..k])
      invariant acc == DecimalValue(whole + body[j..k])
      invariant div == Pow10(k - j)
    {
      if !IsDigit(body[k]) {
        assert body[j..][k - j] == body[k];
        return None;
      }
      FractionStep(whole, body, j, k);
      acc := acc * 10 + DigitValue(body[k]);
      div := div * 10;
      k := k + 1;
    }
    assert body[j..k] == body[j..];
    r := Some((acc, div));
  }

  /** One more digit after the dot in the second loop of `from_str`. */
  lemma FractionStep(whole: string, body: string, j: nat, k: nat)
    requires j <= k < |body| && AllDigits(whole) && AllDigits(body[j..k]) && IsDigit(body[k])
    requires AllDigits(whole + body[j..k])
    ensures AllDigits(body[j..k + 1]) && AllDigits(whole + body[j..k + 1])
    ensures DecimalValue(whole + body[j..k + 1]) == DecimalValue(whole + body[j..k]) * 10 + DigitValue(body[k])
    ensures Pow10(k + 1 - j) == 10 * Pow10(k - j)
  {
    assert body[j..k + 1] == body[j..k] + [body[k]];
    DecimalValueSnoc(whole + body[j..k], body[k]);
    assert whole + body[j..k + 1] == whole + body[j..k] + [body[k]];
  }

  /** Where the first loop of `from_str` stops: at the first dot, which splits the body, or at the end. */
  lemma DotSplit(body: string, i: nat)
    requires i <= |body| && (i < |body| ==> body[i] == '.')
    requires forall k | 0 <= k < i :: body[k] != '.'
    ensures SplitAtDot(body) == (body[..i], body[(if i < |body| then i + 1 else i)..])
  {
    if i < |body| {
      assert FindFrom('.', body, 0).Some?;
    } else {
      assert body[..i] == body && body[i..] == [];
    }
  }

  /** A character that is neither a digit nor the first dot makes the part before the dot not all digits. */
  lemma NonDigitBeforeDot(body: string, i: nat)
    requires i < |body| && !IsDigit(body[i]) && body[i] != '.'
    requires forall k | 0 <= k < i :: body[k] != '.'
    ensures !AllDigits(SplitAtDot(body).0)
  {
    match FindFrom('.', body, 0)
    case Some(p) =>
      assert i < p;
      assert SplitAtDot(body).0[i] == body[i];
    case None =>
  }

  /**
   * `from_str` accepts a text exactly when it ends with `pt` or `px` and
   * everything before the unit is a digit or the first dot.
   */
  lemma ParseOkIff(s: string)
    ensures Parse(s).Ok? <==> UnitOf(s).Some? && WellFormedNumber(s[..|s| - 2])
  {
    if UnitOf(s).Some? {
      var body := s[..|s| - 2];
      match FindFrom('.', body, 0)
      case Some(p) =>
        var (whole, frac) := (body[..p], body[p + 1..]);
        if AllDigits(whole) && AllDigits(frac) {
          forall i | 0 <= i < |body|
            ensures IsDigit(body[i]) || (body[i] == '.' && forall j | 0 <= j < i :: body[j] != '.')
          {
            if i < p {
              assert body[i] == whole[i];
            } else if i > p {
              assert body[i] == frac[i - p - 1];
            }
          }
        }
        if WellFormedNumber(body) {
          forall i | 0 <= i < |frac|
            ensures IsDigit(frac[i])
          {
            assert frac[i] == body[p + 1 + i];
          }
        }
      case None =>
    }
  }

  // Round trips

  /** The two units of `from_str`, `display_pt` and `display_px`. */
  predicate IsUnit(conv: int, unit: string) {
    (conv == PT_IN_LEN && unit == "pt") || (conv == PX_IN_LEN && unit == "px")
  }

  /** A number followed by a unit: the unit is found and the number is what comes before it. */
  lemma WithUnit(x: string, conv: int, unit: string)
    requires IsUnit(conv, unit)
    ensures UnitOf(x + unit) == Some(conv) && (x + unit)[..|x + unit| - 2] == x
  {
    assert (x + unit)[|x + unit| - 2..] == unit;
  }

  /** Digits with no dot are all before the dot; digits, a dot and digits split at that dot. */
  lemma SplitDigits(a: string, f: string)
    requires AllDigits(a) && AllDigits(f)
    ensures SplitAtDot(a) == (a, [])
    ensures SplitAtDot(a + "." + f) == (a, f)
  {
    var x := a + "." + f;
    assert x[|a|] == '.';
    assert forall k | 0 <= k < |a| :: x[k] == a[k];
    assert x[..|a|] == a && x[|a| + 1..] == f;
    assert FindFrom('.', x, 0) == Some(|a|);
  }

  /** `from_str` of a whole number of units. */
  lemma ParseWhole(a: string, conv: int, unit: string)
    requires IsUnit(conv, unit) && AllDigits(a)
    ensures Parse(a + unit) == Ok(DecimalValue(a) * conv)
  {
    WithUnit(a, conv, unit);
    SplitDigits(a, []);
    assert a + [] == a;
    var m := DecimalValue(a) * conv;
    assert Pow10(0) == 1;
    DivModUnique(m, 1, m, 0);
  }

  /** `from_str` of a number with a fraction: the digits as one number over the power of ten of the fraction. */
  lemma ParseFraction(a: string, f: string, conv: int, unit: string)
    requires IsUnit(conv, unit) && AllDigits(a) && AllDigits(f)
    ensures AllDigits(a + f) && Parse(a + "." + f + unit) == Ok(Scale(DecimalValue(a + f), conv, Pow10(|f|)))
  {
    var x := a + "." + f;
    WithUnit(x, conv, unit);
    SplitDigits(a, f);
    DecimalValueConcat(a, f);
  }

  /** `DecimalString` of a single digit. */
  lemma DigitString(d: nat)
    requires d < 10
    ensures DecimalString(d) == [DigitChar(d)]
  {
  }

  /**
   * `write_impl` on a length that is not negative prints its whole part in
   * units, then the first and the second decimal of the exact quotient,
   * each only when there is something left to print.
   */
  lemma WriteImplDigits(v: nat, conv: int, unit: string)
    requires IsUnit(conv, unit)
    ensures WriteImpl(v, conv, unit) == TwoDecimals(v, conv, unit)
  {
    WriterArithmetic(v, conv);
    var f := v % conv;
    if f != 0 {
      DigitString(10 * v / conv % 10);
      if 10 * v % conv != 0 {
        DigitString(100 * v / conv % 10);
      }
    }
  }

  /**
   * The quotients and remainders `write_impl` computes for a length that is
   * not negative are the whole part and the first two decimals of the exact
   * quotient by the unit.
   */
  lemma WriterArithmetic(v: nat, conv: int)
    requires conv == PT_IN_LEN || conv == PX_IN_LEN
    ensures TruncDiv(v, conv) == v / conv && TruncRem(v, conv) == v % conv
    ensures TruncDiv(v % conv * 10, conv) == 10 * v / conv % 10 < 10
    ensures TruncRem(v % conv * 10, conv) == 10 * v % conv
    ensures TruncDiv(10 * v % conv * 10, conv) == 100 * v / conv % 10 < 10
  {
    if conv == PT_IN_LEN {
      DecimalsBy(v, 360);
    } else {
      DecimalsBy(v, 480);
    }
  }

  /** `WriterArithmetic` for one divisor. */
  lemma DecimalsBy(v: nat, c: int)
    requires c > 0
    ensures TruncDiv(v, c) == v / c && TruncRem(v, c) == v % c
    ensures TruncDiv(v % c * 10, c) == 10 * v / c % 10 < 10
    ensures TruncRem(v % c * 10, c) == 10 * v % c
    ensures TruncDiv(10 * v % c * 10, c) == 100 * v / c % 10 < 10
  {
    NextDecimal(v, c);
    NextDecimal(10 * v, c);
    assert 10 * (10 * v) == 100 * v;
  }

  /** Ten times the remainder of `x` by `c`, divided by `c`, is the last digit of `10 * x / c`. */
  lemma NextDecimal(x: nat, c: int)
    requires c > 0
    ensures x % c * 10 / c == 10 * x / c % 10 < 10
    ensures x % c * 10 % c == 10 * x % c
  {
    var a, f := x / c, x % c;
    var b, g := 10 * f / c, 10 * f % c;
    TenthDigit(f, c);
    assert 10 * x == c * (10 * a + b) + g;
    DivModUnique(10 * x, c, 10 * a + b, g);
    DivModUnique(10 * a + b, 10, a, b);
  }

  /** The first decimal of `x / conv`, cut off, leaves the whole part. */
  lemma NestedDiv(x: nat, y: nat, conv: int)
    requires conv == PT_IN_LEN || conv == PX_IN_LEN
    requires y == 10 * x
    ensures y / conv / 10 == x / conv
  {
    var a, f := x / conv, x % conv;
    var b, g := 10 * f / conv, 10 * f % conv;
    assert 10 * x == conv * (10 * a + b) + g;
    DivModUnique(10 * x, conv, 10 * a + b, g);
    DivModUnique(10 * a + b, 10, a, b);
  }

  /**
   * What the writer prints reads back as the length whenever the length is
   * a whole number of hundredths of the unit: two decimals lose nothing.
   */
  lemma WriteParseRoundTrip(v: nat, conv: int, unit: string)
    requires IsUnit(conv, unit) && (100 * v) % conv == 0
    ensures Parse(WriteImpl(v, conv, unit)) == Ok(v)
  {
    WriteImplDigits(v, conv, unit);
    if v % conv == 0 {
      WholeDigitsRead(v, conv, unit);
    } else if 10 * v % conv == 0 {
      TenthDigitsRead(v, conv, unit);
    } else {
      HundredthDigitsRead(v, conv, unit);
    }
  }

  /** The reference text of a whole number of units reads back. */
  lemma WholeDigitsRead(v: nat, conv: int, unit: string)
    requires IsUnit(conv, unit) && v % conv == 0
    ensures Parse(TwoDecimals(v, conv, unit)) == Ok(v)
  {
    var a := v / conv;
    DecimalRoundTrip(a);
    assert TwoDecimals(v, conv, unit) == DecimalString(a) + unit;
    ParseWhole(DecimalString(a), conv, unit);
  }

  /** The reference text of a whole number of tenths of the unit reads back. */
  lemma TenthDigitsRead(v: nat, conv: int, unit: string)
    requires IsUnit(conv, unit) && v % conv != 0 && 10 * v % conv == 0
    ensures Parse(TwoDecimals(v, conv, unit)) == Ok(v)
  {
    var ds := DecimalString(v / conv);
    var m := 10 * v / conv;
    var f := [DigitChar(m % 10)];
    assert TwoDecimals(v, conv, unit) == ds + "." + f + unit;
    assert DecimalValue(ds + f) == m by {
      DecimalRoundTrip(v / conv);
      NestedDiv(v, 10 * v, conv);
      DecimalValueSnoc(ds, DigitChar(m % 10));
    }
    ParseFraction(ds, f, conv, unit);
    assert Pow10(|f|) == 10;
    ExactDecimals(v, conv, 10);
  }

  /** The whole part and the two decimals, read as one number, are the hundredths of the unit. */
  lemma HundredthDigitsValue(v: nat, conv: int)
    requires conv == PT_IN_LEN || conv == PX_IN_LEN
    ensures AllDigits(DecimalString(v / conv) + [DigitChar(10 * v / conv % 10), DigitChar(100 * v / conv % 10)])
    ensures DecimalValue(DecimalString(v / conv) + [DigitChar(10 * v / conv % 10), DigitChar(100 * v / conv % 10)]) == 100 * v / conv
  {
    var ds := DecimalString(v / conv);
    var b, d := 10 * v / conv % 10, 100 * v / conv % 10;
    DecimalRoundTrip(v / conv);
    NestedDiv(v, 10 * v, conv);
    NestedDiv(10 * v, 100 * v, conv);
    assert ds + [DigitChar(b), DigitChar(d)] == ds + [DigitChar(b)] + [DigitChar(d)];
    DecimalValueSnoc(ds, DigitChar(b));
    DecimalValueSnoc(ds + [DigitChar(b)], DigitChar(d));
  }

  /** The reference text of a whole number of hundredths, but not tenths, of the unit reads back. */
  lemma HundredthDigitsRead(v: nat, conv: int, unit: string)
    requires IsUnit(conv, unit) && v % conv != 0 && 10 * v % conv != 0 && 100 * v % conv == 0
    ensures Parse(TwoDecimals(v, conv, unit)) == Ok(v)
  {
    var ds := DecimalString(v / conv);
    var m := 100 * v / conv;
    var b, d := 10 * v / conv % 10, m % 10;
    var f := [DigitChar(b), DigitChar(d)];
    assert TwoDecimals(v, conv, unit) == ds + "." + f + unit;
    HundredthDigitsValue(v, conv);
    ParseFraction(ds, f, conv, unit);
    assert Pow10(|f|) == 100;
    ExactDecimals(v, conv, 100);
  }

  /**
   * A length that is a whole number of tenths (or hundredths) of the unit is
   * that number of tenths (or hundredths), scaled back by the unit.
   */
  lemma ExactDecimals(v: nat, conv: int, p: nat)
    requires (conv == PT_IN_LEN || conv == PX_IN_LEN) && (p == 10 || p == 100) && p * v % conv == 0
    ensures p * v / conv * conv / p == v
  {
    var m := p * v / conv;
    if conv == PT_IN_LEN {
      assert m * 360 == p * v;
    } else {
      assert m * 480 == p * v;
    }
    if p == 10 {
      DivModUnique(m * conv, 10, v, 0);
    } else {
      DivModUnique(m * conv, 100, v, 0);
    }
  }

  /**
   * `Display` reads back exactly for every length that is a whole number of
   * hundredths of a point: it picks points for those, or pixels when the
   * length is a whole number of tenths of a pixel, which is then exact too.
   */
  lemma DisplayParseRoundTrip(v: nat)
    requires v > 0 && (100 * v) % PT_IN_LEN == 0
    ensures Parse(Display(v)) == Ok(v)
  {
    if PrefersPoints(v) {
      WriteParseRoundTrip(v, PT_IN_LEN, "pt");
    } else {
      assert v % 48 == 0;
      DivModUnique(100 * v, PX_IN_LEN, 10 * (v / 48), 0);
      WriteParseRoundTrip(v, PX_IN_LEN, "px");
    }
  }

  /** Only the zero length is displayed as a bare `0`; every other length ends with its unit. */
  lemma DisplayZeroIff(v: int)
    ensures Display(v) == "0" <==> v == 0
    ensures v != 0 ==> |Display(v)| > 2 && Display(v)[|Display(v)| - 2..] in {"pt", "px"}
  {
    if v != 0 {
      var unit := if PrefersPoints(v) then "pt" else "px";
      var conv := if PrefersPoints(v) then PT_IN_LEN else PX_IN_LEN;
      var digits := WriteNumber(v, conv);
      assert Display(v) == digits + unit;
      assert (digits + unit)[|digits + unit| - 2..] == unit;
    }
  }

  /** A whole number of units is written as that number and the unit. */
  lemma WriteWhole(n: nat, conv: int, unit: string)
    requires IsUnit(conv, unit)
    ensures n * conv >= 0 && WriteImpl(n * conv, conv, unit) == DecimalString(n) + unit
  {
    var v := n * conv;
    if conv == PT_IN_LEN {
      DivModUnique(v, 360, n, 0);
    } else {
      DivModUnique(v, 480, n, 0);
    }
    WriteImplDigits(v, conv, unit);
    assert TwoDecimalNumber(v, conv) == DecimalString(n) + "";
    assert DecimalString(n) + "" == DecimalString(n);
  }

  /** A length of whole points or whole pixels, of either sign, is written as that number and the unit. */
  lemma WholeUnitsDisplay(n: int)
    ensures DisplayPt(FromPt(n)) == IntString(n) + "pt"
    ensures DisplayPx(FromPx(n)) == IntString(n) + "px"
    ensures n != 0 ==> Display(FromPt(n)) == IntString(n) + "pt"
  {
    SignedWhole(n, PT_IN_LEN, "pt");
    SignedWhole(n, PX_IN_LEN, "px");
    var m := if n < 0 then -n else n;
    DivModUnique(m * PT_IN_LEN, 36, 10 * m, 0);
    assert TruncRem(FromPt(n), 36) == 0;
  }

  /** A whole number of units, of either sign, is written as that number and the unit. */
  lemma SignedWhole(n: int, conv: int, unit: string)
    requires IsUnit(conv, unit)
    ensures WriteImpl(n * conv, conv, unit) == IntString(n) + unit
  {
    if n >= 0 {
      WriteWhole(n, conv, unit);
    } else {
      var m := -n;
      assert n * conv == -(m * conv);
      DivModUnique(m * conv, conv, m, 0);
      assert TruncDiv(n * conv, conv) == n;
      assert TruncRem(n * conv, conv) == 0;
      assert WriteNumber(n * conv, conv) == IntString(n) + "";
    }
  }

  /** A whole number of points or pixels reads as that many and writes back to the same text. */
  lemma WholeRoundTrip(n: nat, conv: int, unit: string)
    requires IsUnit(conv, unit)
    ensures Parse(DecimalString(n) + unit) == Ok(n * conv)
    ensures WriteImpl(n * conv, conv, unit) == DecimalString(n) + unit
    ensures conv == PT_IN_LEN && n > 0 ==> Display(n * conv) == DecimalString(n) + unit
  {
    DecimalRoundTrip(n);
    ParseWhole(DecimalString(n), conv, unit);
    WriteWhole(n, conv, unit);
    if conv == PT_IN_LEN {
      DivModUnique(n * conv, 36, 10 * n, 0);
    }
  }

  /**
   * The text of a length with one decimal `d` after the whole number `n`,
   * given the quotient and remainders the writer computes for it.
   */
  lemma TenthsText(n: nat, d: nat, conv: int, unit: string, v: nat)
    requires IsUnit(conv, unit) && 1 <= d <= 9
    requires v / conv == n && v % conv != 0 && 10 * v / conv % 10 == d && 10 * v % conv == 0
    requires (10 * n + d) * conv / 10 == v
    ensures Parse(OneDecimal(n, d, unit)) == Ok(v)
    ensures WriteImpl(v, conv, unit) == OneDecimal(n, d, unit)
  {
    TenthsParse(n, d, conv, unit, v);
    TenthsWrite(n, d, conv, unit, v);
  }

  /** The writer prints the one decimal `d` it computes for the length. */
  lemma TenthsWrite(n: nat, d: nat, conv: int, unit: string, v: nat)
    requires IsUnit(conv, unit) && d <= 9
    requires v / conv == n && v % conv != 0 && 10 * v / conv % 10 == d && 10 * v % conv == 0
    ensures WriteImpl(v, conv, unit) == OneDecimal(n, d, unit)
  {
    WriteImplDigits(v, conv, unit);
  }

  /** The text with one decimal `d` reads as the tenths it stands for. */
  lemma TenthsParse(n: nat, d: nat, conv: int, unit: string, v: nat)
    requires IsUnit(conv, unit) && d <= 9
    requires (10 * n + d) * conv / 10 == v
    ensures Parse(OneDecimal(n, d, unit)) == Ok(v)
  {
    var ds := DecimalString(n);
    DecimalRoundTrip(n);
    ParseFraction(ds, [DigitChar(d)], conv, unit);
    DecimalValueSnoc(ds, DigitChar(d));
    assert DecimalValue(ds + [DigitChar(d)]) == 10 * n + d && Pow10(1) == 10;
  }

  /**
   * The text of a length with the two decimals `d` and 5 after the whole
   * number `n`, given the quotients and remainders the writer computes.
   */
  lemma HalfTenthsText(n: nat, d: nat, conv: int, unit: string, v: nat)
    requires IsUnit(conv, unit) && d <= 9
    requires v / conv == n && v % conv != 0 && 10 * v / conv % 10 == d && 10 * v % conv != 0 && 100 * v / conv % 10 == 5
    requires (100 * n + 10 * d + 5) * conv / 100 == v
    ensures Parse(FiveHundredths(n, d, unit)) == Ok(v)
    ensures WriteImpl(v, conv, unit) == FiveHundredths(n, d, unit)
  {
    HalfTenthsParse(n, d, conv, unit, v);
    HalfTenthsWrite(n, d, conv, unit, v);
  }

  /** The writer prints the two decimals `d` and 5 it computes for the length. */
  lemma HalfTenthsWrite(n: nat, d: nat, conv: int, unit: string, v: nat)
    requires IsUnit(conv, unit) && d <= 9
    requires v / conv == n && v % conv != 0 && 10 * v / conv % 10 == d && 10 * v % conv != 0 && 100 * v / conv % 10 == 5
    ensures WriteImpl(v, conv, unit) == FiveHundredths(n, d, unit)
  {
    WriteImplDigits(v, conv, unit);
    assert DigitChar(5) == '5';
  }

  /** The text with the two decimals `d` and 5 reads as the hundredths it stands for. */
  lemma HalfTenthsParse(n: nat, d: nat, conv: int, unit: string, v: nat)
    requires IsUnit(conv, unit) && d <= 9
    requires (100 * n + 10 * d + 5) * conv / 100 == v
    ensures Parse(FiveHundredths(n, d, unit)) == Ok(v)
  {
    var ds := DecimalString(n);
    var f := [DigitChar(d), '5'];
    DecimalRoundTrip(n);
    ParseFraction(ds, f, conv, unit);
    assert ds + f == ds + [DigitChar(d)] + ['5'];
    DecimalValueSnoc(ds, DigitChar(d));
    DecimalValueSnoc(ds + [DigitChar(d)], '5');
    assert DecimalValue(ds + f) == 100 * n + 10 * d + 5 && Pow10(2) == 100;
  }

  /** Lengths of whole tenths of a point, and those of an odd number of twentieths, are displayed in points. */
  lemma DisplayInPoints(v: nat)
    requires v > 0 && (v % 36 == 0 || v % 36 == 18)
    ensures Display(v) == DisplayPt(v)
  {
    assert TruncRem(v, 36) == v % 36;
    if v % 36 == 18 {
      assert v % 4 == 2;
      assert TruncRem(v, 48) != 0;
    }
  }

  /** In points, a number with one decimal reads as that many tenths and every writer gives the same text back. */
  lemma TenthsRoundTripPt(n: nat, d: nat)
    requires 1 <= d <= 9
    ensures Parse(OneDecimal(n, d, "pt")) == Ok(FromPt(n) + 36 * d)
    ensures DisplayPt(FromPt(n) + 36 * d) == OneDecimal(n, d, "pt") && Display(FromPt(n) + 36 * d) == OneDecimal(n, d, "pt")
  {
    var v := FromPt(n) + 36 * d;
    TenthsArithmetic(n, d, PT_IN_LEN, v);
    TenthsText(n, d, PT_IN_LEN, "pt", v);
    assert v == 36 * (10 * n + d);
    DivModUnique(v, 36, 10 * n + d, 0);
    DisplayInPoints(v);
  }

  /** In pixels, a number with one decimal reads as that many tenths and writes back to the same text. */
  lemma TenthsRoundTripPx(n: nat, d: nat)
    requires 1 <= d <= 9
    ensures Parse(OneDecimal(n, d, "px")) == Ok(FromPx(n) + 48 * d)
    ensures DisplayPx(FromPx(n) + 48 * d) == OneDecimal(n, d, "px")
  {
    var v := FromPx(n) + 48 * d;
    TenthsArithmetic(n, d, PX_IN_LEN, v);
    TenthsText(n, d, PX_IN_LEN, "px", v);
    assert Parse(OneDecimal(n, d, "px")) == Ok(v);
    assert DisplayPx(v) == OneDecimal(n, d, "px");
  }

  /**
   * In points, a number whose second decimal is 5 (`.25`, `.75`, ...)
   * reads as that many hundredths and every writer gives the same text back.
   */
  lemma HalfTenthsRoundTripPt(n: nat, d: nat)
    requires d <= 9
    ensures Parse(FiveHundredths(n, d, "pt")) == Ok(FromPt(n) + 36 * d + 18)
    ensures DisplayPt(FromPt(n) + 36 * d + 18) == FiveHundredths(n, d, "pt")
    ensures Display(FromPt(n) + 36 * d + 18) == FiveHundredths(n, d, "pt")
  {
    var v := FromPt(n) + 36 * d + 18;
    HalfTenthsArithmetic(n, d, PT_IN_LEN, v);
    HalfTenthsText(n, d, PT_IN_LEN, "pt", v);
    assert v == 36 * (10 * n + d) + 18;
    DivModUnique(v, 36, 10 * n + d, 18);
    DisplayInPoints(v);
  }

  /** In pixels, a number whose second decimal is 5 reads as that many hundredths and writes back to the same text. */
  lemma HalfTenthsRoundTripPx(n: nat, d: nat)
    requires d <= 9
    ensures Parse(FiveHundredths(n, d, "px")) == Ok(FromPx(n) + 48 * d + 24)
    ensures DisplayPx(FromPx(n) + 48 * d + 24) == FiveHundredths(n, d, "px")
  {
    HalfTenthsArithmetic(n, d, PX_IN_LEN, FromPx(n) + 48 * d + 24);
    HalfTenthsText(n, d, PX_IN_LEN, "px", FromPx(n) + 48 * d + 24);
  }

  /** `from_twip`: twenty twips make a point. */
  lemma TwentyTwipsPerPoint(n: int)
    ensures FromTwip(20 * n) == FromPt(n)
  {
    assert 20 * n * (PT_IN_LEN / 10) == 720 * n;
    if n >= 0 {
      DivModUnique(720 * n, 2, 360 * n, 0);
    } else {
      DivModUnique(-720 * n, 2, -360 * n, 0);
    }
  }

  /**
   * The writer as the source writes it puts the sign of a negative length
   * that is not a whole number of points after the dot: half a point below
   * zero comes out as `0.-5pt`, from `display_pt` and from `Display`
   * alike, and that text does not read back as a length.
   */
  lemma NegativeFractionMisplacesSign()
    ensures WriteImpl(-180, PT_IN_LEN, "pt") == "0.-5pt"
    ensures DisplayPt(-180) == "0.-5pt" && Display(-180) == "0.-5pt"
    ensures Parse("0.-5pt").Err?
  {
    NegativeHalfPointInPoints();
    assert TruncDiv(-180, PT_IN_LEN) == 0 && TruncRem(-180, PT_IN_LEN) == -180;
    assert TruncDiv(-1800, PT_IN_LEN) == -5 && TruncRem(-1800, PT_IN_LEN) == 0;
    assert IntString(0) == "0" && IntString(-5) == "-5";
    assert WriteNumber(-180, PT_IN_LEN) == "0" + ("." + "-5" + "");
    assert WriteImpl(-180, PT_IN_LEN, "pt") == "0.-5" + "pt";
    ParseOkIff("0.-5pt");
    assert "0.-5pt"[..4][2] == '-';
  }

  /** Half a point below zero is displayed in points. */
  lemma NegativeHalfPointInPoints()
    ensures Display(-180) == DisplayPt(-180)
  {
    assert TruncRem(-180, PT_IN_LEN / 10) == 0;
  }

  /**
   * The writer with the sign in front prints a negative length as a minus
   * sign and its magnitude, so every length that is a whole number of
   * hundredths of the unit reads back, negative ones after the sign.
   */
  lemma SignedWriteRoundTrip(v: int, conv: int, unit: string)
    requires IsUnit(conv, unit) && (100 * v) % conv == 0
    ensures v >= 0 ==> Parse(WriteLength(v, conv, unit)) == Ok(v)
    ensures v < 0 ==> WriteLength(v, conv, unit) == "-" + WriteLength(-v, conv, unit)
                      && Parse(WriteLength(-v, conv, unit)) == Ok(-v)
  {
    if v >= 0 {
      WriteParseRoundTrip(v, conv, unit);
    } else {
      var w := -v;
      NegatedMultiple(100 * v, conv);
      assert 100 * w == -(100 * v);
      assert (100 * w) % conv == 0;
      WriteParseRoundTrip(w, conv, unit);
      assert Parse(WriteLength(w, conv, unit)) == Ok(w);
      assert WriteLength(v, conv, unit) == "-" + WriteImpl(w, conv, unit);
      assert WriteLength(-v, conv, unit) == WriteImpl(w, conv, unit);
      assert Parse(WriteLength(-v, conv, unit)) == Ok(-v);
    }
  }

  /** The negation of a multiple of a unit is a multiple of it. */
  lemma NegatedMultiple(x: int, conv: int)
    requires (conv == PT_IN_LEN || conv == PX_IN_LEN) && x % conv == 0
    ensures (-x) % conv == 0
  {
    if conv == PT_IN_LEN {
      DivModUnique(-x, 360, -(x / 360), 0);
    } else {
      DivModUnique(-x, 480, -(x / 480), 0);
    }
  }

  /** The quotients and remainders the writer computes for `n` units and `d` tenths of a point or a pixel. */
  lemma TenthsArithmetic(n: nat, d: nat, conv: int, v: nat)
    requires (conv == PT_IN_LEN || conv == PX_IN_LEN) && 1 <= d <= 9 && v == FromUnits(n, conv) + conv / 10 * d
    ensures v / conv == n && v % conv != 0
    ensures 10 * v / conv % 10 == d && 10 * v % conv == 0
    ensures (10 * n + d) * conv / 10 == v
  {
    if conv == PT_IN_LEN {
      DivModUnique(v, 360, n, 36 * d);
      DivModUnique(10 * v, 360, 10 * n + d, 0);
      DivModUnique((10 * n + d) * 360, 10, v, 0);
    } else {
      DivModUnique(v, 480, n, 48 * d);
      DivModUnique(10 * v, 480, 10 * n + d, 0);
      DivModUnique((10 * n + d) * 480, 10, v, 0);
    }
    DivModUnique(10 * n + d, 10, n, d);
  }

  /** The quotients and remainders the writer computes for `n` units, `d` tenths and half a tenth of a point or a pixel. */
  lemma HalfTenthsArithmetic(n: nat, d: nat, conv: int, v: nat)
    requires (conv == PT_IN_LEN || conv == PX_IN_LEN) && d <= 9 && v == FromUnits(n, conv) + conv / 10 * d + conv / 20
    ensures v / conv == n && v % conv != 0
    ensures 10 * v / conv % 10 == d && 10 * v % conv != 0
    ensures 100 * v / conv % 10 == 5
    ensures (100 * n + 10 * d + 5) * conv / 100 == v
  {
    if conv == PT_IN_LEN {
      DivModUnique(v, 360, n, 36 * d + 18);
      DivModUnique(10 * v, 360, 10 * n + d, 180);
      DivModUnique(100 * v, 360, 100 * n + 10 * d + 5, 0);
      DivModUnique((100 * n + 10 * d + 5) * 360, 100, v, 0);
    } else {
      DivModUnique(v, 480, n, 48 * d + 24);
      DivModUnique(10 * v, 480, 10 * n + d, 240);
      DivModUnique(100 * v, 480, 100 * n + 10 * d + 5, 0);
      DivModUnique((100 * n + 10 * d + 5) * 480, 100, v, 0);
    }
    DivModUnique(10 * n + d, 10, n, d);
    DivModUnique(100 * n + 10 * d + 5, 10, 10 * n + d, 5);
  }

  /** `n` whole points or pixels. */
  function FromUnits(n: nat, conv: int): int
    requires conv == PT_IN_LEN || conv == PX_IN_LEN
  {
    if conv == PT_IN_LEN then FromPt(n) else FromPx(n)
  }

  /** Division with remainder has one quotient and one remainder. */
  lemma DivModUnique(x: int, c: int, q: int, r: int)
    requires c > 0 && 0 <= r < c && x == c * q + r
    ensures x / c == q && x % c == r
  {
    var q', r' := x / c, x % c;
    assert c * (q - q') == r' - r;
    if q > q' {
      MulAtLeast(c, q - q');
    } else if q < q' {
      MulAtLeast(c, q' - q);
    }
  }

  /** Ten times a remainder, divided by the divisor, is a single digit. */
  lemma TenthDigit(f: int, c: int)
    requires 0 <= f < c
    ensures 0 <= 10 * f / c < 10
  {
    var b := 10 * f / c;
    if b >= 10 {
      MulAtLeast(c, b - 9);
    }
  }

  lemma {:induction false} MulAtLeast(c: int, t: int)
    requires c > 0 && t >= 1
    ensures c * t >= c
    decreases t
  {
    if t > 1 {
      MulAtLeast(c, t - 1);
      assert c * t == c * (t - 1) + c;
    }
  }
}
