/** Number lexemes: the runs of "+-0123456789eE." the parsers collect, what
    `new BigDecimal(String)`, `Double.parseDouble` and `Long.parseLong` accept of
    them, and the integral values `Number.intValue()` and its siblings give.
    Floating values are kept as their lexemes; only their integral truncation is
    computed, exactly. */
module Numbers {
  import opened JavaLang
  import opened Values

  /** The NUMBERS table of the parsers. */
  predicate IsNumberChar(c: CodeUnit) {
    IsDigit(c) || c == PLUS || c == MINUS || c == DOT || c == 0x65 || c == 0x45
  }

  predicate IsExponentMark(c: CodeUnit) { c == 0x65 || c == 0x45 }

  /** The length of the run of ASCII digits starting at i. */
  function DigitRun(t: Text, i: nat): (n: nat)
    requires i <= |t|
    ensures i + n <= |t|
    ensures forall k | i <= k < i + n :: IsDigit(t[k])
    ensures i + n < |t| ==> !IsDigit(t[i + n])
    decreases |t| - i
  {
    if i < |t| && IsDigit(t[i]) then 1 + DigitRun(t, i + 1) else 0
  }

  /** The value of a run of ASCII digits. */
  function DigitsValue(t: Text): nat
    requires forall k | 0 <= k < |t| :: IsDigit(t[k])
  {
    if t == [] then 0
    else
      assert IsDigit(t[|t| - 1]);
      DigitsValue(t[..|t| - 1]) * 10 + (t[|t| - 1] as int - 0x30)
  }

  function Pow10(n: nat): (p: nat)
    ensures p >= 1
  {
    if n == 0 then 1 else 10 * Pow10(n - 1)
  }

  /** The parts of a decimal lexeme: sign, integer digits, fraction digits, exponent. */
  datatype DecimalParts = DecimalParts(negative: bool, intDigits: Text, fracDigits: Text, exponent: int)

  function SignLength(t: Text, i: nat): (n: nat)
    requires i <= |t|
    ensures i + n <= |t|
  {
    if i < |t| && (t[i] == PLUS || t[i] == MINUS) then 1 else 0
  }

  /** The decimal grammar both `new BigDecimal(String)` and `Double.parseDouble`
      accept on number characters: an optional sign, digits with an optional
      fraction (at least one digit in all), and an optional exponent of `e` or `E`,
      an optional sign and at least one digit. None when the lexeme does not fit it
      (their NumberFormatException). */
  function SplitDecimal(t: Text): (r: Option<DecimalParts>)
    ensures r.Some? ==> forall k | 0 <= k < |r.value.intDigits| :: IsDigit(r.value.intDigits[k])
    ensures r.Some? ==> forall k | 0 <= k < |r.value.fracDigits| :: IsDigit(r.value.fracDigits[k])
  {
    var m := ScanMantissa(t);
    if DigitCount(m) == 0 then None
    else
      var mantissa := MantissaParts(t, m);
      if m.i2 == |t| then Some(mantissa)
      else match ScanExponent(t, m.i2)
        case None => None
        case Some(exponent) => Some(mantissa.(exponent := exponent))
  }

  /** Where a lexeme's sign (up to i0), integral digits (up to i1) and, when it has
      a point at i1, fraction digits (up to i2) end. */
  datatype MantissaSpan = MantissaSpan(i0: nat, i1: nat, hasDot: bool, i2: nat)

  function ScanMantissa(t: Text): (m: MantissaSpan)
    ensures m.i0 == SignLength(t, 0) && m.i0 <= m.i1 <= m.i2 <= |t|
    ensures m.i0 == 1 ==> t[0] == PLUS || t[0] == MINUS
    ensures forall k | m.i0 <= k < m.i1 :: IsDigit(t[k])
    ensures m.hasDot ==> m.i1 < m.i2 && t[m.i1] == DOT && forall k | m.i1 < k < m.i2 :: IsDigit(t[k])
    ensures !m.hasDot ==> m.i2 == m.i1
  {
    var i0 := SignLength(t, 0);
    var i1 := i0 + DigitRun(t, i0);
    var hasDot := i1 < |t| && t[i1] == DOT;
    MantissaSpan(i0, i1, hasDot, if hasDot then i1 + 1 + DigitRun(t, i1 + 1) else i1)
  }

  /** The sign and the digits of the mantissa, with no exponent yet. */
  function MantissaParts(t: Text, m: MantissaSpan): (r: DecimalParts)
    requires m == ScanMantissa(t)
    ensures forall k | 0 <= k < |r.intDigits| :: IsDigit(r.intDigits[k])
    ensures forall k | 0 <= k < |r.fracDigits| :: IsDigit(r.fracDigits[k])
    ensures r.exponent == 0
  {
    SliceDigits(t, m.i0, m.i1);
    FractionDigits(t, m);
    DecimalParts(m.i0 == 1 && t[0] == MINUS, t[m.i0..m.i1], Fraction(t, m), 0)
  }

  /** The digits after the point, if there is one. */
  function Fraction(t: Text, m: MantissaSpan): Text
    requires m == ScanMantissa(t)
  {
    if m.hasDot then t[m.i1 + 1..m.i2] else []
  }

  lemma FractionDigits(t: Text, m: MantissaSpan)
    requires m == ScanMantissa(t)
    ensures forall k | 0 <= k < |Fraction(t, m)| :: IsDigit(Fraction(t, m)[k])
  {
    if m.hasDot {
      SliceDigits(t, m.i1 + 1, m.i2);
    }
  }

  lemma SliceDigits(t: Text, i: nat, j: nat)
    requires i <= j <= |t| && forall k | i <= k < j :: IsDigit(t[k])
    ensures forall k | 0 <= k < j - i :: IsDigit(t[i..j][k])
  {
  }

  /** How many digits the mantissa has, before and after the point. */
  function DigitCount(m: MantissaSpan): int {
    (m.i1 - m.i0) + (if m.hasDot then m.i2 - m.i1 - 1 else 0)
  }

  /** The exponent from i2 on: `e` or `E`, an optional sign and digits to the end. */
  function ScanExponent(t: Text, i2: nat): (r: Option<int>)
    requires i2 < |t|
  {
    if !IsExponentMark(t[i2]) then None
    else
      var i3 := i2 + 1 + SignLength(t, i2 + 1);
      var c := DigitRun(t, i3);
      if c == 0 || i3 + c != |t| then None
      else
        var e := DigitsValue(t[i3..i3 + c]);
        Some(if i3 == i2 + 2 && t[i2 + 1] == MINUS then -(e as int) else e)
  }

  predicate IsDecimalLexeme(t: Text) {
    SplitDecimal(t).Some?
  }

  /** `new BigDecimal(String)` on number characters: the decimal grammar, with an
      exponent that fits in an int and a scale (the count of fraction digits less
      the exponent) that fits in an int too; otherwise NumberFormatException. */
  predicate IsBigDecimalLexeme(t: Text) {
    match SplitDecimal(t)
    case None => false
    case Some(p) => InSigned(p.exponent, INT_MODULUS) && InSigned(|p.fracDigits| - p.exponent, INT_MODULUS)
  }

  /** `1e<n>` with n at least 2147483648 fits the decimal grammar (`Double.parseDouble`
      reads it as Infinity), but its exponent is past the int range, so
      `new BigDecimal` refuses it. */
  lemma {:induction false} ExponentPastInt(n: nat)
    requires n >= INT_MODULUS / 2
    ensures var t: Text := [0x31, 0x65] + NatText(n);
      IsDecimalLexeme(t) && !IsBigDecimalLexeme(t)
  {
    var t: Text := [0x31, 0x65] + NatText(n);
    assert DigitRun(t, 1) == 0 && DigitRun(t, 0) == 1;
    assert ScanMantissa(t) == MantissaSpan(0, 1, false, 1);
    DigitRunAll(t, 2);
    assert t[2..|t|] == NatText(n);
    NatTextValue(n);
    assert SplitDecimal(t).value.exponent == n;
  }

  /** The exact value of a decimal lexeme, truncated toward zero. */
  function Truncate(p: DecimalParts): int
    requires forall k | 0 <= k < |p.intDigits| :: IsDigit(p.intDigits[k])
    requires forall k | 0 <= k < |p.fracDigits| :: IsDigit(p.fracDigits[k])
  {
    var m := DigitsValue(p.intDigits + p.fracDigits);
    var shift := p.exponent - |p.fracDigits|;
    var magnitude := if shift >= 0 then m * Pow10(shift) else m / Pow10(-shift);
    if p.negative then -magnitude else magnitude
  }

  /** `Long.parseLong`: an optional sign and at least one digit, in the long range;
      None stands for its NumberFormatException. */
  function ParseLong(t: Text): (r: Option<int>)
    ensures r.Some? ==> InSigned(r.value, LONG_MODULUS)
  {
    var i0 := SignLength(t, 0);
    var a := DigitRun(t, i0);
    if a == 0 || i0 + a != |t| then None
    else
      var v := DigitsValue(t[i0..]);
      var value: int := if i0 == 1 && t[0] == MINUS then -(v as int) else v;
      if InSigned(value, LONG_MODULUS) then Some(value) else None
  }

  /** The integral part of a number, as the narrowing conversions see it. A decimal
      lexeme outside the grammar (the parsers never make one) reads as zero. */
  function Whole(n: Number): int {
    match n
    case Integral(_, v) => v
    case Decimal(_, lexeme) =>
      match SplitDecimal(lexeme)
      case Some(parts) => Truncate(parts)
      case None => 0
  }

  /** `Number.intValue()`: integral boxes and BigDecimal keep the low 32 bits of the
      integral part; Float and Double saturate. */
  function IntValue(n: Number): (r: int)
    ensures InSigned(r, INT_MODULUS)
    ensures n.Integral? || n.dkind == JBigDecimal ==> r % INT_MODULUS == Whole(n) % INT_MODULUS
    ensures n.Decimal? && n.dkind != JBigDecimal ==> r == Clamp(Whole(n), INT_MODULUS)
  {
    if n.Decimal? && n.dkind != JBigDecimal then Clamp(Whole(n), INT_MODULUS)
    else Wrap(Whole(n), INT_MODULUS)
  }

  /** `Number.longValue()`. */
  function LongValue(n: Number): (r: int)
    ensures InSigned(r, LONG_MODULUS)
    ensures n.Integral? || n.dkind == JBigDecimal ==> r % LONG_MODULUS == Whole(n) % LONG_MODULUS
    ensures n.Decimal? && n.dkind != JBigDecimal ==> r == Clamp(Whole(n), LONG_MODULUS)
  {
    if n.Decimal? && n.dkind != JBigDecimal then Clamp(Whole(n), LONG_MODULUS)
    else Wrap(Whole(n), LONG_MODULUS)
  }

  /** `Number.shortValue()` and `Number.byteValue()`: the low bits of intValue(). */
  function NarrowValue(n: Number, modulus: int): (r: int)
    requires modulus == SHORT_MODULUS || modulus == BYTE_MODULUS
    ensures InSigned(r, modulus)
    ensures r % modulus == IntValue(n) % modulus
  {
    Wrap(IntValue(n), modulus)
  }

  /** `Number.floatValue()` and `Number.doubleValue()`: the same number as a Float or
      Double, kept as its decimal text. */
  function FloatingValue(n: Number, kind: DecimalKind): Number {
    Decimal(kind, NumberText(n))
  }

  // ---------------------------------------------------------------- Long.toString read back

  lemma {:induction false} DigitsValueSnoc(t: Text, d: CodeUnit)
    requires forall k | 0 <= k < |t| :: IsDigit(t[k])
    requires IsDigit(d)
    ensures DigitsValue(t + [d]) == DigitsValue(t) * 10 + (d as int - 0x30)
  {
    assert (t + [d])[..|t|] == t;
  }

  lemma {:induction false} NatTextValue(n: nat)
    ensures DigitsValue(NatText(n)) == n
    decreases n
  {
    if n < 10 {
      assert NatText(n) == [] + [DigitChar(n)];
      DigitsValueSnoc([], DigitChar(n));
    } else {
      NatTextValue(n / 10);
      DigitsValueSnoc(NatText(n / 10), DigitChar(n % 10));
    }
  }

  lemma DigitRunAll(t: Text, i: nat)
    requires i <= |t|
    requires forall k | i <= k < |t| :: IsDigit(t[k])
    ensures DigitRun(t, i) == |t| - i
    decreases |t| - i
  {
    if i < |t| {
      DigitRunAll(t, i + 1);
    }
  }

  /** `Long.parseLong(Long.toString(v)) == v`. */
  lemma ParseLongIntText(v: int)
    requires InSigned(v, LONG_MODULUS)
    ensures ParseLong(IntText(v)) == Some(v)
  {
    var t := IntText(v);
    var n: nat := if v < 0 then -v else v;
    NatTextValue(n);
    if v < 0 {
      assert t[1..] == NatText(n);
      DigitRunAll(t, 1);
    } else {
      assert t[0..] == t;
      DigitRunAll(t, 0);
    }
  }

  /** The integral text Long.toString writes is a decimal lexeme whose value is v. */
  lemma WholeIntText(v: int, kind: DecimalKind)
    ensures IsDecimalLexeme(IntText(v)) && IsBigDecimalLexeme(IntText(v))
    ensures Whole(Decimal(kind, IntText(v))) == v
  {
    var t := IntText(v);
    var n: nat := if v < 0 then -v else v;
    NatTextValue(n);
    IntTextSpan(v);
    assert NatText(n) + [] == NatText(n);
  }

  /** Long.toString's text is a sign and digits, with no point and no exponent. */
  lemma IntTextSpan(v: int)
    ensures var t := IntText(v); var i0 := if v < 0 then 1 else 0;
      && ScanMantissa(t) == MantissaSpan(i0, |t|, false, |t|)
      && SplitDecimal(t) == Some(DecimalParts(v < 0, NatText(if v < 0 then -v else v), [], 0))
  {
    var t := IntText(v);
    var n: nat := if v < 0 then -v else v;
    var i0 := if v < 0 then 1 else 0;
    assert t[i0..] == NatText(n);
    DigitRunAll(t, i0);
    assert SignLength(t, 0) == i0;
    assert t[i0..|t|] == NatText(n);
  }

  /** A decimal lexeme is a non-empty run of number characters starting with a sign,
      a digit or a point: the parsers collect it whole. */
  lemma DecimalLexemeChars(t: Text)
    requires IsDecimalLexeme(t)
    ensures |t| > 0 && (IsDigit(t[0]) || t[0] == PLUS || t[0] == MINUS || t[0] == DOT)
    ensures forall k | 0 <= k < |t| :: IsNumberChar(t[k])
  {
    var m := ScanMantissa(t);
    MantissaChars(t);
    if m.i2 < |t| {
      ExponentChars(t, m.i2);
    }
  }

  /** The sign, digits and point before the exponent are number characters. */
  lemma MantissaChars(t: Text)
    requires IsDecimalLexeme(t)
    ensures var m := ScanMantissa(t);
      && 0 < m.i2 && (IsDigit(t[0]) || t[0] == PLUS || t[0] == MINUS || t[0] == DOT)
      && (forall k | 0 <= k < m.i2 :: IsNumberChar(t[k]))
      && (m.i2 < |t| ==> ScanExponent(t, m.i2).Some?)
  {
    var m := ScanMantissa(t);
    assert DigitCount(m) > 0;
    forall k | 0 <= k < m.i2 ensures IsNumberChar(t[k]) {
      if k < m.i0 {
      } else if k < m.i1 {
        assert IsDigit(t[k]);
      } else if k == m.i1 {
      } else {
        assert IsDigit(t[k]);
      }
    }
  }

  /** An exponent is a mark, an optional sign and digits: number characters. */
  lemma ExponentChars(t: Text, i2: nat)
    requires i2 < |t| && ScanExponent(t, i2).Some?
    ensures forall k | i2 <= k < |t| :: IsNumberChar(t[k])
  {
    var i3 := i2 + 1 + SignLength(t, i2 + 1);
    assert forall k | i3 <= k < |t| :: IsDigit(t[k]);
  }
}
