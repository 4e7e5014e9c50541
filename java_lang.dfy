/** The pieces of the Java platform that the JSON library relies on: UTF-16 text,
    the exceptions it throws, integer narrowing and the decimal and hexadecimal
    renderings of integers. */
module JavaLang {

  /** A UTF-16 code unit, Java's `char`. */
  newtype CodeUnit = x: int | 0 <= x < 0x1_0000

  /** A Java `String`: a sequence of UTF-16 code units. */
  type Text = seq<CodeUnit>

  /** Java text spelled by a Dafny string literal (the literals used here are ASCII). */
  function Ascii(s: string): (t: Text)
    ensures |t| == |s|
  {
    seq(|s|, i requires 0 <= i < |s| => (s[i] as int % 0x1_0000) as CodeUnit)
  }

  const BACKSPACE: CodeUnit := 0x08
  const TAB: CodeUnit := 0x09
  const NEWLINE: CodeUnit := 0x0A
  const FORMFEED: CodeUnit := 0x0C
  const RETURN: CodeUnit := 0x0D
  const SPACE: CodeUnit := 0x20
  const QUOTE: CodeUnit := 0x22
  const COMMA: CodeUnit := 0x2C
  const MINUS: CodeUnit := 0x2D
  const PLUS: CodeUnit := 0x2B
  const DOT: CodeUnit := 0x2E
  const SLASH: CodeUnit := 0x2F
  const COLON: CodeUnit := 0x3A
  const BACKSLASH: CodeUnit := 0x5C
  const LBRACKET: CodeUnit := 0x5B
  const RBRACKET: CodeUnit := 0x5D
  const LBRACE: CodeUnit := 0x7B
  const RBRACE: CodeUnit := 0x7D
  const LOWER_U: CodeUnit := 0x75
  /** What `(char) -1` gives: the value `lastChar()` reports at end of text. */
  const CHAR_OF_EOF: CodeUnit := 0xFFFF

  predicate IsHighSurrogate(c: CodeUnit) { 0xD800 <= c <= 0xDBFF }
  predicate IsLowSurrogate(c: CodeUnit) { 0xDC00 <= c <= 0xDFFF }

  /** The kinds of `java.text.ParseException` the parsers raise, one per message. */
  datatype ParseKind =
    | UnexpectedEOT
    | NameExpected
    | CloseBraceExpected
    | CloseBracketExpected
    | UnknownLiteral
    | UnparseableNumber
    | UnexpectedChar
    | EOTExpected
    | UnparseableUEscape
    | WrongTwoCharEscape
    | UnescapedControlChar

  /** The exceptions and errors the library lets escape. A parse exception keeps
      the lexeme its message names (empty when it names none) and its error offset. */
  datatype Exception =
    | ParseException(kind: ParseKind, lexeme: Text, errorOffset: int)
    | NumberFormatException
    | IndexOutOfBoundsException
    | IllegalArgumentException
    | ClassCastException
    | NullPointerException
    | CloneNotSupportedException
    | StackOverflowError

  /** The outcome of a Java call: a value, or the exception it throws. */
  datatype Result<+T> = Ok(value: T) | Err(error: Exception) {
    predicate IsFailure() { Err? }
    function PropagateFailure<U>(): Result<U> requires Err? { Err(error) }
    function Extract(): T requires Ok? { value }
  }

  datatype Option<+T> = None | Some(value: T)

  // ---------------------------------------------------------------- integers

  const BYTE_MODULUS: int := 0x100
  const SHORT_MODULUS: int := 0x1_0000
  const INT_MODULUS: int := 0x1_0000_0000
  const LONG_MODULUS: int := 0x1_0000_0000_0000_0000

  /** Whether v is representable in two's complement with the given modulus. */
  predicate InSigned(v: int, modulus: int)
    requires modulus >= 2
  {
    -(modulus / 2) <= v < modulus / 2
  }

  /** Java's narrowing primitive conversion between integral types: keep the low
      bits and read them as a two's-complement number. */
  function Wrap(v: int, modulus: int): (r: int)
    requires modulus >= 2 && modulus % 2 == 0
    ensures InSigned(r, modulus)
    ensures r % modulus == v % modulus
    ensures InSigned(v, modulus) ==> r == v
  {
    WrapFacts(v, modulus);
    var low := v % modulus;
    if low >= modulus / 2 then low - modulus else low
  }

  /** The remainder of v, and of the remainder less the modulus, with a small v
      read back unchanged. */
  lemma WrapFacts(v: int, modulus: int)
    requires modulus >= 2
    ensures 0 <= v % modulus < modulus
    ensures (v % modulus - modulus) % modulus == v % modulus && (v % modulus) % modulus == v % modulus
    ensures 0 <= v < modulus ==> v % modulus == v
    ensures -modulus <= v < 0 ==> v % modulus == v + modulus
  {
    var low := v % modulus;
    ModUnique(v, modulus, v / modulus, low);
    ModUnique(low - modulus, modulus, -1, low);
    ModUnique(low, modulus, 0, low);
    if 0 <= v < modulus {
      ModUnique(v, modulus, 0, v);
    } else if -modulus <= v < 0 {
      ModUnique(v, modulus, -1, v + modulus);
    }
  }

  /** Euclidean division has one quotient and one remainder. */
  lemma ModUnique(v: int, m: int, q: int, r: int)
    requires m > 0 && v == m * q + r && 0 <= r < m
    ensures v % m == r
  {
    var q0, r0 := v / m, v % m;
    assert m * (q - q0) == r0 - r;
    if q > q0 {
      MulAtLeast(m, q - q0);
    } else if q < q0 {
      MulAtLeast(m, q0 - q);
    }
  }

  lemma {:induction false} MulAtLeast(m: int, k: int)
    requires m > 0 && k >= 1
    ensures m * k >= m
    decreases k
  {
    if k > 1 {
      MulAtLeast(m, k - 1);
      assert m * k == m * (k - 1) + m;
    }
  }

  /** Java's conversion of an out-of-range floating value to int or long: saturate. */
  function Clamp(v: int, modulus: int): (r: int)
    requires modulus >= 2
    ensures InSigned(r, modulus)
    ensures InSigned(v, modulus) ==> r == v
    ensures v < r ==> r == -(modulus / 2)
    ensures r < v ==> r == modulus / 2 - 1
  {
    if v < -(modulus / 2) then -(modulus / 2)
    else if v >= modulus / 2 then modulus / 2 - 1
    else v
  }

  // ---------------------------------------------------------------- decimal and hexadecimal

  predicate IsDigit(c: CodeUnit) { 0x30 <= c <= 0x39 }

  function DigitChar(d: nat): (c: CodeUnit)
    requires d < 10
    ensures IsDigit(c) && c as int - 0x30 == d
  {
    (0x30 + d) as CodeUnit
  }

  /** The decimal digits of a natural number, most significant first. */
  function NatText(n: nat): (t: Text)
    ensures |t| > 0
    ensures forall i | 0 <= i < |t| :: IsDigit(t[i])
    decreases n
  {
    if n < 10 then [DigitChar(n)] else NatText(n / 10) + [DigitChar(n % 10)]
  }

  /** `Long.toString`: an optional minus sign and the decimal digits. */
  function IntText(v: int): (t: Text)
    ensures |t| > 0
  {
    if v < 0 then [MINUS] + NatText(-v) else NatText(v)
  }

  /** The upper-case hexadecimal digit `String.format("%X")` writes. */
  function HexDigitChar(d: nat): (c: CodeUnit)
    requires d < 16
    ensures 0x30 <= c <= 0x39 || 0x41 <= c <= 0x46
  {
    if d < 10 then (0x30 + d) as CodeUnit else (0x41 + d - 10) as CodeUnit
  }

  /** How many runs of ten decimal digits (general category Nd) lie beyond ASCII in
      the Basic Multilingual Plane as of Unicode 6.2, the version Java 8's Character
      follows. */
  const DIGIT_RUNS: nat := 34

  /** The zero of the k-th of those runs, in increasing order: Arabic-Indic, Extended
      Arabic-Indic, NKo, Devanagari, ..., fullwidth. */
  function DigitZero(k: nat): (z: int)
    requires k < DIGIT_RUNS
    ensures 0x0660 <= z <= 0xFF10
  {
    match k
    case 0 => 0x0660
    case 1 => 0x06F0
    case 2 => 0x07C0
    case 3 => 0x0966
    case 4 => 0x09E6
    case 5 => 0x0A66
    case 6 => 0x0AE6
    case 7 => 0x0B66
    case 8 => 0x0BE6
    case 9 => 0x0C66
    case 10 => 0x0CE6
    case 11 => 0x0D66
    case 12 => 0x0E50
    case 13 => 0x0ED0
    case 14 => 0x0F20
    case 15 => 0x1040
    case 16 => 0x1090
    case 17 => 0x17E0
    case 18 => 0x1810
    case 19 => 0x1946
    case 20 => 0x19D0
    case 21 => 0x1A80
    case 22 => 0x1A90
    case 23 => 0x1B50
    case 24 => 0x1BB0
    case 25 => 0x1C40
    case 26 => 0x1C50
    case 27 => 0xA620
    case 28 => 0xA8D0
    case 29 => 0xA900
    case 30 => 0xA9D0
    case 31 => 0xAA50
    case 32 => 0xABF0
    case _ => 0xFF10
  }

  /** The decimal value of c if it lies in one of the runs from the k-th on. */
  function RunDigit(c: CodeUnit, k: nat): (r: Option<nat>)
    requires k <= DIGIT_RUNS
    ensures r.Some? ==> r.value < 10
    decreases DIGIT_RUNS - k
  {
    if k == DIGIT_RUNS then None
    else if DigitZero(k) <= c as int < DigitZero(k) + 10 then Some(c as int - DigitZero(k))
    else RunDigit(c, k + 1)
  }

  /** The Latin letters A-F and a-f, in ASCII or fullwidth. */
  predicate IsHexLetter(c: CodeUnit) {
    0x41 <= c <= 0x46 || 0x61 <= c <= 0x66 || 0xFF21 <= c <= 0xFF26 || 0xFF41 <= c <= 0xFF46
  }

  /** `Character.digit(c, 16)`: a decimal digit of any script gives its value, the Latin
      letters A-F and a-f, in ASCII or fullwidth, give 10 to 15; anything else is -1,
      written None here. */
  function HexValue(c: CodeUnit): (r: Option<nat>)
    ensures r.Some? ==> r.value < 16
    ensures r.Some? ==> 0x30 <= c <= 0x39 || IsHexLetter(c) || 0x0660 <= c
  {
    if 0x30 <= c <= 0x39 then Some(c as int - 0x30)
    else if 0x41 <= c <= 0x46 then Some(c as int - 0x41 + 10)
    else if 0x61 <= c <= 0x66 then Some(c as int - 0x61 + 10)
    else if 0xFF21 <= c <= 0xFF26 then Some(c as int - 0xFF21 + 10)
    else if 0xFF41 <= c <= 0xFF46 then Some(c as int - 0xFF41 + 10)
    else if c < 0x0660 then None
    else RunDigit(c, 0)
  }

  /** c is a digit of the runs from the k-th on exactly when it lies in one of them,
      and then it is that run's zero plus its value. */
  lemma {:induction false} RunDigitMeaning(c: CodeUnit, k: nat)
    requires k <= DIGIT_RUNS
    ensures RunDigit(c, k).Some? <==> exists j | k <= j < DIGIT_RUNS :: DigitZero(j) <= c as int < DigitZero(j) + 10
    ensures RunDigit(c, k).Some? ==> exists j | k <= j < DIGIT_RUNS :: DigitZero(j) + RunDigit(c, k).value == c as int
    decreases DIGIT_RUNS - k
  {
    if k < DIGIT_RUNS && !(DigitZero(k) <= c as int < DigitZero(k) + 10) {
      RunDigitMeaning(c, k + 1);
    }
  }

  /** `Character.digit(c, 16)` is defined exactly on the ASCII digits, the hexadecimal
      letters and the decimal digits of every other script, and such a digit reads as
      its offset from its run's zero. */
  lemma HexValueMeaning(c: CodeUnit)
    ensures HexValue(c).Some? <==> (0x30 <= c <= 0x39 || IsHexLetter(c)
      || exists j | 0 <= j < DIGIT_RUNS :: DigitZero(j) <= c as int < DigitZero(j) + 10)
    ensures 0x30 <= c <= 0x39 ==> HexValue(c) == Some(c as int - 0x30)
    ensures HexValue(c).Some? && !(0x30 <= c <= 0x39) && !IsHexLetter(c)
      ==> exists j | 0 <= j < DIGIT_RUNS :: DigitZero(j) + HexValue(c).value == c as int
  {
    RunDigitMeaning(c, 0);
  }

  /** Beyond ASCII: the Arabic-Indic digits read 0 to 9 and the fullwidth letters A-F
      and a-f read 10 to 15, so `Integer.parseInt` takes them as hexadecimal digits. */
  lemma HexValueBeyondAscii(d: nat)
    requires d < 10
    ensures HexValue((0x0660 + d) as CodeUnit) == Some(d)
    ensures d < 6 ==> HexValue((0xFF21 + d) as CodeUnit) == Some(d + 10)
    ensures d < 6 ==> HexValue((0xFF41 + d) as CodeUnit) == Some(d + 10)
  {
    var c := (0x0660 + d) as CodeUnit;
    assert RunDigit(c, 0) == Some(d);
  }

  lemma HexDigitRoundTrip(d: nat)
    requires d < 16
    ensures HexValue(HexDigitChar(d)) == Some(d)
  {
  }

  /** `String.format("%04X", v)` for a value that fits in four digits. */
  function Hex4(v: nat): (t: Text)
    requires v < 0x1_0000
    ensures |t| == 4
    ensures forall k | 0 <= k < 4 :: 0x30 <= t[k] <= 0x46
  {
    [HexDigitChar(v / 0x1000), HexDigitChar(v / 0x100 % 0x10),
     HexDigitChar(v / 0x10 % 0x10), HexDigitChar(v % 0x10)]
  }

  /** The value of a run of hexadecimal digits as Character.digit(c, 16) reads them, or None if one is not a digit. */
  function HexDigitsValue(t: Text): (r: Option<nat>)
    ensures r.Some? <==> forall k | 0 <= k < |t| :: HexValue(t[k]).Some?
  {
    if t == [] then Some(0)
    else match (HexDigitsValue(t[..|t| - 1]), HexValue(t[|t| - 1]))
      case (Some(high), Some(low)) => Some(high * 16 + low)
      case _ => None
  }

  /** `Integer.parseInt(t, 16)`: an optional sign and at least one hexadecimal digit;
      None stands for the NumberFormatException it throws otherwise. Only four-digit
      texts are parsed here, so the int range is never exceeded. */
  function ParseIntRadix16(t: Text): (r: Option<int>)
    ensures |t| == 0 ==> r.None?
    ensures |t| > 0 && (t[0] == MINUS || t[0] == PLUS) && |t| == 1 ==> r.None?
    ensures r.Some? ==> forall k | 0 < k < |t| :: HexValue(t[k]).Some?
    ensures r.Some? ==> HexValue(t[0]).Some? || t[0] == MINUS || t[0] == PLUS
  {
    if |t| == 0 then None
    else
      var negative := t[0] == MINUS;
      var start := if t[0] == MINUS || t[0] == PLUS then 1 else 0;
      if start == 1 && |t| == 1 then None
      else match HexDigitsValue(t[start..])
        case None => None
        case Some(v) =>
          var value: int := if negative then -(v as int) else v;
          Some(value)
  }

  /** The four digits `Hex4` writes recombine to v. */
  lemma Hex4Digits(v: nat)
    requires v < 0x1_0000
    ensures ((v / 0x1000 * 16 + v / 0x100 % 0x10) * 16 + v / 0x10 % 0x10) * 16 + v % 0x10 == v
  {
    var q1, q2, q3 := v / 0x10, v / 0x100, v / 0x1000;
    assert q2 == q1 / 0x10;
    assert q3 == q2 / 0x10;
    assert q2 == q3 * 16 + q2 % 0x10;
    assert q1 == q2 * 16 + q1 % 0x10;
  }

  lemma HexDigitsValueSnoc(t: Text, c: CodeUnit, high: nat, low: nat)
    requires HexDigitsValue(t) == Some(high) && HexValue(c) == Some(low)
    ensures HexDigitsValue(t + [c]) == Some(high * 16 + low)
  {
    assert (t + [c])[..|t|] == t;
  }

  /** `String.format("%04X", v)` read back by `Integer.parseInt(_, 16)` gives v. */
  lemma {:induction false} Hex4RoundTrip(v: nat)
    requires v < 0x1_0000
    ensures ParseIntRadix16(Hex4(v)) == Some(v)
  {
    var t := Hex4(v);
    var d0, d1, d2, d3 := v / 0x1000, v / 0x100 % 0x10, v / 0x10 % 0x10, v % 0x10;
    HexDigitRoundTrip(d0);
    HexDigitRoundTrip(d1);
    HexDigitRoundTrip(d2);
    HexDigitRoundTrip(d3);
    HexDigitsValueSnoc([], t[0], 0, d0);
    assert [] + [t[0]] == t[..1];
    HexDigitsValueSnoc(t[..1], t[1], d0, d1);
    assert t[..1] + [t[1]] == t[..2];
    HexDigitsValueSnoc(t[..2], t[2], d0 * 16 + d1, d2);
    assert t[..2] + [t[2]] == t[..3];
    HexDigitsValueSnoc(t[..3], t[3], (d0 * 16 + d1) * 16 + d2, d3);
    assert t[..3] + [t[3]] == t && t[0..] == t;
    Hex4Digits(v);
  }
}
