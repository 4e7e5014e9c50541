/** org.miktim.json.ParserJSON (src/org/miktim/json/ParserJSON.java): the stream
    parser that builds Json objects with superPut, reads numbers with its own
    toNumber (a Long, or a Double when the lexeme has a point or an exponent
    mark) and strings with its own strict unescapeString, and reports an unknown
    literal or a bad number at the offset just past it. */
module ParserJSON {
  import opened JavaLang
  import opened Values
  import opened Escape
  import Numbers
  import Cursor
  import Readers
  import P = JSON

  // ---------------------------------------------------------------- toNumber

  /** The lexeme has a point or an exponent mark: `indexOf('.')`, `indexOf('E')` or
      `indexOf('e')` is not negative. */
  predicate Floating(t: Text) {
    DOT in t || 0x45 in t || 0x65 in t
  }

  /** `toNumber(number)`: a Double when the lexeme has a point or an exponent mark,
      a Long otherwise; the NumberFormatException of parseDouble or parseLong when
      the lexeme does not fit. The Double keeps its lexeme (binary rounding is not
      modelled). */
  function ToNumber(t: Text): (r: Result<Number>)
    ensures r.Err? ==> r.error == NumberFormatException
    ensures r.Ok? && r.value.Integral? ==> r.value.ikind == JLong && !Floating(t)
    ensures r.Ok? && r.value.Integral? ==> InSigned(r.value.value, LONG_MODULUS)
    ensures r.Ok? && r.value.Decimal? ==> r.value == Decimal(JDouble, t) && Floating(t)
    ensures r.Ok? && r.value.Decimal? ==> Numbers.IsDecimalLexeme(t)
  {
    if Floating(t) then
      if Numbers.IsDecimalLexeme(t) then Ok(Decimal(JDouble, t)) else Err(NumberFormatException)
    else match Numbers.ParseLong(t)
      case Some(v) => Ok(Integral(JLong, v))
      case None => Err(NumberFormatException)
  }

  /** What Long.parseLong accepts is a sign and digits: no point, no exponent. */
  lemma LongLexemeChars(t: Text)
    requires Numbers.ParseLong(t).Some?
    ensures forall k | 0 <= k < |t| :: IsDigit(t[k]) || t[k] == PLUS || t[k] == MINUS
    ensures !Floating(t)
  {
    var i0 := Numbers.SignLength(t, 0);
    var a := Numbers.DigitRun(t, i0);
    assert forall k | i0 <= k < i0 + a :: IsDigit(t[k]);
  }

  /** Every value a long can hold comes back from its Long.toString text as that
      same Long. */
  lemma ToNumberLongText(v: int)
    requires InSigned(v, LONG_MODULUS)
    ensures ToNumber(IntText(v)) == Ok(Integral(JLong, v))
  {
    Numbers.ParseLongIntText(v);
    LongLexemeChars(IntText(v));
  }

  /** The number toNumber builds, written with toString and read again, is the same
      number: a Long through its decimal digits, a Double through its lexeme. */
  lemma ToNumberText(t: Text)
    requires ToNumber(t).Ok?
    ensures ToNumber(NumberText(ToNumber(t).value)) == ToNumber(t)
  {
    var n := ToNumber(t).value;
    if n.Integral? {
      LongLexemeChars(t);
      ToNumberLongText(n.value);
    }
  }

  // ---------------------------------------------------------------- unescapeString

  /** One turn of ParserJSON's unescapeString loop at index i: the code units it
      appends and the index it continues from. A raw control character is refused,
      and so is a two-character escape outside the table; `\uXXXX` must hold four
      code units Integer.parseInt reads in base 16. The errors point at the control
      character or at the backslash. A lone backslash at the very end runs off the
      char array. */
  function StrictStep(s: Text, i: nat): (r: Result<(Text, nat)>)
    requires i < |s|
    ensures r.Ok? ==> i < r.value.1 <= |s|
    ensures s[i] < SPACE ==> r == Err(ParseException(UnescapedControlChar, s, i))
  {
    if s[i] != BACKSLASH then
      if s[i] < SPACE then Err(ParseException(UnescapedControlChar, s, i)) else Ok(([s[i]], i + 1))
    else if i + 1 == |s| then Err(IndexOutOfBoundsException)
    else match ShortUnescape(s[i + 1])
      case Some(u) => Ok(([u], i + 2))
      case None =>
        if s[i + 1] != LOWER_U then Err(ParseException(WrongTwoCharEscape, s, i))
        else if |s| < i + 6 then Err(ParseException(UnparseableUEscape, s, i))
        else match ParseIntRadix16(s[i + 2..i + 6])
          case None => Err(ParseException(UnparseableUEscape, s, i))
          case Some(v) => Ok(([(v % 0x1_0000) as CodeUnit], i + 6))
  }

  /** The strict unescapeString from index i on. */
  function StrictFrom(s: Text, i: nat): (r: Result<Text>)
    requires i <= |s|
    decreases |s| - i
  {
    if i == |s| then Ok([])
    else match StrictStep(s, i)
      case Err(e) => Err(e)
      case Ok((u, j)) => Prepend(u, StrictFrom(s, j))
  }

  function StrictUnescape(s: Text): Result<Text> {
    StrictFrom(s, 0)
  }

  /** Where the strict step succeeds, it does what the lenient step of JSON.java
      does; where only the lenient one succeeds, the strict one has met a control
      character or an unknown two-character escape. */
  lemma StrictStepAgrees(s: Text, i: nat)
    requires i < |s|
    ensures StrictStep(s, i).Ok? ==> StrictStep(s, i) == P.UnescapeStep(s, i)
    ensures StrictStep(s, i).Err? && P.UnescapeStep(s, i).Ok? ==>
      StrictStep(s, i).error.ParseException?
      && StrictStep(s, i).error.kind in {UnescapedControlChar, WrongTwoCharEscape}
    ensures P.UnescapeStep(s, i).Err? ==> StrictStep(s, i) == P.UnescapeStep(s, i)
  {
  }

  /** The strict unescapeString accepts less than the lenient one, and what it
      accepts it reads the same way. */
  lemma {:induction false} StrictAgrees(s: Text, i: nat)
    requires i <= |s|
    ensures StrictFrom(s, i).Ok? ==> StrictFrom(s, i) == P.UnescapeFrom(s, i)
    decreases |s| - i
  {
    if i < |s| {
      StrictStepAgrees(s, i);
      match StrictStep(s, i)
      case Err(_) =>
      case Ok((u, j)) => StrictAgrees(s, j);
    }
  }

  /** On a well-escaped text the strict unescapeString never complains. */
  lemma {:induction false} WellEscapedAccepted(s: Text, i: nat)
    requires i <= |s| && WellEscapedFrom(s, i)
    ensures StrictFrom(s, i).Ok?
    decreases |s| - i
  {
    if i < |s| {
      match StrictStep(s, i)
      case Err(_) =>
        assert false;
      case Ok((u, j)) => WellEscapedAccepted(s, j);
    }
  }

  /** ParserJSON's unescapeString undoes escapeString (of JSON.java and of
      JSONGenerator.java, which are the same code) for every UTF-16 string. */
  lemma StrictUnescapeEscape(s: Text)
    ensures StrictUnescape(Escaped(s)) == Ok(s)
  {
    EscapedWell(s);
    WellEscapedAccepted(Escaped(s), 0);
    StrictAgrees(Escaped(s), 0);
    P.UnescapeEscape(s);
  }

  /** A raw control character anywhere in the text, even after a backslash or among
      the digits of a `\u` escape, makes the strict unescapeString fail. */
  lemma {:induction false} StrictRefusesControl(s: Text, i: nat, k: nat)
    requires i <= k < |s| && s[k] < SPACE
    ensures StrictFrom(s, i).Err?
    decreases |s| - i
  {
    match StrictStep(s, i)
    case Err(_) =>
    case Ok((u, j)) =>
      StrictStepPrintable(s, i);
      if j <= k {
        StrictRefusesControl(s, j, k);
      }
  }

  /** A step the strict unescapeString takes covers no control character. */
  lemma StrictStepPrintable(s: Text, i: nat)
    requires i < |s| && StrictStep(s, i).Ok?
    ensures forall m | i <= m < StrictStep(s, i).value.1 :: s[m] >= SPACE
  {
    if s[i] == BACKSLASH && ShortUnescape(s[i + 1]).None? {
      var h := s[i + 2..i + 6];
      assert forall m | i + 2 <= m < i + 6 :: s[m] == h[m - (i + 2)];
    }
  }

  /** The strict unescapeString refuses any two-character escape outside the
      table that it reaches. */
  lemma StrictRefusesUnknownEscape(s: Text, i: nat)
    requires i + 1 < |s| && s[i] == BACKSLASH
    requires ShortUnescape(s[i + 1]).None? && s[i + 1] != LOWER_U
    ensures StrictFrom(s, i) == Err(ParseException(WrongTwoCharEscape, s, i))
  {
  }

  /** ParserJSON's unescapeString: the loop over the char array. */
  method StrictUnescapeString(s: Text) returns (r: Result<Text>)
    ensures r == StrictUnescape(s)
  {
    var sb: Text := [];
    var i := 0;
    assert StrictUnescape(s).Ok? ==> [] + StrictUnescape(s).value == StrictUnescape(s).value;
    while i < |s|
      invariant 0 <= i <= |s|
      invariant StrictUnescape(s) == Prepend(sb, StrictFrom(s, i))
      decreases |s| - i
    {
      var c := s[i];
      if c == BACKSLASH {
        if i + 1 == |s| {
          return Err(IndexOutOfBoundsException);
        }
        var letter := ShortUnescape(s[i + 1]);
        if letter.Some? {
          c := letter.value;
          PrependTwice(sb, [c], StrictFrom(s, i + 2));
          sb := sb + [c];
          i := i + 2;
          continue;
        }
        if s[i + 1] != LOWER_U {
          return Err(ParseException(WrongTwoCharEscape, s, i));
        }
        if |s| < i + 6 {
          return Err(ParseException(UnparseableUEscape, s, i));
        }
        var v := ParseIntRadix16(s[i + 2..i + 6]);
        if v.None? {
          return Err(ParseException(UnparseableUEscape, s, i));
        }
        c := (v.value % 0x1_0000) as CodeUnit;
        PrependTwice(sb, [c], StrictFrom(s, i + 6));
        sb := sb + [c];
        i := i + 6;
        continue;
      } else if c < SPACE {
        return Err(ParseException(UnescapedControlChar, s, i));
      }
      PrependTwice(sb, [c], StrictFrom(s, i + 1));
      sb := sb + [c];
      i := i + 1;
    }
    assert sb + [] == sb;
    r := Ok(sb);
  }

  // ---------------------------------------------------------------- parseObject

  /** The offset the parsers start from: the first code unit read is at 0. */
  const ORIGIN: int := -1

  /** parseObject: an object, an array, a string, a literal or a number, with the
      whitespace after it. */
  function ParseValue(input: Text, s: Cursor.State): (r: Result<(JVal, Cursor.State)>)
    requires Cursor.Valid(input, ORIGIN, s)
    ensures r.Ok? ==> Cursor.Valid(input, ORIGIN, r.value.1) && r.value.1.next > s.next
    ensures r.Ok? ==> !Cursor.IsWhitespace(Cursor.LastChar(r.value.1))
    decreases Cursor.Remaining(input, s), 0
  {
    var (isObject, s1) := Cursor.ExpectedChar(input, ORIGIN, s, LBRACE).value;
    if isObject then ParseObjectBody(input, s1)
    else
      var (isArray, s2) := Cursor.ExpectedChar(input, ORIGIN, s1, LBRACKET).value;
      if isArray then ParseArrayBody(input, s2)
      else ParseScalar(input, s2)
  }

  /** parseObject once the `{` is read: no members or a list of members, then `}`. */
  function ParseObjectBody(input: Text, s1: Cursor.State): (r: Result<(JVal, Cursor.State)>)
    requires Cursor.Valid(input, ORIGIN, s1)
    ensures r.Ok? ==> Cursor.Valid(input, ORIGIN, r.value.1) && r.value.1.next > s1.next
    ensures r.Ok? ==> !Cursor.IsWhitespace(Cursor.LastChar(r.value.1))
    decreases Cursor.Remaining(input, s1), 2
  {
    var (isEmpty, s2) := Cursor.ExpectedChar(input, ORIGIN, s1, RBRACE).value;
    if isEmpty then Ok((Map(JsonMap, []), Cursor.SkipWhitespaces(input, ORIGIN, s2)))
    else
      var members :- ParseMembers(input, s2, []);
      var (closed, s3) := Cursor.ExpectedChar(input, ORIGIN, members.1, RBRACE).value;
      if !closed then Err(ParseException(CloseBraceExpected, [], s3.offset))
      else Ok((Map(JsonMap, members.0), Cursor.SkipWhitespaces(input, ORIGIN, s3)))
  }

  /** parseObject once the `[` is read: no elements or a list of elements, then `]`;
      `list.toArray()` makes an Object[]. */
  function ParseArrayBody(input: Text, s2: Cursor.State): (r: Result<(JVal, Cursor.State)>)
    requires Cursor.Valid(input, ORIGIN, s2)
    ensures r.Ok? ==> Cursor.Valid(input, ORIGIN, r.value.1) && r.value.1.next > s2.next
    ensures r.Ok? ==> !Cursor.IsWhitespace(Cursor.LastChar(r.value.1))
    decreases Cursor.Remaining(input, s2), 2
  {
    var (isEmpty, s3) := Cursor.ExpectedChar(input, ORIGIN, s2, RBRACKET).value;
    if isEmpty then Ok((Arr(OBJECT, []), Cursor.SkipWhitespaces(input, ORIGIN, s3)))
    else
      var elements :- ParseElements(input, s3, []);
      var (closed, s4) := Cursor.ExpectedChar(input, ORIGIN, elements.1, RBRACKET).value;
      if !closed then Err(ParseException(CloseBracketExpected, [], s4.offset))
      else Ok((Arr(OBJECT, elements.0), Cursor.SkipWhitespaces(input, ORIGIN, s4)))
  }

  /** The do-while loop over the members of an object, stored with superPut: no
      name normalisation, and a repeated name keeps its place and takes the later
      value. */
  function ParseMembers(input: Text, s: Cursor.State, acc: seq<Entry>): (r: Result<(seq<Entry>, Cursor.State)>)
    requires Cursor.Valid(input, ORIGIN, s)
    ensures r.Ok? ==> Cursor.Valid(input, ORIGIN, r.value.1) && r.value.1.next > s.next
    decreases Cursor.Remaining(input, s), 1
  {
    var name :- ParseValue(input, s);
    if !name.0.Str? then Err(ParseException(NameExpected, [], name.1.offset))
    else
      var (colon, s1) := Cursor.ExpectedChar(input, ORIGIN, name.1, COLON).value;
      if !colon then Err(ParseException(NameExpected, [], s1.offset))
      else
        var value :- ParseValue(input, s1);
        var members := Put(acc, name.0, value.0);
        var (comma, s2) := Cursor.ExpectedChar(input, ORIGIN, value.1, COMMA).value;
        if comma then ParseMembers(input, s2, members) else Ok((members, s2))
  }

  /** The do-while loop over the elements of an array. */
  function ParseElements(input: Text, s: Cursor.State, acc: seq<JVal>): (r: Result<(seq<JVal>, Cursor.State)>)
    requires Cursor.Valid(input, ORIGIN, s)
    ensures r.Ok? ==> Cursor.Valid(input, ORIGIN, r.value.1) && r.value.1.next > s.next
    decreases Cursor.Remaining(input, s), 1
  {
    var element :- ParseValue(input, s);
    var (comma, s1) := Cursor.ExpectedChar(input, ORIGIN, element.1, COMMA).value;
    if comma then ParseElements(input, s1, acc + [element.0]) else Ok((acc + [element.0], s1))
  }

  /** parseObject's string, literal, number and error branches. A string is read
      up to its closing quote (the loop is JSON.java's, `P.ScanString`), unescaped,
      and only then is the quote skipped. */
  function ParseScalar(input: Text, s: Cursor.State): (r: Result<(JVal, Cursor.State)>)
    requires Cursor.Valid(input, ORIGIN, s)
    ensures r.Ok? ==> Cursor.Valid(input, ORIGIN, r.value.1) && r.value.1.next > s.next
    ensures r.Ok? ==> !Cursor.IsWhitespace(Cursor.LastChar(r.value.1))
  {
    var c := Cursor.LastChar(s);
    if c == QUOTE then
      var scanned :- P.ScanString(input, s, []);
      var text :- StrictUnescape(scanned.0);
      var s1 := Cursor.GetChar(input, ORIGIN, scanned.1).value;
      Ok((Str(text), Cursor.SkipWhitespaces(input, ORIGIN, s1)))
    else if Cursor.IsLiteralChar(c) then
      var (literal, s1) := Cursor.NextChars(input, ORIGIN, s, Cursor.Literals);
      if literal == Ascii("true") then Ok((Bool(true), Cursor.SkipWhitespaces(input, ORIGIN, s1)))
      else if literal == Ascii("false") then Ok((Bool(false), Cursor.SkipWhitespaces(input, ORIGIN, s1)))
      else if literal == Ascii("null") then Ok((Null, Cursor.SkipWhitespaces(input, ORIGIN, s1)))
      else Err(ParseException(UnknownLiteral, literal, s1.offset))
    else if Numbers.IsNumberChar(c) then
      var (number, s1) := Cursor.NextChars(input, ORIGIN, s, Cursor.NumberChars);
      match ToNumber(number)
      case Ok(n) => Ok((Num(n), Cursor.SkipWhitespaces(input, ORIGIN, s1)))
      case Err(_) => Err(ParseException(UnparseableNumber, number, s1.offset))
    else Err(ParseException(UnexpectedChar, IntText(s.lastChar), s.offset))
  }

  /** The first value of a fresh parser's text: `new ParserJSON(...).parseObject()`.
      Nothing demands the end of text after it. */
  function FirstValue(input: Text): Result<JVal> {
    var top :- ParseValue(input, Cursor.Start(ORIGIN));
    Ok(top.0)
  }

  /** ParserJSON: the reader with the cursor fields lastChar and offset. */
  class Parser {
    const reader: Readers.Reader

    /** The parser over a text, with lastChar = 0x20 and offset = -1. */
    constructor (text: Text)
      ensures reader.input == text && fresh(reader)
      ensures Ready() && reader.State() == Cursor.Start(ORIGIN)
    {
      reader := new Readers.Reader(text, ORIGIN);
    }

    predicate Ready()
      reads this, reader
    {
      reader.Valid() && reader.origin == ORIGIN
    }

    method ParseObject() returns (r: Result<JVal>)
      requires Ready()
      modifies reader
      ensures Ready()
      ensures Cursor.Follows(ParseValue(reader.input, old(reader.State())), r, reader.State())
      decreases Cursor.Remaining(reader.input, reader.State()), 0
    {
      var isObject := reader.ExpectedChar(LBRACE);
      if isObject {
        var isEmpty := reader.ExpectedChar(RBRACE);
        var members: seq<Entry> := [];
        if !isEmpty {
          members :- ReadMembers();
          var closed := reader.ExpectedChar(RBRACE);
          if !closed {
            return Err(ParseException(CloseBraceExpected, [], reader.offset));
          }
        }
        var _ := reader.SkipWhitespaces();
        return Ok(Map(JsonMap, members));
      }
      var isArray := reader.ExpectedChar(LBRACKET);
      if isArray {
        var isEmpty := reader.ExpectedChar(RBRACKET);
        var list: seq<JVal> := [];
        if !isEmpty {
          list :- ReadElements();
          var closed := reader.ExpectedChar(RBRACKET);
          if !closed {
            return Err(ParseException(CloseBracketExpected, [], reader.offset));
          }
        }
        var _ := reader.SkipWhitespaces();
        return Ok(Arr(OBJECT, list));
      }
      r := ReadScalar();
    }

    /** The members loop of parseObject. */
    method ReadMembers() returns (r: Result<seq<Entry>>)
      requires Ready()
      modifies reader
      ensures Ready()
      ensures Cursor.Follows(ParseMembers(reader.input, old(reader.State()), []), r, reader.State())
      decreases Cursor.Remaining(reader.input, reader.State()), 1
    {
      var members: seq<Entry> := [];
      ghost var spec := ParseMembers(reader.input, reader.State(), []);
      while true
        invariant Ready()
        invariant reader.next >= old(reader.next)
        invariant ParseMembers(reader.input, reader.State(), members) == spec
        decreases Cursor.Remaining(reader.input, reader.State())
      {
        var name :- ParseObject();
        if !name.Str? {
          return Err(ParseException(NameExpected, [], reader.offset));
        }
        var colon := reader.ExpectedChar(COLON);
        if !colon {
          return Err(ParseException(NameExpected, [], reader.offset));
        }
        var value :- ParseObject();
        members := Put(members, name, value);
        var comma := reader.ExpectedChar(COMMA);
        if !comma {
          return Ok(members);
        }
      }
    }

    /** The elements loop of parseObject. */
    method ReadElements() returns (r: Result<seq<JVal>>)
      requires Ready()
      modifies reader
      ensures Ready()
      ensures Cursor.Follows(ParseElements(reader.input, old(reader.State()), []), r, reader.State())
      decreases Cursor.Remaining(reader.input, reader.State()), 1
    {
      var list: seq<JVal> := [];
      ghost var spec := ParseElements(reader.input, reader.State(), []);
      while true
        invariant Ready()
        invariant reader.next >= old(reader.next)
        invariant ParseElements(reader.input, reader.State(), list) == spec
        decreases Cursor.Remaining(reader.input, reader.State())
      {
        var element :- ParseObject();
        list := list + [element];
        var comma := reader.ExpectedChar(COMMA);
        if !comma {
          return Ok(list);
        }
      }
    }

    /** parseObject's string, literal, number and error branches. */
    method ReadScalar() returns (r: Result<JVal>)
      requires Ready()
      modifies reader
      ensures Ready()
      ensures Cursor.Follows(ParseScalar(reader.input, old(reader.State())), r, reader.State())
    {
      var c := Cursor.LastChar(reader.State());
      if c == QUOTE {
        var sb :- ReadString();
        var text :- StrictUnescapeString(sb);
        var _ := reader.GetChar();
        var _ := reader.SkipWhitespaces();
        return Ok(Str(text));
      } else if Cursor.IsLiteralChar(c) {
        var literal := reader.NextChars(Cursor.Literals);
        if literal == Ascii("true") {
          r := Ok(Bool(true));
        } else if literal == Ascii("false") {
          r := Ok(Bool(false));
        } else if literal == Ascii("null") {
          r := Ok(Null);
        } else {
          return Err(ParseException(UnknownLiteral, literal, reader.offset));
        }
      } else if Numbers.IsNumberChar(c) {
        var number := reader.NextChars(Cursor.NumberChars);
        var n := ToNumber(number);
        if n.Err? {
          return Err(ParseException(UnparseableNumber, number, reader.offset));
        }
        r := Ok(Num(n.value));
      } else {
        return Err(ParseException(UnexpectedChar, IntText(reader.lastChar), reader.offset));
      }
      var _ := reader.SkipWhitespaces();
    }

    /** The string loop of parseObject: up to, and not past, the closing quote. */
    method ReadString() returns (r: Result<Text>)
      requires Ready()
      modifies reader
      ensures Ready()
      ensures Cursor.Follows(P.ScanString(reader.input, old(reader.State()), []), r, reader.State())
    {
      var sb: Text := [];
      ghost var spec := P.ScanString(reader.input, reader.State(), []);
      while true
        invariant Ready()
        invariant P.ScanString(reader.input, reader.State(), sb) == spec
        decreases Cursor.Remaining(reader.input, reader.State())
      {
        var c :- reader.GetChar();
        if c == QUOTE {
          return Ok(sb);
        }
        if c == BACKSLASH {
          var d := reader.GetChar();
          assert sb + [c] + [d.value] == sb + [c, d.value];
          sb := sb + [c] + [d.value];
        } else {
          sb := sb + [c];
        }
      }
    }
  }
  // ---------------------------------------------------------------- what parseObject returns

  /** The values the parsers build: null, Booleans, Strings, Longs, Doubles read
      from decimal lexemes, Object[] arrays of such values and Json maps whose
      member names are distinct Strings. */
  predicate Value(x: JVal)
    decreases x
  {
    match x
    case Null => true
    case Bool(_) => true
    case Num(n) =>
      || (n.Integral? && n.ikind == JLong && InSigned(n.value, LONG_MODULUS))
      || (n.Decimal? && n.dkind == JDouble && Numbers.IsDecimalLexeme(n.lexeme))
    case Str(_) => true
    case Arr(component, items) => component == OBJECT && forall y | y in items :: Value(y)
    case Map(cls, entries) =>
      cls == JsonMap && UniqueKeys(entries) && forall e | e in entries :: e.key.Str? && Value(e.value)
    case _ => false
  }

  /** The members of such a map. */
  predicate Members(entries: seq<Entry>) {
    UniqueKeys(entries) && forall e | e in entries :: e.key.Str? && Value(e.value)
  }

  /** An unescape error points into the string's own text: at a raw control
      character, or at the backslash of a bad escape. */
  predicate InString(e: Exception) {
    && e.ParseException?
    && 0 <= e.errorOffset < |e.lexeme|
    && (e.kind == UnescapedControlChar ==> e.lexeme[e.errorOffset] < SPACE)
    && (e.kind != UnescapedControlChar ==> e.lexeme[e.errorOffset] == BACKSLASH)
  }

  /** Where the exceptions of parseObject point: past the end for "Unexpected EOT";
      just past the offending lexeme for an unknown literal or a bad number; at the
      offending character, named by its decimal code (end of text as -1), for an
      unexpected character; into the string for a bad escape or a raw control
      character; at the offending token for the structural errors. */
  predicate Located(input: Text, e: Exception) {
    && e.ParseException?
    && match e.kind
       case UnexpectedEOT => e.errorOffset == |input| && e.lexeme == []
       case UnknownLiteral => P.Occurs(input, e.lexeme, e.errorOffset - |e.lexeme|)
       case UnparseableNumber => P.Occurs(input, e.lexeme, e.errorOffset - |e.lexeme|)
       case UnexpectedChar =>
         P.AtToken(input, e.errorOffset) && e.lexeme == IntText(Cursor.Read(input, e.errorOffset))
       case UnparseableUEscape => InString(e)
       case WrongTwoCharEscape => InString(e)
       case UnescapedControlChar => InString(e)
       case _ => e.lexeme == [] && P.AtToken(input, e.errorOffset)
  }

  /** The strict unescapeString of a text whose backslashes are paired fails, if at
      all, with a ParseException pointing into the text. */
  lemma {:induction false} StrictErrors(t: Text, i: nat)
    requires i <= |t| && PairedFrom(t, i)
    ensures var r := StrictFrom(t, i);
      r.Err? ==> (InString(r.error) && r.error.lexeme == t
        && r.error.kind in {UnparseableUEscape, WrongTwoCharEscape, UnescapedControlChar})
    decreases |t| - i
  {
    if i < |t| {
      match StrictStep(t, i)
      case Err(_) =>
      case Ok((u, j)) =>
        if t[i] == BACKSLASH && j == i + 6 {
          var h := t[i + 2..i + 6];
          assert forall k | i + 2 <= k < i + 6 :: t[k] == h[k - (i + 2)];
          PairedSkip(t, i + 2, i + 6);
        }
        StrictErrors(t, j);
    }
  }

  /** What parseObject reads is a Value, and every exception it throws is a located
      ParseException. */
  lemma {:induction false} ParseValueFacts(input: Text, s: Cursor.State)
    requires Cursor.Valid(input, ORIGIN, s)
    ensures var r := ParseValue(input, s);
      (r.Ok? ==> Value(r.value.0)) && (r.Err? ==> Located(input, r.error))
    decreases Cursor.Remaining(input, s), 1
  {
    var (isObject, s1) := Cursor.ExpectedChar(input, ORIGIN, s, LBRACE).value;
    if isObject {
      ObjectBodyFacts(input, s1);
    } else {
      var (isArray, s2) := Cursor.ExpectedChar(input, ORIGIN, s1, LBRACKET).value;
      if isArray {
        ArrayBodyFacts(input, s2);
      } else {
        ParseScalarFacts(input, s2);
      }
    }
  }

  lemma {:induction false} ObjectBodyFacts(input: Text, s1: Cursor.State)
    requires Cursor.Valid(input, ORIGIN, s1)
    ensures var r := ParseObjectBody(input, s1);
      (r.Ok? ==> Value(r.value.0)) && (r.Err? ==> Located(input, r.error))
    decreases Cursor.Remaining(input, s1), 3
  {
    var (isEmpty, s2) := Cursor.ExpectedChar(input, ORIGIN, s1, RBRACE).value;
    if !isEmpty {
      ParseMembersFacts(input, s2, []);
      var m := ParseMembers(input, s2, []);
      if m.Ok? {
        var (closed, s3) := Cursor.ExpectedChar(input, ORIGIN, m.value.1, RBRACE).value;
        if !closed {
          P.SkippedAtToken(input, s3);
        }
      }
    }
  }

  lemma {:induction false} ArrayBodyFacts(input: Text, s2: Cursor.State)
    requires Cursor.Valid(input, ORIGIN, s2)
    ensures var r := ParseArrayBody(input, s2);
      (r.Ok? ==> Value(r.value.0)) && (r.Err? ==> Located(input, r.error))
    decreases Cursor.Remaining(input, s2), 3
  {
    var (isEmpty, s3) := Cursor.ExpectedChar(input, ORIGIN, s2, RBRACKET).value;
    if !isEmpty {
      ParseElementsFacts(input, s3, []);
      var m := ParseElements(input, s3, []);
      if m.Ok? {
        var (closed, s4) := Cursor.ExpectedChar(input, ORIGIN, m.value.1, RBRACKET).value;
        if !closed {
          P.SkippedAtToken(input, s4);
        }
      }
    }
  }

  lemma {:induction false} ParseMembersFacts(input: Text, s: Cursor.State, acc: seq<Entry>)
    requires Cursor.Valid(input, ORIGIN, s) && Members(acc)
    ensures var r := ParseMembers(input, s, acc);
      (r.Ok? ==> Members(r.value.0)) && (r.Err? ==> Located(input, r.error))
    decreases Cursor.Remaining(input, s), 2
  {
    ParseValueFacts(input, s);
    var name := ParseValue(input, s);
    if name.Ok? {
      if !name.value.0.Str? {
        P.SkippedAtToken(input, name.value.1);
      } else {
        var (colon, s1) := Cursor.ExpectedChar(input, ORIGIN, name.value.1, COLON).value;
        if !colon {
          P.SkippedAtToken(input, s1);
        } else {
          NamedMemberFacts(input, s, acc);
        }
      }
    }
  }

  /** ParseMembersFacts once a name and its colon are read. */
  lemma {:induction false} NamedMemberFacts(input: Text, s: Cursor.State, acc: seq<Entry>)
    requires Cursor.Valid(input, ORIGIN, s) && Members(acc)
    requires var name := ParseValue(input, s);
      && name.Ok? && name.value.0.Str?
      && Cursor.ExpectedChar(input, ORIGIN, name.value.1, COLON).value.0
    ensures var r := ParseMembers(input, s, acc);
      (r.Ok? ==> Members(r.value.0)) && (r.Err? ==> Located(input, r.error))
    decreases Cursor.Remaining(input, s), 0
  {
    var name := ParseValue(input, s).value;
    var s1 := Cursor.ExpectedChar(input, ORIGIN, name.1, COLON).value.1;
    ParseValueFacts(input, s1);
    var value := ParseValue(input, s1);
    if value.Ok? {
      PutMembers(acc, name.0, value.value.0);
      var (comma, s2) := Cursor.ExpectedChar(input, ORIGIN, value.value.1, COMMA).value;
      if comma {
        ParseMembersFacts(input, s2, Put(acc, name.0, value.value.0));
      }
    }
  }

  /** superPut of a String name keeps the names distinct: the members stay Members. */
  lemma PutMembers(acc: seq<Entry>, name: JVal, value: JVal)
    requires Members(acc) && name.Str? && Value(value)
    ensures Members(Put(acc, name, value))
  {
    PutSemantics(acc, name, value);
    PutEntries(acc, name, value);
  }

  lemma {:induction false} ParseElementsFacts(input: Text, s: Cursor.State, acc: seq<JVal>)
    requires Cursor.Valid(input, ORIGIN, s) && forall x | x in acc :: Value(x)
    ensures var r := ParseElements(input, s, acc);
      (r.Ok? ==> forall x | x in r.value.0 :: Value(x)) && (r.Err? ==> Located(input, r.error))
    decreases Cursor.Remaining(input, s), 2
  {
    ParseValueFacts(input, s);
    var element := ParseValue(input, s);
    if element.Ok? {
      var (comma, s1) := Cursor.ExpectedChar(input, ORIGIN, element.value.1, COMMA).value;
      if comma {
        ParseElementsFacts(input, s1, acc + [element.value.0]);
      }
    }
  }

  lemma ParseScalarFacts(input: Text, s: Cursor.State)
    requires Cursor.Valid(input, ORIGIN, s) && !Cursor.IsWhitespace(Cursor.LastChar(s))
    ensures var r := ParseScalar(input, s);
      (r.Ok? ==> Value(r.value.0)) && (r.Err? ==> Located(input, r.error))
  {
    var c := Cursor.LastChar(s);
    P.SkippedAtToken(input, s);
    if c == QUOTE {
      StringScalarFacts(input, s);
    } else if Cursor.IsLiteralChar(c) {
      LiteralScalarFacts(input, s);
    } else if Numbers.IsNumberChar(c) {
      NumberScalarFacts(input, s);
    }
  }

  lemma StringScalarFacts(input: Text, s: Cursor.State)
    requires Cursor.Valid(input, ORIGIN, s) && Cursor.LastChar(s) == QUOTE
    ensures var r := ParseScalar(input, s);
      (r.Ok? ==> Value(r.value.0)) && (r.Err? ==> Located(input, r.error))
  {
    P.ScanStringPaired(input, s, []);
    var scanned := P.ScanString(input, s, []);
    if scanned.Ok? {
      assert scanned.value.0[..0] == [];
      StrictErrors(scanned.value.0, 0);
    }
  }

  lemma LiteralScalarFacts(input: Text, s: Cursor.State)
    requires Cursor.Valid(input, ORIGIN, s) && Cursor.IsLiteralChar(Cursor.LastChar(s))
    ensures var r := ParseScalar(input, s);
      (r.Ok? ==> Value(r.value.0)) && (r.Err? ==> Located(input, r.error))
  {
    RunOccurs(input, s, Cursor.Literals);
  }

  lemma NumberScalarFacts(input: Text, s: Cursor.State)
    requires Cursor.Valid(input, ORIGIN, s) && Cursor.LastChar(s) != QUOTE
    requires !Cursor.IsLiteralChar(Cursor.LastChar(s)) && Numbers.IsNumberChar(Cursor.LastChar(s))
    ensures var r := ParseScalar(input, s);
      (r.Ok? ==> Value(r.value.0)) && (r.Err? ==> Located(input, r.error))
  {
    RunOccurs(input, s, Cursor.NumberChars);
  }

  /** A run of literal letters or number characters sits in the input where its
      first character was read, and the cursor ends just past it. */
  lemma RunOccurs(input: Text, s: Cursor.State, table: Cursor.CharTable)
    requires Cursor.Valid(input, ORIGIN, s) && Cursor.In(table, Cursor.LastChar(s))
    requires table == Cursor.Literals || table == Cursor.NumberChars
    ensures var r := Cursor.NextChars(input, ORIGIN, s, table);
      r.0 != [] && P.Occurs(input, r.0, s.offset) && r.1.offset == s.offset + |r.0|
  {
    P.SkippedAtToken(input, s);
    Cursor.NextCharsText(input, ORIGIN, s, table);
  }
}
