/** org.miktim.json.JSON (src/org/miktim/json/JSON.java): a LinkedHashMap of members
    with its parser, its compact generator and its string escaping. */
module JSON {
  import opened JavaLang
  import opened Values
  import opened Escape
  import Numbers
  import Cursor
  import Readers

  // ---------------------------------------------------------------- unescapeString

  /** One turn of unescapeString's loop at index i: the code units it appends and
      the index it continues from. A two-character escape gives its code unit, an
      unknown escape `\x` gives x, `\uXXXX` gives the code unit Integer.parseInt
      reads (a bad or short one raises a ParseException at the backslash), and a
      trailing lone backslash runs off the char array. */
  function UnescapeStep(s: Text, i: nat): (r: Result<(Text, nat)>)
    requires i < |s|
    ensures r.Ok? ==> i < r.value.1 <= |s|
  {
    if s[i] != BACKSLASH then Ok(([s[i]], i + 1))
    else if i + 1 == |s| then Err(IndexOutOfBoundsException)
    else match ShortUnescape(s[i + 1])
      case Some(u) => Ok(([u], i + 2))
      case None =>
        if s[i + 1] != LOWER_U then Ok(([s[i + 1]], i + 2))
        else if |s| < i + 6 then Err(ParseException(UnparseableUEscape, s, i))
        else match ParseIntRadix16(s[i + 2..i + 6])
          case None => Err(ParseException(UnparseableUEscape, s, i))
          case Some(v) => Ok(([(v % 0x1_0000) as CodeUnit], i + 6))
  }

  /** unescapeString from index i on. */
  function UnescapeFrom(s: Text, i: nat): (r: Result<Text>)
    requires i <= |s|
    decreases |s| - i
  {
    if i == |s| then Ok([])
    else match UnescapeStep(s, i)
      case Err(e) => Err(e)
      case Ok((u, j)) => Prepend(u, UnescapeFrom(s, j))
  }

  function Unescape(s: Text): Result<Text> {
    UnescapeFrom(s, 0)
  }

  /** unescapeString undoes escapeString from any point on, whatever precedes it. */
  lemma {:induction false} UnescapeEscapeFrom(p: Text, s: Text, i: nat)
    requires i <= |s|
    ensures UnescapeFrom(p + EscapeFrom(s, i), |p|) == Ok(s[i..])
    decreases |s| - i
  {
    if i == |s| {
      assert p + EscapeFrom(s, i) == p;
    } else {
      var w, e, rest := EscapeHead(p, s, i);
      UnescapeEscapeFrom(p + e, s, i + w);
      EscapeHeadThen(p, s, i, w, e, rest);
    }
  }

  /** Once the escapes after the code point at i read back, so does its own. */
  lemma EscapeHeadThen(p: Text, s: Text, i: nat, w: nat, e: Text, rest: Text)
    requires i < |s| && w == Width(s, i) && e == EscapeCodePoint(CodePointAt(s, i))
    requires s[i..] == s[i..i + w] + s[i + w..]
    requires UnescapeFrom(p + e + rest, |p + e|) == Ok(s[i + w..])
    ensures UnescapeFrom(p + e + rest, |p|) == Ok(s[i..])
  {
    CodePointSteps(p, s, i, rest);
    assert |p + e| == |p| + |e|;
  }

  /** The escape of the code point at i, the escape of what follows it, and the
      code units they stand for. */
  lemma EscapeHead(p: Text, s: Text, i: nat) returns (w: nat, e: Text, rest: Text)
    requires i < |s|
    ensures w == Width(s, i) && i + w <= |s| && e == EscapeCodePoint(CodePointAt(s, i))
    ensures rest == EscapeFrom(s, i + w) && p + EscapeFrom(s, i) == p + e + rest
    ensures s[i..] == s[i..i + w] + s[i + w..]
  {
    w := Width(s, i);
    e := EscapeCodePoint(CodePointAt(s, i));
    rest := EscapeFrom(s, i + w);
    assert p + EscapeFrom(s, i) == p + (e + rest) == p + e + rest;
    assert s[i..] == s[i..i + w] + s[i + w..];
  }

  /** The escape written for the code point at i reads back as its code units. */
  lemma CodePointSteps(p: Text, s: Text, i: nat, rest: Text)
    requires i < |s|
    ensures var e := EscapeCodePoint(CodePointAt(s, i)); var all := p + e + rest;
      UnescapeFrom(all, |p|) == Prepend(s[i..i + Width(s, i)], UnescapeFrom(all, |p| + |e|))
  {
    if CodePointAt(s, i) > 0xFFFF {
      PairCodePointSteps(p, s, i, rest);
    } else {
      SingleCodePointSteps(p, s, i, rest);
    }
  }

  lemma PairCodePointSteps(p: Text, s: Text, i: nat, rest: Text)
    requires i < |s| && CodePointAt(s, i) > 0xFFFF
    ensures var e := EscapeCodePoint(CodePointAt(s, i)); var all := p + e + rest;
      UnescapeFrom(all, |p|) == Prepend(s[i..i + Width(s, i)], UnescapeFrom(all, |p| + |e|))
  {
    var e := EscapeCodePoint(CodePointAt(s, i));
    var all := p + e + rest;
    assert all[|p|..|p| + |e|] == e;
    CodeUnitsAt(s, i);
    PairShape(s, i);
    PairSteps(all, |p|, s[i], s[i + 1]);
  }

  lemma SingleCodePointSteps(p: Text, s: Text, i: nat, rest: Text)
    requires i < |s| && CodePointAt(s, i) <= 0xFFFF
    ensures var e := EscapeCodePoint(CodePointAt(s, i)); var all := p + e + rest;
      UnescapeFrom(all, |p|) == Prepend(s[i..i + Width(s, i)], UnescapeFrom(all, |p| + |e|))
  {
    var e := EscapeCodePoint(CodePointAt(s, i));
    var all := p + e + rest;
    assert all[|p|..|p| + |e|] == e;
    CodeUnitsAt(s, i);
    SingleStep(all, |p|, s, i);
  }

  /** A code unit that is not half of a surrogate pair reads back in one turn. */
  lemma SingleStep(all: Text, k: nat, s: Text, i: nat)
    requires i < |s| && CodePointAt(s, i) <= 0xFFFF
    requires var e := EscapeCodePoint(CodePointAt(s, i)); k + |e| <= |all| && all[k..k + |e|] == e
    ensures UnescapeStep(all, k) == Ok(([s[i]], k + |EscapeCodePoint(CodePointAt(s, i))|))
  {
    var c := CodePointAt(s, i);
    if ShortEscape(c).Some? {
      ShortShape(s, i);
      assert all[k] == BACKSLASH && all[k + 1] == ShortEscape(c).value;
    } else if c <= 0x1F {
      ControlShape(s, i);
      UEscapeStep(all, k, s[i]);
    } else {
      PlainShape(s, i);
      assert all[k] == s[i];
    }
  }

  /** The two `\uXXXX` escapes of a surrogate pair read back as the pair. */
  lemma PairSteps(all: Text, k: nat, high: CodeUnit, low: CodeUnit)
    requires k + 12 <= |all| && all[k..k + 12] == UEscape(high as nat) + UEscape(low as nat)
    ensures UnescapeFrom(all, k) == Prepend([high, low], UnescapeFrom(all, k + 12))
  {
    assert all[k..k + 6] == all[k..k + 12][..6];
    assert all[k + 6..k + 12] == all[k..k + 12][6..];
    UEscapeStep(all, k, high);
    UEscapeStep(all, k + 6, low);
    var tail := UnescapeFrom(all, k + 12);
    assert UnescapeFrom(all, k + 6) == Prepend([low], tail);
    assert UnescapeFrom(all, k) == Prepend([high], Prepend([low], tail));
    PrependTwice([high], [low], tail);
    assert [high] + [low] == [high, low];
  }

  /** One `\uXXXX` escape read back. */
  lemma UEscapeStep(all: Text, k: nat, c: CodeUnit)
    requires k + 6 <= |all| && all[k..k + 6] == UEscape(c as nat)
    ensures UnescapeStep(all, k) == Ok(([c], k + 6))
  {
    assert all[k] == BACKSLASH && all[k + 1] == LOWER_U;
    assert all[k + 2..k + 6] == all[k..k + 6][2..];
    Hex4RoundTrip(c as nat);
  }

  /** unescapeString(escapeString(s)) == s for every UTF-16 string. */
  lemma UnescapeEscape(s: Text)
    ensures Unescape(Escaped(s)) == Ok(s)
  {
    UnescapeEscapeFrom([], s, 0);
    assert [] + EscapeFrom(s, 0) == Escaped(s);
  }

  /** unescapeString: the loop over the char array. */
  method UnescapeString(s: Text) returns (r: Result<Text>)
    ensures r == Unescape(s)
  {
    var sb: Text := [];
    var i := 0;
    assert Unescape(s).Ok? ==> [] + Unescape(s).value == Unescape(s).value;
    while i < |s|
      invariant 0 <= i <= |s|
      invariant Unescape(s) == Prepend(sb, UnescapeFrom(s, i))
      decreases |s| - i
    {
      ghost var i0 := i;
      var c := s[i];
      if c == BACKSLASH {
        if i + 1 == |s| {
          return Err(IndexOutOfBoundsException);
        }
        i := i + 1;
        c := s[i];
        var letter := ShortUnescape(c);
        if letter.Some? {
          PrependTwice(sb, [letter.value], UnescapeFrom(s, i + 1));
          sb := sb + [letter.value];
          i := i + 1;
          continue;
        } else if c == LOWER_U {
          if |s| < i + 5 {
            return Err(ParseException(UnparseableUEscape, s, i - 1));
          }
          var v := ParseIntRadix16(s[i + 1..i + 5]);
          if v.None? {
            return Err(ParseException(UnparseableUEscape, s, i - 1));
          }
          var u := (v.value % 0x1_0000) as CodeUnit;
          PrependTwice(sb, [u], UnescapeFrom(s, i + 5));
          sb := sb + [u];
          i := i + 5;
          continue;
        }
      }
      assert UnescapeStep(s, i0) == Ok(([c], i + 1));
      PrependTwice(sb, [c], UnescapeFrom(s, i + 1));
      sb := sb + [c];
      i := i + 1;
    }
    assert sb + [] == sb;
    r := Ok(sb);
  }

  // ---------------------------------------------------------------- Parser

  /** The offset `parse` resets the cursor to: the first code unit read is at 0. */
  const ORIGIN: int := -1

  /** parseObject: an object, an array, a string, a literal or a number, with the
      whitespace around it. Members are stored with `set`, so a repeated name keeps
      its first position and takes the last value; arrays are Object[]; numbers are
      BigDecimal. */
  function ParseValue(input: Text, s: Cursor.State): (r: Result<(JVal, Cursor.State)>)
    requires Cursor.Valid(input, ORIGIN, s)
    ensures r.Ok? ==> Cursor.Valid(input, ORIGIN, r.value.1) && r.value.1.next > s.next
    ensures r.Ok? ==> !Cursor.IsWhitespace(Cursor.LastChar(r.value.1))
    decreases Cursor.Remaining(input, s), 0
  {
    var (isObject, s1) := Cursor.ExpectedChar(input, ORIGIN, s, LBRACE).value;
    if isObject then
      var (isEmpty, s2) := Cursor.ExpectedChar(input, ORIGIN, s1, RBRACE).value;
      if isEmpty then Ok((Map(JSONMap, []), Cursor.SkipWhitespaces(input, ORIGIN, s2)))
      else
        var members :- ParseMembers(input, s2, []);
        var (closed, s3) := Cursor.ExpectedChar(input, ORIGIN, members.1, RBRACE).value;
        if !closed then Err(Cursor.NewParseException(CloseBraceExpected, [], s3.offset))
        else Ok((Map(JSONMap, members.0), Cursor.SkipWhitespaces(input, ORIGIN, s3)))
    else
      var (isArray, s2) := Cursor.ExpectedChar(input, ORIGIN, s1, LBRACKET).value;
      if isArray then
        var (isEmpty, s3) := Cursor.ExpectedChar(input, ORIGIN, s2, RBRACKET).value;
        if isEmpty then Ok((Arr(OBJECT, []), Cursor.SkipWhitespaces(input, ORIGIN, s3)))
        else
          var elements :- ParseElements(input, s3, []);
          var (closed, s4) := Cursor.ExpectedChar(input, ORIGIN, elements.1, RBRACKET).value;
          if !closed then Err(Cursor.NewParseException(CloseBracketExpected, [], s4.offset))
          else Ok((Arr(OBJECT, elements.0), Cursor.SkipWhitespaces(input, ORIGIN, s4)))
      else ParseScalar(input, s2)
  }

  /** The do-while loop over the members of an object, from the first name on;
      `acc` holds the members read so far. */
  function ParseMembers(input: Text, s: Cursor.State, acc: seq<Entry>): (r: Result<(seq<Entry>, Cursor.State)>)
    requires Cursor.Valid(input, ORIGIN, s)
    ensures r.Ok? ==> Cursor.Valid(input, ORIGIN, r.value.1) && r.value.1.next > s.next
    decreases Cursor.Remaining(input, s), 1
  {
    var name :- ParseValue(input, s);
    if !name.0.Str? then Err(Cursor.NewParseException(NameExpected, [], name.1.offset))
    else
      var (colon, s1) := Cursor.ExpectedChar(input, ORIGIN, name.1, COLON).value;
      if !colon then Err(Cursor.NewParseException(NameExpected, [], s1.offset))
      else
        var value :- ParseValue(input, s1);
        var members := Put(acc, name.0, value.0);
        var (comma, s2) := Cursor.ExpectedChar(input, ORIGIN, value.1, COMMA).value;
        if comma then ParseMembers(input, s2, members) else Ok((members, s2))
  }

  /** The do-while loop over the elements of an array. */
  function ParseElements(input: Text, s: Cursor.State, acc: seq<JVal>): (r: Result<(seq<JVal>, Cursor.State)>)
    requires Cursor.Valid(input, ORIGIN, s)
    ensures r.Ok? ==> Cursor.Valid(input, ORIGIN, r.value.1) && r.value.1.next > s.next
    decreases Cursor.Remaining(input, s), 1
  {
    var element :- ParseValue(input, s);
    var (comma, s1) := Cursor.ExpectedChar(input, ORIGIN, element.1, COMMA).value;
    if comma then ParseElements(input, s1, acc + [element.0]) else Ok((acc + [element.0], s1))
  }

  /** The characters of a string up to its closing quote, from the state whose
      lastChar is the opening quote: a backslash takes the next character along. */
  function ScanString(input: Text, s: Cursor.State, acc: Text): (r: Result<(Text, Cursor.State)>)
    requires Cursor.Valid(input, ORIGIN, s)
    ensures r.Ok? ==> Cursor.Valid(input, ORIGIN, r.value.1) && r.value.1.next > s.next
    ensures r.Ok? ==> Cursor.LastChar(r.value.1) == QUOTE
    decreases Cursor.Remaining(input, s)
  {
    var s1 :- Cursor.GetChar(input, ORIGIN, s);
    var c := Cursor.LastChar(s1);
    if c == QUOTE then Ok((acc, s1))
    else if c == BACKSLASH then
      var s2 := Cursor.GetChar(input, ORIGIN, s1).value;
      ScanString(input, s2, acc + [c, Cursor.LastChar(s2)])
    else ScanString(input, s1, acc + [c])
  }

  /** parseObject's string, literal, number and error branches, from the state
      whose lastChar is the first non-whitespace character. */
  function ParseScalar(input: Text, s: Cursor.State): (r: Result<(JVal, Cursor.State)>)
    requires Cursor.Valid(input, ORIGIN, s)
    ensures r.Ok? ==> Cursor.Valid(input, ORIGIN, r.value.1) && r.value.1.next > s.next
    ensures r.Ok? ==> !Cursor.IsWhitespace(Cursor.LastChar(r.value.1))
  {
    var c := Cursor.LastChar(s);
    if c == QUOTE then
      var scanned :- ScanString(input, s, []);
      var text :- Unescape(scanned.0);
      var s1 := Cursor.GetChar(input, ORIGIN, scanned.1).value;
      Ok((Str(text), Cursor.SkipWhitespaces(input, ORIGIN, s1)))
    else if Cursor.IsLiteralChar(c) then
      var (literal, s1) := Cursor.NextChars(input, ORIGIN, s, Cursor.Literals);
      if literal == Ascii("true") then Ok((Bool(true), Cursor.SkipWhitespaces(input, ORIGIN, s1)))
      else if literal == Ascii("false") then Ok((Bool(false), Cursor.SkipWhitespaces(input, ORIGIN, s1)))
      else if literal == Ascii("null") then Ok((Null, Cursor.SkipWhitespaces(input, ORIGIN, s1)))
      else Err(Cursor.NewParseException(UnknownLiteral, literal, s1.offset))
    else if Numbers.IsNumberChar(c) then
      var (number, s1) := Cursor.NextChars(input, ORIGIN, s, Cursor.NumberChars);
      if Numbers.IsBigDecimalLexeme(number) then
        Ok((Num(Decimal(JBigDecimal, number)), Cursor.SkipWhitespaces(input, ORIGIN, s1)))
      else Err(Cursor.NewParseException(UnparseableNumber, number, s1.offset))
    else Err(Cursor.NewParseException(UnexpectedChar, [c], s.offset + 1))
  }

  /** `JSON.parse(text)`: one value and nothing after it but whitespace. */
  function Parsed(input: Text): Result<JVal> {
    var top :- ParseValue(input, Cursor.Start(ORIGIN));
    if top.1.lastChar != Cursor.EOT then Err(Cursor.NewParseException(EOTExpected, [], top.1.offset))
    else Ok(top.0)
  }

  /** JSON.Parser: the reader it was last given and the cursor over it. */
  class Parser {
    var reader: Readers.Reader?

    constructor ()
      ensures reader == null
    {
      reader := null;
    }

    predicate Ready()
      reads this, reader
    {
      reader != null && reader.Valid() && reader.origin == ORIGIN
    }

    method ParseObject() returns (r: Result<JVal>)
      requires Ready()
      modifies reader
      ensures Ready()
      ensures Cursor.Follows(ParseValue(reader.input, old(reader.State())), r, reader.State())
      decreases Cursor.Remaining(reader.input, reader.State()), 0
    {
      var isObject := reader.ExpectedChar(LBRACE);
      if isObject {
        var isEmpty := reader.ExpectedChar(RBRACE);
        var members: seq<Entry> := [];
        if !isEmpty {
          members :- ReadMembers();
          var closed := reader.ExpectedChar(RBRACE);
          if !closed {
            return Err(Cursor.NewParseException(CloseBraceExpected, [], reader.offset));
          }
        }
        var _ := reader.SkipWhitespaces();
        return Ok(Map(JSONMap, members));
      }
      var isArray := reader.ExpectedChar(LBRACKET);
      if isArray {
        var isEmpty := reader.ExpectedChar(RBRACKET);
        var list: seq<JVal> := [];
        if !isEmpty {
          list :- ReadElements();
          var closed := reader.ExpectedChar(RBRACKET);
          if !closed {
            return Err(Cursor.NewParseException(CloseBracketExpected, [], reader.offset));
          }
        }
        var _ := reader.SkipWhitespaces();
        return Ok(Arr(OBJECT, list));
      }
      r := ReadScalar();
    }

    /** The members loop of parseObject. */
    method ReadMembers() returns (r: Result<seq<Entry>>)
      requires Ready()
      modifies reader
      ensures Ready()
      ensures Cursor.Follows(ParseMembers(reader.input, old(reader.State()), []), r, reader.State())
      decreases Cursor.Remaining(reader.input, reader.State()), 1
    {
      var members: seq<Entry> := [];
      ghost var spec := ParseMembers(reader.input, reader.State(), []);
      while true
        invariant Ready()
        invariant reader.next >= old(reader.next)
        invariant ParseMembers(reader.input, reader.State(), members) == spec
        decreases Cursor.Remaining(reader.input, reader.State())
      {
        var name :- ParseObject();
        if !name.Str? {
          return Err(Cursor.NewParseException(NameExpected, [], reader.offset));
        }
        var colon := reader.ExpectedChar(COLON);
        if !colon {
          return Err(Cursor.NewParseException(NameExpected, [], reader.offset));
        }
        var value :- ParseObject();
        members := Put(members, name, value);
        var comma := reader.ExpectedChar(COMMA);
        if !comma {
          return Ok(members);
        }
      }
    }

    /** The elements loop of parseObject. */
    method ReadElements() returns (r: Result<seq<JVal>>)
      requires Ready()
      modifies reader
      ensures Ready()
      ensures Cursor.Follows(ParseElements(reader.input, old(reader.State()), []), r, reader.State())
      decreases Cursor.Remaining(reader.input, reader.State()), 1
    {
      var list: seq<JVal> := [];
      ghost var spec := ParseElements(reader.input, reader.State(), []);
      while true
        invariant Ready()
        invariant reader.next >= old(reader.next)
        invariant ParseElements(reader.input, reader.State(), list) == spec
        decreases Cursor.Remaining(reader.input, reader.State())
      {
        var element :- ParseObject();
        list := list + [element];
        var comma := reader.ExpectedChar(COMMA);
        if !comma {
          return Ok(list);
        }
      }
    }

    /** parseObject's string, literal, number and error branches. */
    method ReadScalar() returns (r: Result<JVal>)
      requires Ready()
      modifies reader
      ensures Ready()
      ensures Cursor.Follows(ParseScalar(reader.input, old(reader.State())), r, reader.State())
    {
      var c := Cursor.LastChar(reader.State());
      if c == QUOTE {
        var sb :- ReadString();
        var text :- UnescapeString(sb);
        var _ := reader.GetChar();
        var _ := reader.SkipWhitespaces();
        return Ok(Str(text));
      } else if Cursor.IsLiteralChar(c) {
        var literal := reader.NextChars(Cursor.Literals);
        if literal == Ascii("true") {
          r := Ok(Bool(true));
        } else if literal == Ascii("false") {
          r := Ok(Bool(false));
        } else if literal == Ascii("null") {
          r := Ok(Null);
        } else {
          return Err(Cursor.NewParseException(UnknownLiteral, literal, reader.offset));
        }
      } else if Numbers.IsNumberChar(c) {
        var number := reader.NextChars(Cursor.NumberChars);
        if !Numbers.IsBigDecimalLexeme(number) {
          return Err(Cursor.NewParseException(UnparseableNumber, number, reader.offset));
        }
        r := Ok(Num(Decimal(JBigDecimal, number)));
      } else {
        return Err(Cursor.NewParseException(UnexpectedChar, [c], reader.offset + 1));
      }
      var _ := reader.SkipWhitespaces();
    }

    /** The string loop of parseObject: up to, and not past, the closing quote. */
    method ReadString() returns (r: Result<Text>)
      requires Ready()
      modifies reader
      ensures Ready()
      ensures Cursor.Follows(ScanString(reader.input, old(reader.State()), []), r, reader.State())
    {
      var sb: Text := [];
      ghost var spec := ScanString(reader.input, reader.State(), []);
      while true
        invariant Ready()
        invariant ScanString(reader.input, reader.State(), sb) == spec
        decreases Cursor.Remaining(reader.input, reader.State())
      {
        var c :- reader.GetChar();
        if c == QUOTE {
          return Ok(sb);
        }
        if c == BACKSLASH {
          var d := reader.GetChar();
          assert sb + [c] + [d.value] == sb + [c, d.value];
          sb := sb + [c] + [d.value];
        } else {
          sb := sb + [c];
        }
      }
    }

    /** parse(reader): reset the cursor, read one value, demand the end of text. */
    method Parse(text: Text) returns (r: Result<JVal>)
      modifies this
      ensures r == Parsed(text)
    {
      reader := new Readers.Reader(text, ORIGIN);
      var top :- ParseObject();
      if reader.lastChar != Cursor.EOT {
        return Err(Cursor.NewParseException(EOTExpected, [], reader.offset));
      }
      return Ok(top);
    }
  }

  // ---------------------------------------------------------------- stringifyObject

  /** A String as stringifyObject writes it: quoted and escaped. */
  function Quoted(s: Text): Text {
    [QUOTE] + Escaped(s) + [QUOTE]
  }

  /** `", "` between array elements and between members. */
  const SEPARATOR: Text := [COMMA, SPACE]

  /** stringifyObject: null, Numbers and Booleans by toString; Strings quoted; arrays
      and Collections as `[a, b]`; java.util.Maps as `{"k": v}` with each key written
      through String.valueOf; anything else as its quoted String.valueOf. */
  function Stringify(v: JVal): Text
    decreases v
  {
    match v
    case Null => Ascii("null")
    case Bool(_) => ValueOf(v)
    case Num(_) => ValueOf(v)
    case Str(s) => Quoted(s)
    case Arr(_, items) => [LBRACKET] + StringifyItems(items) + [RBRACKET]
    case Coll(items) => [LBRACKET] + StringifyItems(items) + [RBRACKET]
    case Map(cls, entries) =>
      if IsUtilMap(v) then [LBRACE] + StringifyEntries(entries) + [RBRACE]
      else Quoted(ValueOf(v))
    case _ => Quoted(ValueOf(v))
  }

  function StringifyItems(items: seq<JVal>): Text
    decreases items
  {
    if items == [] then []
    else if |items| == 1 then Stringify(items[0])
    else Stringify(items[0]) + SEPARATOR + StringifyItems(items[1..])
  }

  function StringifyEntry(e: Entry): Text
    decreases e
  {
    Quoted(ValueOf(e.key)) + [COLON, SPACE] + Stringify(e.value)
  }

  function StringifyEntries(entries: seq<Entry>): Text
    decreases entries
  {
    if entries == [] then []
    else if |entries| == 1 then StringifyEntry(entries[0])
    else StringifyEntry(entries[0]) + SEPARATOR + StringifyEntries(entries[1..])
  }

  // ---------------------------------------------------------------- what parse returns

  /** The values parse builds: null, Booleans, Strings, BigDecimals read from decimal
      lexemes, Object[] arrays of such values and JSON maps whose member names are
      distinct Strings. */
  predicate Document(v: JVal)
    decreases v
  {
    match v
    case Null => true
    case Bool(_) => true
    case Num(n) => n.Decimal? && n.dkind == JBigDecimal && Numbers.IsBigDecimalLexeme(n.lexeme)
    case Str(_) => true
    case Arr(component, items) => component == OBJECT && forall x | x in items :: Document(x)
    case Map(cls, entries) =>
      cls == JSONMap && UniqueKeys(entries) && forall e | e in entries :: e.key.Str? && Document(e.value)
    case _ => false
  }

  predicate Members(entries: seq<Entry>) {
    UniqueKeys(entries) && forall e | e in entries :: e.key.Str? && Document(e.value)
  }

  /** `lexeme` occurs in the input at `at`. */
  predicate Occurs(input: Text, lexeme: Text, at: int) {
    0 <= at && at + |lexeme| <= |input| && input[at..at + |lexeme|] == lexeme
  }

  /** `at` is a position of the input holding no whitespace, or its end. */
  predicate AtToken(input: Text, at: int) {
    0 <= at <= |input| && (at < |input| ==> !Cursor.IsWhitespace(input[at]))
  }

  /** Where the exceptions of parse point: past the end for "Unexpected EOT"; at the
      start of the offending lexeme for an unknown literal, a bad number or an
      unexpected character (the end of text reads as 0xFFFF); at the offending
      token for the structural errors. A bad `\u` escape is reported at its
      index in the string's own text. */
  predicate Located(input: Text, e: Exception) {
    && e.ParseException?
    && match e.kind
       case UnexpectedEOT => e.errorOffset == |input| && e.lexeme == []
       case UnknownLiteral => Occurs(input, e.lexeme, e.errorOffset)
       case UnparseableNumber => Occurs(input, e.lexeme, e.errorOffset)
       case UnexpectedChar =>
         Occurs(input, e.lexeme, e.errorOffset) || (e.errorOffset == |input| && e.lexeme == [CHAR_OF_EOF])
       case UnparseableUEscape => true
       case _ => e.lexeme == [] && AtToken(input, e.errorOffset)
  }

  /** A cursor that has skipped whitespace stands on a token or at the end. */
  lemma SkippedAtToken(input: Text, s: Cursor.State)
    requires Cursor.Valid(input, ORIGIN, s) && !Cursor.IsWhitespace(Cursor.LastChar(s))
    ensures AtToken(input, s.offset) && s.next >= 1
    ensures s.offset < |input| ==> input[s.offset] == Cursor.LastChar(s)
  {
  }

  /** The raw text of a string pairs every backslash with the code unit after it. */
  lemma {:induction false} ScanStringPaired(input: Text, s: Cursor.State, acc: Text)
    requires Cursor.Valid(input, ORIGIN, s)
    ensures var r := ScanString(input, s, acc);
      r.Ok? ==> |acc| <= |r.value.0| && r.value.0[..|acc|] == acc && PairedFrom(r.value.0, |acc|)
    ensures var r := ScanString(input, s, acc);
      r.Err? ==> r.error == ParseException(UnexpectedEOT, [], |input|)
    decreases Cursor.Remaining(input, s)
  {
    var g := Cursor.GetChar(input, ORIGIN, s);
    if g.Ok? {
      var s1 := g.value;
      var c := Cursor.LastChar(s1);
      if c == BACKSLASH {
        var s2 := Cursor.GetChar(input, ORIGIN, s1).value;
        var acc' := acc + [c, Cursor.LastChar(s2)];
        ScanStringPaired(input, s2, acc');
        var r := ScanString(input, s2, acc');
        if r.Ok? {
          assert r.value.0[..|acc'|] == acc';
          assert r.value.0[|acc|] == acc'[|acc|];
          assert r.value.0[..|acc|] == acc'[..|acc|];
        }
      } else if c != QUOTE {
        var acc' := acc + [c];
        ScanStringPaired(input, s1, acc');
        var r := ScanString(input, s1, acc');
        if r.Ok? {
          assert r.value.0[..|acc'|] == acc';
          assert r.value.0[|acc|] == acc'[|acc|];
          assert r.value.0[..|acc|] == acc'[..|acc|];
        }
      }
    }
  }

  /** unescapeString of a text whose backslashes are paired never runs off its end:
      it fails, if at all, with a ParseException. */
  lemma {:induction false} UnescapePaired(t: Text, i: nat)
    requires i <= |t| && PairedFrom(t, i)
    ensures UnescapeFrom(t, i).Err? ==> UnescapeFrom(t, i).error.ParseException?
    ensures UnescapeFrom(t, i).Err? ==> UnescapeFrom(t, i).error.kind == UnparseableUEscape
    decreases |t| - i
  {
    if i < |t| {
      match UnescapeStep(t, i)
      case Err(_) =>
      case Ok((u, j)) =>
        if t[i] == BACKSLASH {
          if j == i + 6 {
            var h := t[i + 2..i + 6];
            assert forall k | i + 2 <= k < i + 6 :: t[k] == h[k - (i + 2)];
            PairedSkip(t, i + 2, i + 6);
          }
        }
        UnescapePaired(t, j);
    }
  }

  /** What parseObject reads is a Document, and every exception it throws is a
      located ParseException. */
  lemma {:induction false} ParseValueFacts(input: Text, s: Cursor.State)
    requires Cursor.Valid(input, ORIGIN, s)
    ensures var r := ParseValue(input, s);
      (r.Ok? ==> Document(r.value.0)) && (r.Err? ==> Located(input, r.error))
    decreases Cursor.Remaining(input, s), 1
  {
    var (isObject, s1) := Cursor.ExpectedChar(input, ORIGIN, s, LBRACE).value;
    if isObject {
      ObjectValueFacts(input, s);
    } else {
      var (isArray, s2) := Cursor.ExpectedChar(input, ORIGIN, s1, LBRACKET).value;
      if isArray {
        ArrayValueFacts(input, s);
      } else {
        ParseScalarFacts(input, s2);
      }
    }
  }

  /** ParseValueFacts when the value opens with `{`. */
  lemma {:induction false} ObjectValueFacts(input: Text, s: Cursor.State)
    requires Cursor.Valid(input, ORIGIN, s) && Cursor.ExpectedChar(input, ORIGIN, s, LBRACE).value.0
    ensures var r := ParseValue(input, s);
      (r.Ok? ==> Document(r.value.0)) && (r.Err? ==> Located(input, r.error))
    decreases Cursor.Remaining(input, s), 0
  {
    var s1 := Cursor.ExpectedChar(input, ORIGIN, s, LBRACE).value.1;
    var (isEmpty, s2) := Cursor.ExpectedChar(input, ORIGIN, s1, RBRACE).value;
    if !isEmpty {
      ParseMembersFacts(input, s2, []);
      var m := ParseMembers(input, s2, []);
      if m.Ok? {
        var (closed, s3) := Cursor.ExpectedChar(input, ORIGIN, m.value.1, RBRACE).value;
        if !closed {
          SkippedAtToken(input, s3);
        }
      }
    }
  }

  /** ParseValueFacts when the value opens with `[`. */
  lemma {:induction false} ArrayValueFacts(input: Text, s: Cursor.State)
    requires Cursor.Valid(input, ORIGIN, s)
    requires var s1 := Cursor.ExpectedChar(input, ORIGIN, s, LBRACE).value;
      !s1.0 && Cursor.ExpectedChar(input, ORIGIN, s1.1, LBRACKET).value.0
    ensures var r := ParseValue(input, s);
      (r.Ok? ==> Document(r.value.0)) && (r.Err? ==> Located(input, r.error))
    decreases Cursor.Remaining(input, s), 0
  {
    var s1 := Cursor.ExpectedChar(input, ORIGIN, s, LBRACE).value.1;
    var s2 := Cursor.ExpectedChar(input, ORIGIN, s1, LBRACKET).value.1;
    var (isEmpty, s3) := Cursor.ExpectedChar(input, ORIGIN, s2, RBRACKET).value;
    if !isEmpty {
      ParseElementsFacts(input, s3, []);
      var m := ParseElements(input, s3, []);
      if m.Ok? {
        var (closed, s4) := Cursor.ExpectedChar(input, ORIGIN, m.value.1, RBRACKET).value;
        if !closed {
          SkippedAtToken(input, s4);
        }
      }
    }
  }

  lemma {:induction false} ParseMembersFacts(input: Text, s: Cursor.State, acc: seq<Entry>)
    requires Cursor.Valid(input, ORIGIN, s) && Members(acc)
    ensures var r := ParseMembers(input, s, acc);
      (r.Ok? ==> Members(r.value.0)) && (r.Err? ==> Located(input, r.error))
    decreases Cursor.Remaining(input, s), 2
  {
    ParseValueFacts(input, s);
    var name := ParseValue(input, s);
    if name.Ok? {
      if !name.value.0.Str? {
        SkippedAtToken(input, name.value.1);
      } else {
        var (colon, s1) := Cursor.ExpectedChar(input, ORIGIN, name.value.1, COLON).value;
        if !colon {
          SkippedAtToken(input, s1);
        } else {
          NamedMemberFacts(input, s, acc);
        }
      }
    }
  }

  /** ParseMembersFacts once a name and its colon are read. */
  lemma {:induction false} NamedMemberFacts(input: Text, s: Cursor.State, acc: seq<Entry>)
    requires Cursor.Valid(input, ORIGIN, s) && Members(acc)
    requires var name := ParseValue(input, s);
      && name.Ok? && name.value.0.Str?
      && Cursor.ExpectedChar(input, ORIGIN, name.value.1, COLON).value.0
    ensures var r := ParseMembers(input, s, acc);
      (r.Ok? ==> Members(r.value.0)) && (r.Err? ==> Located(input, r.error))
    decreases Cursor.Remaining(input, s), 0
  {
    var name := ParseValue(input, s).value;
    var s1 := Cursor.ExpectedChar(input, ORIGIN, name.1, COLON).value.1;
    ParseValueFacts(input, s1);
    var value := ParseValue(input, s1);
    if value.Ok? {
      PutMembers(acc, name.0, value.value.0);
      var (comma, s2) := Cursor.ExpectedChar(input, ORIGIN, value.value.1, COMMA).value;
      if comma {
        ParseMembersFacts(input, s2, Put(acc, name.0, value.value.0));
      }
    }
  }


  /** `set` of a String name keeps the names distinct. */
  lemma PutMembers(acc: seq<Entry>, name: JVal, value: JVal)
    requires Members(acc) && name.Str? && Document(value)
    ensures Members(Put(acc, name, value))
  {
    PutSemantics(acc, name, value);
    PutEntries(acc, name, value);
  }

  lemma {:induction false} ParseElementsFacts(input: Text, s: Cursor.State, acc: seq<JVal>)
    requires Cursor.Valid(input, ORIGIN, s) && forall x | x in acc :: Document(x)
    ensures var r := ParseElements(input, s, acc);
      (r.Ok? ==> forall x | x in r.value.0 :: Document(x)) && (r.Err? ==> Located(input, r.error))
    decreases Cursor.Remaining(input, s), 2
  {
    ParseValueFacts(input, s);
    var element := ParseValue(input, s);
    if element.Ok? {
      var (comma, s1) := Cursor.ExpectedChar(input, ORIGIN, element.value.1, COMMA).value;
      if comma {
        ParseElementsFacts(input, s1, acc + [element.value.0]);
      }
    }
  }

  lemma ParseScalarFacts(input: Text, s: Cursor.State)
    requires Cursor.Valid(input, ORIGIN, s) && !Cursor.IsWhitespace(Cursor.LastChar(s))
    ensures var r := ParseScalar(input, s);
      (r.Ok? ==> Document(r.value.0)) && (r.Err? ==> Located(input, r.error))
  {
    var c := Cursor.LastChar(s);
    if c == QUOTE {
      StringScalarFacts(input, s);
    } else if Cursor.IsLiteralChar(c) {
      RunScalarFacts(input, s, Cursor.Literals);
    } else if Numbers.IsNumberChar(c) {
      RunScalarFacts(input, s, Cursor.NumberChars);
    } else {
      OtherScalarFacts(input, s);
    }
  }

  /** A value starting with no quote, literal letter or number character is an
      "Unexpected character" at that character. */
  lemma OtherScalarFacts(input: Text, s: Cursor.State)
    requires Cursor.Valid(input, ORIGIN, s)
    requires var c := Cursor.LastChar(s);
      !Cursor.IsWhitespace(c) && c != QUOTE && !Cursor.IsLiteralChar(c) && !Numbers.IsNumberChar(c)
    ensures var r := ParseScalar(input, s);
      (r.Ok? ==> Document(r.value.0)) && (r.Err? ==> Located(input, r.error))
  {
    SkippedAtToken(input, s);
    if s.offset < |input| {
      SingleCodeUnit(input, s.offset);
    }
  }

  lemma SingleCodeUnit(input: Text, k: nat)
    requires k < |input|
    ensures input[k..k + 1] == [input[k]]
  {
  }

  lemma StringScalarFacts(input: Text, s: Cursor.State)
    requires Cursor.Valid(input, ORIGIN, s) && Cursor.LastChar(s) == QUOTE
    ensures var r := ParseScalar(input, s);
      (r.Ok? ==> Document(r.value.0)) && (r.Err? ==> Located(input, r.error))
  {
    SkippedAtToken(input, s);
    ScanStringPaired(input, s, []);
    var scanned := ScanString(input, s, []);
    if scanned.Ok? {
      assert scanned.value.0[..0] == [];
      UnescapePaired(scanned.value.0, 0);
    }
  }

  lemma RunScalarFacts(input: Text, s: Cursor.State, table: Cursor.CharTable)
    requires Cursor.Valid(input, ORIGIN, s)
    requires table == Cursor.Literals || table == Cursor.NumberChars
    requires table == Cursor.Literals <==> Cursor.IsLiteralChar(Cursor.LastChar(s))
    requires Cursor.In(table, Cursor.LastChar(s))
    ensures var r := ParseScalar(input, s);
      (r.Ok? ==> Document(r.value.0)) && (r.Err? ==> Located(input, r.error))
  {
    SkippedAtToken(input, s);
    Cursor.NextCharsText(input, ORIGIN, s, table);
  }

  // ---------------------------------------------------------------- parse(stringify(v)) == v

  /** The cursor standing on position p of the input. */
  function At(input: Text, p: nat): Cursor.State
    requires p <= |input|
  {
    Cursor.At(input, ORIGIN, p)
  }

  /** The text t sits in the input at p. */
  predicate TextAt(input: Text, p: nat, t: Text) {
    p + |t| <= |input| && input[p..p + |t|] == t
  }

  /** What may follow a value's text: the end, ',', ':', ']' or '}'. None of them is
      whitespace or can continue a literal or a number. */
  predicate EndsValue(input: Text, p: nat)
    requires p <= |input|
  {
    p == |input| || input[p] == COMMA || input[p] == COLON || input[p] == RBRACKET || input[p] == RBRACE
  }

  lemma SkipAtToken(input: Text, p: nat)
    requires p <= |input| && (p < |input| ==> !Cursor.IsWhitespace(input[p]))
    ensures Cursor.SkipWhitespaces(input, ORIGIN, At(input, p)) == At(input, p)
  {
    Cursor.NextCharsRun(input, ORIGIN, p, p, Cursor.Whitespaces);
  }

  lemma SkipOneSpace(input: Text, p: nat)
    requires p + 1 <= |input| && Cursor.IsWhitespace(input[p])
    requires p + 1 < |input| ==> !Cursor.IsWhitespace(input[p + 1])
    ensures Cursor.SkipWhitespaces(input, ORIGIN, At(input, p)) == At(input, p + 1)
  {
    Cursor.NextCharsRun(input, ORIGIN, p, p + 1, Cursor.Whitespaces);
  }

  /** parseObject skips leading whitespace itself. */
  lemma ParseAfterSkip(input: Text, s: Cursor.State)
    requires Cursor.Valid(input, ORIGIN, s)
    ensures ParseValue(input, s) == ParseValue(input, Cursor.SkipWhitespaces(input, ORIGIN, s))
  {
    var sk := Cursor.SkipWhitespaces(input, ORIGIN, s);
    Cursor.ExpectedAfterSkip(input, ORIGIN, s, LBRACE);
    if Cursor.ExpectedChar(input, ORIGIN, s, LBRACE).value.0 {
      SameOpening(input, s, sk);
    } else {
      SameScalarOpening(input, s, sk);
    }
  }

  /** ParseValue reads the opening brace through expectedChar, so two cursors
      at which that read gives the same result parse alike. */
  lemma SameOpening(input: Text, s: Cursor.State, t: Cursor.State)
    requires Cursor.Valid(input, ORIGIN, s) && Cursor.Valid(input, ORIGIN, t)
    requires Cursor.ExpectedChar(input, ORIGIN, s, LBRACE) == Cursor.ExpectedChar(input, ORIGIN, t, LBRACE)
    requires Cursor.ExpectedChar(input, ORIGIN, s, LBRACE).value.0
    ensures ParseValue(input, s) == ParseValue(input, t)
  {
  }

  lemma SameScalarOpening(input: Text, s: Cursor.State, t: Cursor.State)
    requires Cursor.Valid(input, ORIGIN, s) && Cursor.Valid(input, ORIGIN, t)
    requires Cursor.ExpectedChar(input, ORIGIN, s, LBRACE) == Cursor.ExpectedChar(input, ORIGIN, t, LBRACE)
    requires !Cursor.ExpectedChar(input, ORIGIN, s, LBRACE).value.0
    ensures ParseValue(input, s) == ParseValue(input, t)
  {
  }

  /** The first code unit stringifyObject writes for a Document opens its value. */
  lemma StringifyStart(v: JVal)
    requires Document(v)
    ensures |Stringify(v)| > 0
    ensures var c := Stringify(v)[0];
      !Cursor.IsWhitespace(c) && c != RBRACKET && c != RBRACE && c != COMMA && c != COLON
    ensures var c := Stringify(v)[0];
      c == LBRACE <==> v.Map?
    ensures var c := Stringify(v)[0];
      c == LBRACKET <==> v.Arr?
  {
    if v.Num? {
      Numbers.DecimalLexemeChars(v.n.lexeme);
    }
  }

  /** A value whose text does not open with a brace or a bracket is read by the
      scalar branches. */
  lemma ParseScalarAt(input: Text, p: nat)
    requires p < |input| && !Cursor.IsWhitespace(input[p]) && input[p] != LBRACE && input[p] != LBRACKET
    ensures ParseValue(input, At(input, p)) == ParseScalar(input, At(input, p))
  {
    SkipAtToken(input, p);
  }

  /** The string loop reads escaped text up to the quote after it. */
  lemma {:induction false} ScanScans(input: Text, b: nat, e: Text, j: nat, acc: Text)
    requires 1 <= b && TextAt(input, b, e) && b + |e| < |input| && input[b + |e|] == QUOTE
    requires j <= |e| && ScansFrom(e, j)
    ensures ScanString(input, At(input, b + j - 1), acc) == Ok((acc + e[j..], At(input, b + |e|)))
    decreases |e| - j
  {
    if j == |e| {
      ScanEndStep(input, b, e, acc);
    } else if e[j] == BACKSLASH {
      ScanPairStep(input, b, e, j, acc);
      ScanScans(input, b, e, j + 2, acc + [e[j], e[j + 1]]);
      ScannedTail(acc, e, j, 2);
    } else {
      ScanPlainStep(input, b, e, j, acc);
      ScanScans(input, b, e, j + 1, acc + [e[j]]);
      ScannedTail(acc, e, j, 1);
    }
  }

  /** The code units the loop appends, then the rest, make up the text from j on. */
  lemma ScannedTail(acc: Text, e: Text, j: nat, n: nat)
    requires j + n <= |e| && 1 <= n <= 2
    ensures n == 1 ==> acc + [e[j]] + e[j + n..] == acc + e[j..]
    ensures n == 2 ==> acc + [e[j], e[j + 1]] + e[j + n..] == acc + e[j..]
  {
    assert e[j..] == e[j..j + n] + e[j + n..];
  }

  /** The closing quote ends the string loop. */
  lemma ScanEndStep(input: Text, b: nat, e: Text, acc: Text)
    requires 1 <= b && b + |e| < |input| && input[b + |e|] == QUOTE
    ensures ScanString(input, At(input, b + |e| - 1), acc) == Ok((acc + e[|e|..], At(input, b + |e|)))
  {
    assert Cursor.GetChar(input, ORIGIN, At(input, b + |e| - 1)) == Ok(At(input, b + |e|));
    assert Cursor.LastChar(At(input, b + |e|)) == QUOTE;
    assert acc + e[|e|..] == acc;
  }

  /** A backslash and the code unit after it are appended together. */
  lemma ScanPairStep(input: Text, b: nat, e: Text, j: nat, acc: Text)
    requires 1 <= b && TextAt(input, b, e) && b + |e| < |input| && input[b + |e|] == QUOTE
    requires j < |e| && e[j] == BACKSLASH && ScansFrom(e, j)
    ensures j + 2 <= |e| && ScansFrom(e, j + 2)
    ensures ScanString(input, At(input, b + j - 1), acc)
         == ScanString(input, At(input, b + j + 1), acc + [e[j], e[j + 1]])
  {
    ScanChar(input, b, e, j);
    ScanChar(input, b, e, j + 1);
    assert Cursor.GetChar(input, ORIGIN, At(input, b + j - 1)) == Ok(At(input, b + j));
    assert Cursor.GetChar(input, ORIGIN, At(input, b + j)) == Ok(At(input, b + j + 1));
  }

  /** Any other code unit is appended alone. */
  lemma ScanPlainStep(input: Text, b: nat, e: Text, j: nat, acc: Text)
    requires 1 <= b && TextAt(input, b, e) && b + |e| < |input| && input[b + |e|] == QUOTE
    requires j < |e| && e[j] != BACKSLASH && ScansFrom(e, j)
    ensures ScansFrom(e, j + 1)
    ensures ScanString(input, At(input, b + j - 1), acc)
         == ScanString(input, At(input, b + j), acc + [e[j]])
  {
    ScanChar(input, b, e, j);
    assert Cursor.GetChar(input, ORIGIN, At(input, b + j - 1)) == Ok(At(input, b + j));
  }

  /** The code unit at j of a text laid out at b. */
  lemma ScanChar(input: Text, b: nat, e: Text, j: nat)
    requires TextAt(input, b, e) && j < |e|
    ensures b + j < |input| && input[b + j] == e[j]
  {
    assert input[b..b + |e|][j] == e[j];
  }

  lemma ParseStringText(input: Text, p: nat, text: Text, q: nat)
    requires q == p + |Quoted(text)| && TextAt(input, p, Quoted(text)) && EndsValue(input, q)
    ensures ParseValue(input, At(input, p)) == Ok((Str(text), At(input, q)))
  {
    assert input[p] == input[p..p + |Quoted(text)|][0] == QUOTE;
    ParseScalarAt(input, p);
    ScalarStringText(input, p, text);
  }

  lemma ScalarStringText(input: Text, p: nat, text: Text)
    requires TextAt(input, p, Quoted(text)) && EndsValue(input, p + |Quoted(text)|)
    ensures ParseScalar(input, At(input, p)) == Ok((Str(text), At(input, p + |Quoted(text)|)))
  {
    var q := p + |Quoted(text)|;
    ScanQuoted(input, p, text);
    UnescapeEscape(text);
    SkipAtToken(input, q);
  }

  /** The string loop stops at the closing quote of an escaped String. */
  lemma ScanQuoted(input: Text, p: nat, text: Text)
    requires TextAt(input, p, Quoted(text)) && EndsValue(input, p + |Quoted(text)|)
    ensures p + |Quoted(text)| == p + 2 + |Escaped(text)|
    ensures Cursor.LastChar(At(input, p)) == QUOTE
    ensures ScanString(input, At(input, p), []) == Ok((Escaped(text), At(input, p + 1 + |Escaped(text)|)))
    ensures Cursor.GetChar(input, ORIGIN, At(input, p + 1 + |Escaped(text)|)) == Ok(At(input, p + |Quoted(text)|))
  {
    var e := Escaped(text);
    QuotedText(input, p, text);
    EscapedScans(text);
    ScanScans(input, p + 1, e, 0, []);
    assert [] + e[0..] == e;
  }

  /** Where the quotes and the escaped text of a quoted string sit. */
  lemma QuotedText(input: Text, p: nat, text: Text)
    requires TextAt(input, p, Quoted(text))
    ensures |Quoted(text)| == 2 + |Escaped(text)|
    ensures input[p] == QUOTE && TextAt(input, p + 1, Escaped(text))
    ensures p + 1 + |Escaped(text)| < |input| && input[p + 1 + |Escaped(text)|] == QUOTE
  {
    var e := Escaped(text);
    var t := Quoted(text);
    var q := p + |t|;
    assert input[p] == input[p..q][0] == t[0];
    forall k | 0 <= k < |e| ensures input[p + 1 + k] == e[k] {
      assert input[p + 1 + k] == input[p..q][1 + k] == t[1 + k];
    }
    assert input[p + 1 + |e|] == input[p..q][1 + |e|] == t[1 + |e|];
  }

  /** A literal or a number followed by a value end is read whole. */
  lemma ParseRunText(input: Text, p: nat, t: Text, q: nat, table: Cursor.CharTable)
    requires q == p + |t| && TextAt(input, p, t) && EndsValue(input, q)
    requires forall k | 0 <= k < |t| :: Cursor.In(table, t[k])
    requires table != Cursor.Whitespaces
    ensures Cursor.NextChars(input, ORIGIN, At(input, p), table) == (t, At(input, q))
    ensures Cursor.SkipWhitespaces(input, ORIGIN, At(input, q)) == At(input, q)
  {
    assert forall k | p <= k < q :: input[k] == t[k - p];
    Cursor.NextCharsRun(input, ORIGIN, p, q, table);
    SkipAtToken(input, q);
  }

  lemma ParseLiteralText(input: Text, p: nat, v: JVal, q: nat)
    requires v.Null? || v.Bool?
    requires q == p + |Stringify(v)| && TextAt(input, p, Stringify(v)) && EndsValue(input, q)
    ensures ParseValue(input, At(input, p)) == Ok((v, At(input, q)))
  {
    LiteralRunText(input, p, v, q);
    ParseScalarAt(input, p);
    ScalarLiteralText(input, p, v, q);
  }

  lemma ScalarLiteralText(input: Text, p: nat, v: JVal, q: nat)
    requires v.Null? || v.Bool?
    requires q == p + |Stringify(v)| && TextAt(input, p, Stringify(v)) && EndsValue(input, q)
    ensures ParseScalar(input, At(input, p)) == Ok((v, At(input, q)))
  {
    LiteralRunText(input, p, v, q);
  }

  lemma ParseNumberText(input: Text, p: nat, v: JVal, q: nat)
    requires v.Num? && Document(v)
    requires q == p + |Stringify(v)| && TextAt(input, p, Stringify(v)) && EndsValue(input, q)
    ensures ParseValue(input, At(input, p)) == Ok((v, At(input, q)))
  {
    assert Stringify(v) == v.n.lexeme;
    NumberRunText(input, p, v.n.lexeme, q);
    ParseScalarAt(input, p);
    ScalarNumberText(input, p, v, q);
  }

  lemma ScalarNumberText(input: Text, p: nat, v: JVal, q: nat)
    requires v.Num? && Document(v)
    requires q == p + |Stringify(v)| && TextAt(input, p, Stringify(v)) && EndsValue(input, q)
    ensures ParseScalar(input, At(input, p)) == Ok((v, At(input, q)))
  {
    assert Stringify(v) == v.n.lexeme;
    NumberRunText(input, p, v.n.lexeme, q);
  }

  /** The text of a literal is one run of literal characters. */
  lemma LiteralRunText(input: Text, p: nat, v: JVal, q: nat)
    requires v.Null? || v.Bool?
    requires q == p + |Stringify(v)| && TextAt(input, p, Stringify(v)) && EndsValue(input, q)
    ensures p < |input| && Cursor.LastChar(At(input, p)) == input[p]
    ensures Cursor.IsLiteralChar(input[p])
    ensures Cursor.NextChars(input, ORIGIN, At(input, p), Cursor.Literals) == (Stringify(v), At(input, q))
    ensures Cursor.SkipWhitespaces(input, ORIGIN, At(input, q)) == At(input, q)
  {
    var t := Stringify(v);
    LiteralChars(v);
    FirstCodeUnit(input, p, t);
    ParseRunText(input, p, t, q, Cursor.Literals);
  }

  /** The first code unit of a non-empty text that sits in the input. */
  lemma FirstCodeUnit(input: Text, p: nat, t: Text)
    requires TextAt(input, p, t) && |t| > 0
    ensures p < |input| && input[p] == t[0]
  {
    assert input[p] == input[p..p + |t|][0];
  }

  /** The text of a number is one run of number characters. */
  lemma NumberRunText(input: Text, p: nat, t: Text, q: nat)
    requires Numbers.IsDecimalLexeme(t)
    requires q == p + |t| && TextAt(input, p, t) && EndsValue(input, q)
    ensures p < |input| && Cursor.LastChar(At(input, p)) == input[p]
    ensures Numbers.IsNumberChar(input[p]) && !Cursor.IsLiteralChar(input[p]) && input[p] != QUOTE
    ensures Cursor.NextChars(input, ORIGIN, At(input, p), Cursor.NumberChars) == (t, At(input, q))
    ensures Cursor.SkipWhitespaces(input, ORIGIN, At(input, q)) == At(input, q)
  {
    NumberTextChars(input, p, t);
    ParseRunText(input, p, t, q, Cursor.NumberChars);
  }

  /** A number's text starts with a number character, which no literal and no
      string starts with, and holds nothing but number characters. */
  lemma NumberTextChars(input: Text, p: nat, t: Text)
    requires Numbers.IsDecimalLexeme(t) && TextAt(input, p, t)
    ensures p < |input| && input[p] == t[0]
    ensures Numbers.IsNumberChar(input[p]) && !Cursor.IsLiteralChar(input[p]) && input[p] != QUOTE
    ensures forall k | 0 <= k < |t| :: Cursor.In(Cursor.NumberChars, t[k])
  {
    Numbers.DecimalLexemeChars(t);
    assert input[p] == input[p..p + |t|][0] == t[0];
  }

  lemma LiteralChars(v: JVal)
    requires v.Null? || v.Bool?
    ensures |Stringify(v)| > 0
    ensures forall k | 0 <= k < |Stringify(v)| :: Cursor.IsLiteralChar(Stringify(v)[k])
  {
    var t := Stringify(v);
    if v.Null? {
      assert t == [0x6E, 0x75, 0x6C, 0x6C];
    } else if v.b {
      assert t == [0x74, 0x72, 0x75, 0x65];
    } else {
      assert t == [0x66, 0x61, 0x6C, 0x73, 0x65];
    }
  }

  /** stringifyObject's text of a Document reads back as that Document, wherever it
      sits in the input. */
  lemma {:induction false} ParseStringified(input: Text, p: nat, v: JVal, q: nat)
    requires ValueAt(input, p, v, q)
    ensures ParseValue(input, At(input, p)) == Ok((v, At(input, q)))
    decreases v, 3
  {
    if v.Arr? || v.Map? {
      ParseCompoundStringified(input, p, v, q);
    } else {
      ParseScalarStringified(input, p, v, q);
    }
  }

  lemma ParseScalarStringified(input: Text, p: nat, v: JVal, q: nat)
    requires ValueAt(input, p, v, q) && !v.Arr? && !v.Map?
    ensures ParseValue(input, At(input, p)) == Ok((v, At(input, q)))
  {
    match v
    case Null => ParseLiteralText(input, p, v, q);
    case Bool(_) => ParseLiteralText(input, p, v, q);
    case Num(_) => ParseNumberText(input, p, v, q);
    case Str(text) =>
      assert Stringify(v) == Quoted(text);
      ParseStringText(input, p, text, q);
  }

  lemma {:induction false} ParseCompoundStringified(input: Text, p: nat, v: JVal, q: nat)
    requires ValueAt(input, p, v, q) && (v.Arr? || v.Map?)
    ensures ParseValue(input, At(input, p)) == Ok((v, At(input, q)))
    decreases v, 2
  {
    if v.Arr? {
      if v.items == [] { ParseEmptyArrayText(input, p, v, q); } else { ParseArrayText(input, p, v, q); }
    } else {
      if v.entries == [] { ParseEmptyObjectText(input, p, v, q); } else { ParseObjectText(input, p, v, q); }
    }
  }

  /** A piece of text that sits in the input. */
  lemma TextAtPart(input: Text, p: nat, t: Text, i: nat, j: nat)
    requires TextAt(input, p, t) && i <= j <= |t|
    ensures TextAt(input, p + i, t[i..j])
    ensures i < |t| ==> input[p + i] == t[i]
  {
    forall k | 0 <= k < j - i
      ensures input[p + i + k] == t[i..j][k]
    {
      assert input[p + i + k] == input[p..p + |t|][i + k];
    }
    if i < |t| {
      assert input[p + i] == input[p..p + |t|][i];
    }
  }

  /** expectedChar(c) consumes c where it stands. */
  lemma ExpectedAt(input: Text, p: nat, c: CodeUnit)
    requires p < |input| && input[p] == c && c != CHAR_OF_EOF && !Cursor.IsWhitespace(c)
    ensures Cursor.ExpectedChar(input, ORIGIN, At(input, p), c) == Ok((true, At(input, p + 1)))
  {
    SkipAtToken(input, p);
  }

  /** expectedChar(c) leaves a non-whitespace character other than c in place. */
  lemma NotExpectedAt(input: Text, p: nat, c: CodeUnit)
    requires p < |input| && input[p] != c && c != CHAR_OF_EOF && !Cursor.IsWhitespace(input[p])
    ensures Cursor.ExpectedChar(input, ORIGIN, At(input, p), c) == Ok((false, At(input, p)))
  {
    SkipAtToken(input, p);
  }

  /** A value after one space reads as the value after it. */
  lemma ValueAfterSpace(input: Text, r: nat, r1: nat)
    requires r1 == r + 1 && r1 < |input| && input[r] == SPACE && !Cursor.IsWhitespace(input[r1])
    ensures ParseValue(input, At(input, r)) == ParseValue(input, At(input, r1))
  {
    SkipOneSpace(input, r);
    ParseAfterSkip(input, At(input, r));
    SkipAtToken(input, r1);
    ParseAfterSkip(input, At(input, r1));
  }

  /** The three parts of a text that sits in the input. */
  lemma Split3(input: Text, p: nat, a: Text, b: Text, c: Text, i: nat, j: nat)
    requires TextAt(input, p, a + b + c) && i == p + |a| && j == i + |b|
    ensures TextAt(input, p, a) && TextAt(input, i, b) && TextAt(input, j, c)
    ensures forall k | 0 <= k < |b| :: input[i + k] == b[k]
    ensures |a| > 0 ==> input[p] == a[0]
    ensures |c| > 0 ==> input[j] == c[0]
  {
    var t := a + b + c;
    forall k | 0 <= k < |t| ensures input[p + k] == t[k] {
      assert input[p + k] == input[p..p + |t|][k];
    }
    forall k | 0 <= k < |a| ensures input[p..p + |a|][k] == a[k] {
      assert t[k] == a[k];
    }
    forall k | 0 <= k < |b| ensures input[p + |a| + k] == b[k] && input[p + |a|..p + |a| + |b|][k] == b[k] {
      assert t[|a| + k] == b[k];
    }
    forall k | 0 <= k < |c| ensures input[p + |a| + |b|..p + |t|][k] == c[k] {
      assert t[|a| + |b| + k] == c[k];
    }
  }

  /** parseObject reads `[]`, in terms of the cursor states in between. */
  lemma EmptyArrayStep(input: Text, s: Cursor.State, s1: Cursor.State, s2: Cursor.State)
    requires Cursor.Valid(input, ORIGIN, s) && Cursor.Valid(input, ORIGIN, s1) && Cursor.Valid(input, ORIGIN, s2)
    requires Cursor.ExpectedChar(input, ORIGIN, s, LBRACE) == Ok((false, s))
    requires Cursor.ExpectedChar(input, ORIGIN, s, LBRACKET) == Ok((true, s1))
    requires Cursor.ExpectedChar(input, ORIGIN, s1, RBRACKET) == Ok((true, s2))
    requires Cursor.SkipWhitespaces(input, ORIGIN, s2) == s2
    ensures ParseValue(input, s) == Ok((Arr(OBJECT, []), s2))
  {
  }

  /** parseObject reads `[`, the elements and `]`, in terms of the cursor states in
      between. */
  lemma ArrayStep(input: Text, s: Cursor.State, s1: Cursor.State, items: seq<JVal>, s2: Cursor.State,
                  s3: Cursor.State)
    requires Cursor.Valid(input, ORIGIN, s) && Cursor.Valid(input, ORIGIN, s1)
    requires Cursor.Valid(input, ORIGIN, s2) && Cursor.Valid(input, ORIGIN, s3)
    requires Cursor.ExpectedChar(input, ORIGIN, s, LBRACE) == Ok((false, s))
    requires Cursor.ExpectedChar(input, ORIGIN, s, LBRACKET) == Ok((true, s1))
    requires Cursor.ExpectedChar(input, ORIGIN, s1, RBRACKET) == Ok((false, s1))
    requires ParseElements(input, s1, []) == Ok((items, s2))
    requires Cursor.ExpectedChar(input, ORIGIN, s2, RBRACKET) == Ok((true, s3))
    requires Cursor.SkipWhitespaces(input, ORIGIN, s3) == s3
    ensures ParseValue(input, s) == Ok((Arr(OBJECT, items), s3))
  {
  }

  /** parseObject reads `{}`, in terms of the cursor states in between. */
  lemma EmptyObjectStep(input: Text, s: Cursor.State, s1: Cursor.State, s2: Cursor.State)
    requires Cursor.Valid(input, ORIGIN, s) && Cursor.Valid(input, ORIGIN, s1) && Cursor.Valid(input, ORIGIN, s2)
    requires Cursor.ExpectedChar(input, ORIGIN, s, LBRACE) == Ok((true, s1))
    requires Cursor.ExpectedChar(input, ORIGIN, s1, RBRACE) == Ok((true, s2))
    requires Cursor.SkipWhitespaces(input, ORIGIN, s2) == s2
    ensures ParseValue(input, s) == Ok((Map(JSONMap, []), s2))
  {
  }

  /** parseObject reads `{`, the members and `}`, in terms of the cursor states in
      between. */
  lemma ObjectStep(input: Text, s: Cursor.State, s1: Cursor.State, entries: seq<Entry>, s2: Cursor.State,
                   s3: Cursor.State)
    requires Cursor.Valid(input, ORIGIN, s) && Cursor.Valid(input, ORIGIN, s1)
    requires Cursor.Valid(input, ORIGIN, s2) && Cursor.Valid(input, ORIGIN, s3)
    requires Cursor.ExpectedChar(input, ORIGIN, s, LBRACE) == Ok((true, s1))
    requires Cursor.ExpectedChar(input, ORIGIN, s1, RBRACE) == Ok((false, s1))
    requires ParseMembers(input, s1, []) == Ok((entries, s2))
    requires Cursor.ExpectedChar(input, ORIGIN, s2, RBRACE) == Ok((true, s3))
    requires Cursor.SkipWhitespaces(input, ORIGIN, s3) == s3
    ensures ParseValue(input, s) == Ok((Map(JSONMap, entries), s3))
  {
  }

  /** The text of the Document v sits in the input from p to q, followed by what may
      end a value. */
  predicate ValueAt(input: Text, p: nat, v: JVal, q: nat) {
    && Document(v) && q == p + |Stringify(v)| && TextAt(input, p, Stringify(v)) && EndsValue(input, q)
  }

  /** The text of the elements sits in the input from p to the closing bracket at end. */
  predicate ItemsAt(input: Text, p: nat, items: seq<JVal>, end: nat) {
    && items != [] && (forall x | x in items :: Document(x))
    && end == p + |StringifyItems(items)| && TextAt(input, p, StringifyItems(items))
    && end < |input| && input[end] == RBRACKET
  }

  /** The text of the members sits in the input from p to the closing brace at end. */
  predicate EntriesAt(input: Text, p: nat, entries: seq<Entry>, end: nat) {
    && entries != [] && (forall e | e in entries :: e.key.Str? && Document(e.value))
    && end == p + |StringifyEntries(entries)| && TextAt(input, p, StringifyEntries(entries))
    && end < |input| && input[end] == RBRACE
  }

  /** `, ` at e, then the first code unit of a value. */
  predicate SeparatorAt(input: Text, e: nat) {
    e + 2 < |input| && input[e] == COMMA && input[e + 1] == SPACE && !Cursor.IsWhitespace(input[e + 2])
  }

  /** A name ends at c, then `: ` and a value from c + 2 to q. */
  predicate MemberLayout(input: Text, p: nat, c: nat, q: nat) {
    p <= c && c + 2 < |input| && c + 2 <= q && input[c] == COLON && input[c + 1] == SPACE
    && !Cursor.IsWhitespace(input[c + 2])
  }

  /** The text of one member sits in the input from p to q, its name ending at c. */
  predicate EntryAt(input: Text, p: nat, first: Entry, c: nat, q: nat) {
    && first.key.Str? && ValueAt(input, p, first.key, c) && ValueAt(input, c + 2, first.value, q)
    && MemberLayout(input, p, c, q)
  }

  /** `[` at p, elements from p + 1 up to the `]` at end, and the value ends at q. */
  predicate ArrayLayout(input: Text, p: nat, end: nat, q: nat) {
    && p + 1 < end && q == end + 1 && q <= |input| && input[p] == LBRACKET && input[end] == RBRACKET
    && EndsValue(input, q) && !Cursor.IsWhitespace(input[p + 1]) && input[p + 1] != RBRACKET
  }

  /** `{` at p, members from p + 1 up to the `}` at end, and the value ends at q. */
  predicate ObjectLayout(input: Text, p: nat, end: nat, q: nat) {
    && p + 1 < end && q == end + 1 && q <= |input| && input[p] == LBRACE && input[end] == RBRACE
    && EndsValue(input, q) && input[p + 1] == QUOTE
  }

  /** `[]` from p to q. */
  lemma EmptyArrayAt(input: Text, p: nat, q: nat)
    requires q == p + 2 && q <= |input| && input[p] == LBRACKET && input[p + 1] == RBRACKET
    requires EndsValue(input, q)
    ensures ParseValue(input, At(input, p)) == Ok((Arr(OBJECT, []), At(input, q)))
  {
    NotExpectedAt(input, p, LBRACE);
    ExpectedAt(input, p, LBRACKET);
    CloseAt(input, p + 1, q, RBRACKET);
    EmptyArrayStep(input, At(input, p), At(input, p + 1), At(input, q));
  }

  /** An array from p to q whose elements end at the closing bracket at end. */
  lemma ArrayAt(input: Text, p: nat, v: JVal, end: nat, q: nat)
    requires ArrayLayout(input, p, end, q) && v.Arr? && v == Arr(OBJECT, v.items)
    ensures ParseElements(input, At(input, p + 1), []) == Ok((v.items, At(input, end)))
            ==> ParseValue(input, At(input, p)) == Ok((v, At(input, q)))
  {
    ArrayOpenAt(input, p);
    CloseAt(input, end, q, RBRACKET);
    if ParseElements(input, At(input, p + 1), []) == Ok((v.items, At(input, end))) {
      ArrayStep(input, At(input, p), At(input, p + 1), v.items, At(input, end), At(input, q));
    }
  }

  /** parseObject at a `[` that does not open `[]`. */
  lemma ArrayOpenAt(input: Text, p: nat)
    requires p + 1 < |input| && input[p] == LBRACKET
    requires !Cursor.IsWhitespace(input[p + 1]) && input[p + 1] != RBRACKET
    ensures Cursor.ExpectedChar(input, ORIGIN, At(input, p), LBRACE) == Ok((false, At(input, p)))
    ensures Cursor.ExpectedChar(input, ORIGIN, At(input, p), LBRACKET) == Ok((true, At(input, p + 1)))
    ensures Cursor.ExpectedChar(input, ORIGIN, At(input, p + 1), RBRACKET) == Ok((false, At(input, p + 1)))
  {
    NotExpectedAt(input, p, LBRACE);
    ExpectedAt(input, p, LBRACKET);
    NotExpectedAt(input, p + 1, RBRACKET);
  }

  /** parseObject at a `{` that does not open `{}`. */
  lemma ObjectOpenAt(input: Text, p: nat)
    requires p + 1 < |input| && input[p] == LBRACE && input[p + 1] == QUOTE
    ensures Cursor.ExpectedChar(input, ORIGIN, At(input, p), LBRACE) == Ok((true, At(input, p + 1)))
    ensures Cursor.ExpectedChar(input, ORIGIN, At(input, p + 1), RBRACE) == Ok((false, At(input, p + 1)))
  {
    ExpectedAt(input, p, LBRACE);
    NotExpectedAt(input, p + 1, RBRACE);
  }

  /** The closing bracket or brace at end, and the value ends at q. */
  lemma CloseAt(input: Text, end: nat, q: nat, c: CodeUnit)
    requires q == end + 1 && q <= |input| && input[end] == c && (c == RBRACKET || c == RBRACE)
    requires EndsValue(input, q)
    ensures Cursor.ExpectedChar(input, ORIGIN, At(input, end), c) == Ok((true, At(input, q)))
    ensures Cursor.SkipWhitespaces(input, ORIGIN, At(input, q)) == At(input, q)
  {
    ExpectedAt(input, end, c);
    SkipAtToken(input, q);
  }

  /** `{}` from p to q. */
  lemma EmptyObjectAt(input: Text, p: nat, q: nat)
    requires q == p + 2 && q <= |input| && input[p] == LBRACE && input[p + 1] == RBRACE
    requires EndsValue(input, q)
    ensures ParseValue(input, At(input, p)) == Ok((Map(JSONMap, []), At(input, q)))
  {
    ExpectedAt(input, p, LBRACE);
    CloseAt(input, p + 1, q, RBRACE);
    EmptyObjectStep(input, At(input, p), At(input, p + 1), At(input, q));
  }

  /** An object from p to q whose members end at the closing brace at end. */
  lemma ObjectAt(input: Text, p: nat, v: JVal, end: nat, q: nat)
    requires ObjectLayout(input, p, end, q) && v.Map? && v == Map(JSONMap, v.entries)
    ensures ParseMembers(input, At(input, p + 1), []) == Ok((v.entries, At(input, end)))
            ==> ParseValue(input, At(input, p)) == Ok((v, At(input, q)))
  {
    ObjectOpenAt(input, p);
    CloseAt(input, end, q, RBRACE);
    if ParseMembers(input, At(input, p + 1), []) == Ok((v.entries, At(input, end))) {
      ObjectStep(input, At(input, p), At(input, p + 1), v.entries, At(input, end), At(input, q));
    }
  }

  /** The first code unit of a list of elements opens the first element. */
  lemma ItemsStart(items: seq<JVal>)
    requires items != [] && Document(items[0])
    ensures |StringifyItems(items)| > 0
    ensures var c := StringifyItems(items)[0];
      !Cursor.IsWhitespace(c) && c != RBRACKET && c != RBRACE
  {
    StringifyStart(items[0]);
    if |items| > 1 {
      assert StringifyItems(items) == Stringify(items[0]) + SEPARATOR + StringifyItems(items[1..]);
    }
  }

  /** Members are written name first, and a name is a quoted String. */
  lemma EntriesStart(entries: seq<Entry>)
    requires entries != []
    ensures |StringifyEntries(entries)| > 0 && StringifyEntries(entries)[0] == QUOTE
  {
    var t0 := StringifyEntry(entries[0]);
    assert t0 == Quoted(ValueOf(entries[0].key)) + [COLON, SPACE] + Stringify(entries[0].value);
    assert t0[0] == QUOTE;
    if |entries| > 1 {
      assert StringifyEntries(entries) == t0 + SEPARATOR + StringifyEntries(entries[1..]);
    }
  }

  /** Where the parts of `[]` sit. */
  lemma EmptyArrayText(input: Text, p: nat, v: JVal, q: nat)
    requires ValueAt(input, p, v, q) && v.Arr? && v.items == []
    ensures v == Arr(OBJECT, []) && q == p + 2 && input[p] == LBRACKET && input[p + 1] == RBRACKET
  {
    assert Stringify(v) == [LBRACKET, RBRACKET];
    assert input[p] == input[p..q][0];
    assert input[p + 1] == input[p..q][1];
  }

  /** Where the parts of `{}` sit. */
  lemma EmptyObjectText(input: Text, p: nat, v: JVal, q: nat)
    requires ValueAt(input, p, v, q) && v.Map? && v.entries == []
    ensures v == Map(JSONMap, []) && q == p + 2 && input[p] == LBRACE && input[p + 1] == RBRACE
  {
    assert Stringify(v) == [LBRACE, RBRACE];
    assert input[p] == input[p..q][0];
    assert input[p + 1] == input[p..q][1];
  }

  /** Where the brackets and the elements of an array's text sit. */
  lemma ArrayTextSplit(input: Text, p: nat, v: JVal, q: nat) returns (end: nat)
    requires ValueAt(input, p, v, q) && v.Arr? && v.items != []
    ensures v == Arr(OBJECT, v.items) && ArrayLayout(input, p, end, q)
    ensures ItemsAt(input, p + 1, v.items, end)
  {
    var body := StringifyItems(v.items);
    end := q - 1;
    Split3(input, p, [LBRACKET], body, [RBRACKET], p + 1, end);
    ItemsStart(v.items);
  }

  /** Where the braces and the members of an object's text sit. */
  lemma ObjectTextSplit(input: Text, p: nat, v: JVal, q: nat) returns (end: nat)
    requires ValueAt(input, p, v, q) && v.Map? && v.entries != []
    ensures v == Map(JSONMap, v.entries) && UniqueKeys([] + v.entries) && ObjectLayout(input, p, end, q)
    ensures EntriesAt(input, p + 1, v.entries, end)
  {
    var body := StringifyEntries(v.entries);
    end := q - 1;
    Split3(input, p, [LBRACE], body, [RBRACE], p + 1, end);
    EntriesStart(v.entries);
    assert [] + v.entries == v.entries;
  }

  /** Where the text of the last element sits. */
  lemma LastItemText(input: Text, p: nat, items: seq<JVal>, end: nat)
    requires ItemsAt(input, p, items, end) && |items| == 1
    ensures ValueAt(input, p, items[0], end)
  {
  }

  /** Where the first element, the separator after it and the other elements sit. */
  lemma ItemsTextSplit(input: Text, p: nat, items: seq<JVal>, end: nat) returns (e: nat, f: nat)
    requires ItemsAt(input, p, items, end) && |items| > 1
    ensures p <= e && ValueAt(input, p, items[0], e) && SeparatorAt(input, e)
    ensures f == e + 2 && ItemsAt(input, f, items[1..], end)
  {
    e := FirstItemText(input, p, items, end);
    var e2;
    e2, f := OtherItemsText(input, p, items, end);
  }

  /** The elements' text is the first element's, `, ` and the others'. */
  lemma ItemsCons(items: seq<JVal>)
    requires |items| > 1 && forall x | x in items :: Document(x)
    ensures StringifyItems(items) == Stringify(items[0]) + SEPARATOR + StringifyItems(items[1..])
    ensures Document(items[0]) && forall x | x in items[1..] :: Document(x)
    ensures |StringifyItems(items[1..])| > 0 && !Cursor.IsWhitespace(StringifyItems(items[1..])[0])
  {
    assert items[1..][0] in items;
    ItemsStart(items[1..]);
  }

  lemma FirstItemText(input: Text, p: nat, items: seq<JVal>, end: nat) returns (e: nat)
    requires ItemsAt(input, p, items, end) && |items| > 1
    ensures e == p + |Stringify(items[0])|
    ensures p <= e && ValueAt(input, p, items[0], e) && SeparatorAt(input, e)
  {
    e := p + |Stringify(items[0])|;
    ItemsCons(items);
    SeparatedAt(input, p, Stringify(items[0]), StringifyItems(items[1..]), e, e + 2);
  }

  lemma OtherItemsText(input: Text, p: nat, items: seq<JVal>, end: nat) returns (e: nat, f: nat)
    requires ItemsAt(input, p, items, end) && |items| > 1
    ensures e == p + |Stringify(items[0])| && f == e + 2
    ensures ItemsAt(input, f, items[1..], end)
  {
    e := p + |Stringify(items[0])|;
    f := e + 2;
    ItemsCons(items);
    SeparatedAt(input, p, Stringify(items[0]), StringifyItems(items[1..]), e, f);
  }

  /** Where the text of the last member sits. */
  lemma LastEntryText(input: Text, p: nat, entries: seq<Entry>, end: nat) returns (c: nat)
    requires EntriesAt(input, p, entries, end) && |entries| == 1
    ensures EntryAt(input, p, entries[0], c, end)
  {
    c := EntryTextSplit(input, p, entries[0], end);
  }

  /** The members' text is the first member's, `, ` and the others'. */
  lemma EntriesCons(entries: seq<Entry>)
    requires |entries| > 1 && forall e | e in entries :: e.key.Str? && Document(e.value)
    ensures StringifyEntries(entries) == StringifyEntry(entries[0]) + SEPARATOR + StringifyEntries(entries[1..])
    ensures entries[0].key.Str? && Document(entries[0].value)
    ensures forall e | e in entries[1..] :: e.key.Str? && Document(e.value)
    ensures |StringifyEntries(entries[1..])| > 0 && StringifyEntries(entries[1..])[0] == QUOTE
  {
    EntriesStart(entries[1..]);
  }

  /** Where the first of several members and the separator after it sit. */
  lemma FirstEntryText(input: Text, p: nat, entries: seq<Entry>, e: nat, end: nat) returns (c: nat)
    requires EntriesAt(input, p, entries, end) && |entries| > 1 && e == p + |StringifyEntry(entries[0])|
    ensures EntryAt(input, p, entries[0], c, e) && SeparatorAt(input, e)
  {
    EntriesCons(entries);
    SeparatedAt(input, p, StringifyEntry(entries[0]), StringifyEntries(entries[1..]), e, e + 2);
    c := EntryTextSplit(input, p, entries[0], e);
  }

  /** Where the members after the first sit. */
  lemma OtherEntriesText(input: Text, p: nat, entries: seq<Entry>, end: nat) returns (e: nat, f: nat)
    requires EntriesAt(input, p, entries, end) && |entries| > 1
    ensures e == p + |StringifyEntry(entries[0])| && f == e + 2
    ensures EntriesAt(input, f, entries[1..], end)
  {
    e := p + |StringifyEntry(entries[0])|;
    f := e + 2;
    EntriesCons(entries);
    SeparatedAt(input, p, StringifyEntry(entries[0]), StringifyEntries(entries[1..]), e, f);
  }

  /** Where two texts joined by `, ` sit. */
  lemma SeparatedAt(input: Text, p: nat, t0: Text, rest: Text, e: nat, f: nat)
    requires e == p + |t0| && f == e + 2 && TextAt(input, p, t0 + SEPARATOR + rest) && |rest| > 0
    ensures && TextAt(input, p, t0)
      && f < |input| && input[e] == COMMA && input[e + 1] == SPACE && input[f] == rest[0]
      && TextAt(input, f, rest)
      && f + |rest| == p + |t0 + SEPARATOR + rest|
  {
    Split3(input, p, t0, SEPARATOR, rest, e, f);
  }

  /** Where the name, the colon and the value of one member sit. */
  lemma EntryTextSplit(input: Text, p: nat, first: Entry, q: nat) returns (c: nat)
    requires first.key.Str? && Document(first.value)
    requires q == p + |StringifyEntry(first)| && TextAt(input, p, StringifyEntry(first))
    requires q <= |input| && EndsValue(input, q)
    ensures EntryAt(input, p, first, c, q)
  {
    var key, value := EntryTextParts(first);
    c := p + |key|;
    var d := c + 2;
    Split3(input, p, key, [COLON, SPACE], value, c, d);
    ColonAt(input, c, d);
    FirstCodeUnit(input, d, value);
    assert ValueAt(input, p, first.key, c);
    assert ValueAt(input, d, first.value, q);
  }

  /** A member's text: its quoted name, `: ` and its value's text. */
  lemma EntryTextParts(first: Entry) returns (key: Text, value: Text)
    requires first.key.Str? && Document(first.value)
    ensures StringifyEntry(first) == key + [COLON, SPACE] + value
    ensures key == Stringify(first.key) && value == Stringify(first.value)
    ensures |key| > 0 && |value| > 0 && !Cursor.IsWhitespace(value[0])
  {
    key := Quoted(first.key.s);
    value := Stringify(first.value);
    StringifyStart(first.value);
  }

  /** `: ` at c, and d just after it. */
  lemma ColonAt(input: Text, c: nat, d: nat)
    requires TextAt(input, c, [COLON, SPACE]) && d == c + 2
    ensures d <= |input| && input[c] == COLON && input[c + 1] == SPACE
  {
    assert input[c] == input[c..d][0];
    assert input[c + 1] == input[c..d][1];
  }

  /** With distinct names, put appends the next member. */
  lemma AppendFresh(acc: seq<Entry>, entries: seq<Entry>)
    requires entries != [] && UniqueKeys(acc + entries)
    ensures Put(acc, entries[0].key, entries[0].value) == acc + [entries[0]]
    ensures acc + [entries[0]] + entries[1..] == acc + entries
    ensures UniqueKeys(acc + [entries[0]] + entries[1..])
  {
    var first := entries[0];
    assert acc + [first] + entries[1..] == acc + entries;
    assert !HasKey(acc, first.key) by {
      assert (acc + entries)[|acc|] == first;
      forall i | 0 <= i < |acc| ensures acc[i].key != first.key {
        assert (acc + entries)[i] == acc[i];
      }
    }
  }

  /** One element, then the closing bracket or a comma. */
  lemma ElementStep(input: Text, s: Cursor.State, x: JVal, s1: Cursor.State, comma: bool, s2: Cursor.State,
                    acc: seq<JVal>)
    requires Cursor.Valid(input, ORIGIN, s) && Cursor.Valid(input, ORIGIN, s1)
    requires ParseValue(input, s) == Ok((x, s1))
    requires Cursor.ExpectedChar(input, ORIGIN, s1, COMMA) == Ok((comma, s2))
    ensures comma ==> ParseElements(input, s, acc) == ParseElements(input, s2, acc + [x])
    ensures !comma ==> ParseElements(input, s, acc) == Ok((acc + [x], s2))
  {
  }

  /** One member: name, colon, value, then the closing brace or a comma. */
  lemma MemberStep(input: Text, s: Cursor.State, name: JVal, s1: Cursor.State, s2: Cursor.State,
                   x: JVal, s3: Cursor.State, comma: bool, s4: Cursor.State, acc: seq<Entry>)
    requires Cursor.Valid(input, ORIGIN, s) && Cursor.Valid(input, ORIGIN, s1)
    requires Cursor.Valid(input, ORIGIN, s2) && Cursor.Valid(input, ORIGIN, s3)
    requires name.Str?
    requires ParseValue(input, s) == Ok((name, s1))
    requires Cursor.ExpectedChar(input, ORIGIN, s1, COLON) == Ok((true, s2))
    requires ParseValue(input, s2) == Ok((x, s3))
    requires Cursor.ExpectedChar(input, ORIGIN, s3, COMMA) == Ok((comma, s4))
    ensures comma ==> ParseMembers(input, s, acc) == ParseMembers(input, s4, Put(acc, name, x))
    ensures !comma ==> ParseMembers(input, s, acc) == Ok((Put(acc, name, x), s4))
  {
  }

  /** The last element, read up to the closing bracket at e. */
  lemma LastElementAt(input: Text, p: nat, x: JVal, e: nat, acc: seq<JVal>)
    requires p <= e < |input| && input[e] == RBRACKET
    ensures ParseValue(input, At(input, p)) == Ok((x, At(input, e))) ==>
      ParseElements(input, At(input, p), acc) == Ok((acc + [x], At(input, e)))
  {
    NotExpectedAt(input, e, COMMA);
    if ParseValue(input, At(input, p)) == Ok((x, At(input, e))) {
      ElementStep(input, At(input, p), x, At(input, e), false, At(input, e), acc);
    }
  }

  /** An element read up to e, followed by `, ` and the next element. */
  lemma ElementAt(input: Text, p: nat, x: JVal, e: nat, f: nat, acc: seq<JVal>)
    requires p <= e && SeparatorAt(input, e) && f == e + 2
    ensures ParseValue(input, At(input, p)) == Ok((x, At(input, e))) ==>
      ParseElements(input, At(input, p), acc) == ParseElements(input, At(input, f), acc + [x])
  {
    var r := e + 1;
    ExpectedAt(input, e, COMMA);
    ElementsAfterSpace(input, r, f, acc + [x]);
    if ParseValue(input, At(input, p)) == Ok((x, At(input, e))) {
      ElementStep(input, At(input, p), x, At(input, e), true, At(input, r), acc);
    }
  }

  lemma ElementsAfterSpace(input: Text, r: nat, r1: nat, acc: seq<JVal>)
    requires r1 == r + 1 && r1 < |input| && input[r] == SPACE && !Cursor.IsWhitespace(input[r1])
    ensures ParseElements(input, At(input, r), acc) == ParseElements(input, At(input, r1), acc)
  {
    ValueAfterSpace(input, r, r1);
  }

  lemma MembersAfterSpace(input: Text, r: nat, r1: nat, acc: seq<Entry>)
    requires r1 == r + 1 && r1 < |input| && input[r] == SPACE && !Cursor.IsWhitespace(input[r1])
    ensures ParseMembers(input, At(input, r), acc) == ParseMembers(input, At(input, r1), acc)
  {
    ValueAfterSpace(input, r, r1);
  }

  /** A name read up to c, then `: ` and a value read from c + 2. */
  lemma MemberValueAt(input: Text, c: nat)
    requires c + 2 < |input| && input[c] == COLON && input[c + 1] == SPACE
    requires !Cursor.IsWhitespace(input[c + 2])
    ensures Cursor.ExpectedChar(input, ORIGIN, At(input, c), COLON) == Ok((true, At(input, c + 1)))
    ensures ParseValue(input, At(input, c + 1)) == ParseValue(input, At(input, c + 2))
  {
    ExpectedAt(input, c, COLON);
    ValueAfterSpace(input, c + 1, c + 2);
  }

  /** The last member: a name read up to c, `: `, and a value read up to the closing
      brace at e. */
  lemma LastMemberAt(input: Text, p: nat, name: JVal, c: nat, x: JVal, e: nat, acc: seq<Entry>)
    requires MemberLayout(input, p, c, e) && name.Str?
    requires e < |input| && input[e] == RBRACE
    ensures (&& ParseValue(input, At(input, p)) == Ok((name, At(input, c)))
             && ParseValue(input, At(input, c + 2)) == Ok((x, At(input, e)))) ==>
      ParseMembers(input, At(input, p), acc) == Ok((Put(acc, name, x), At(input, e)))
  {
    MemberValueAt(input, c);
    NotExpectedAt(input, e, COMMA);
    if && ParseValue(input, At(input, p)) == Ok((name, At(input, c)))
       && ParseValue(input, At(input, c + 2)) == Ok((x, At(input, e))) {
      MemberStep(input, At(input, p), name, At(input, c), At(input, c + 1), x, At(input, e),
                 false, At(input, e), acc);
    }
  }

  /** A member: a name read up to c, `: `, and a value read up to e, followed by `, `
      and the next member. */
  lemma MemberAt(input: Text, p: nat, name: JVal, c: nat, x: JVal, e: nat, f: nat, acc: seq<Entry>)
    requires MemberLayout(input, p, c, e) && name.Str?
    requires SeparatorAt(input, e) && f == e + 2
    ensures (&& ParseValue(input, At(input, p)) == Ok((name, At(input, c)))
             && ParseValue(input, At(input, c + 2)) == Ok((x, At(input, e)))) ==>
      ParseMembers(input, At(input, p), acc) == ParseMembers(input, At(input, f), Put(acc, name, x))
  {
    var r := e + 1;
    MemberJoints(input, c, e, r, f, Put(acc, name, x));
    if && ParseValue(input, At(input, p)) == Ok((name, At(input, c)))
       && ParseValue(input, At(input, c + 2)) == Ok((x, At(input, e))) {
      MemberStep(input, At(input, p), name, At(input, c), At(input, c + 1), x, At(input, e),
                 true, At(input, r), acc);
    }
  }

  /** The colon after a name and the separator after a value. */
  lemma MemberJoints(input: Text, c: nat, e: nat, r: nat, f: nat, acc: seq<Entry>)
    requires c + 2 < |input| && input[c] == COLON && input[c + 1] == SPACE
    requires !Cursor.IsWhitespace(input[c + 2]) && SeparatorAt(input, e) && r == e + 1 && f == r + 1
    ensures Cursor.ExpectedChar(input, ORIGIN, At(input, c), COLON) == Ok((true, At(input, c + 1)))
    ensures ParseValue(input, At(input, c + 1)) == ParseValue(input, At(input, c + 2))
    ensures Cursor.ExpectedChar(input, ORIGIN, At(input, e), COMMA) == Ok((true, At(input, r)))
    ensures ParseMembers(input, At(input, r), acc) == ParseMembers(input, At(input, f), acc)
  {
    MemberValueAt(input, c);
    ExpectedAt(input, e, COMMA);
    MembersAfterSpace(input, r, f, acc);
  }

  /** Appending the first element, then the others, appends them all. */
  lemma AppendFirst<T>(acc: seq<T>, xs: seq<T>)
    requires xs != []
    ensures acc + [xs[0]] + xs[1..] == acc + xs
  {
    assert [xs[0]] + xs[1..] == xs;
  }

  /** The first element followed by `, ` and the elements after it. */
  lemma {:induction false} MoreElementsAt(input: Text, p: nat, items: seq<JVal>, e: nat, f: nat, end: nat, acc: seq<JVal>)
    requires |items| > 1 && ValueAt(input, p, items[0], e) && SeparatorAt(input, e) && f == e + 2 && end <= |input|
    requires ParseElements(input, At(input, f), acc + [items[0]])
          == Ok((acc + [items[0]] + items[1..], At(input, end)))
    ensures ParseElements(input, At(input, p), acc) == Ok((acc + items, At(input, end)))
    decreases items, 0
  {
    ParseStringified(input, p, items[0], e);
    ElementAt(input, p, items[0], e, f, acc);
    AppendFirst(acc, items);
  }

  /** Several members read back: the first one, then the rest after `, `. */
  lemma {:induction false} FirstMemberRead(input: Text, p: nat, entries: seq<Entry>, e: nat, f: nat, end: nat, acc: seq<Entry>)
    requires EntriesAt(input, p, entries, end) && |entries| > 1 && e == p + |StringifyEntry(entries[0])| && f == e + 2
    requires Put(acc, entries[0].key, entries[0].value) == acc + [entries[0]]
    requires EntriesAt(input, f, entries[1..], end) && UniqueKeys(acc + [entries[0]] + entries[1..])
    ensures ParseMembers(input, At(input, p), acc) == Ok((acc + [entries[0]] + entries[1..], At(input, end)))
    decreases entries, 1
  {
    FirstMemberThen(input, p, entries, e, f, end, acc);
    ParseEntriesText(input, f, entries[1..], end, acc + [entries[0]]);
  }

  /** The first of several members reads up to the separator after it. */
  lemma FirstMemberThen(input: Text, p: nat, entries: seq<Entry>, e: nat, f: nat, end: nat, acc: seq<Entry>)
    requires EntriesAt(input, p, entries, end) && |entries| > 1 && e == p + |StringifyEntry(entries[0])|
    requires Put(acc, entries[0].key, entries[0].value) == acc + [entries[0]]
    requires f == e + 2 && f <= |input|
    ensures ParseMembers(input, At(input, p), acc) == ParseMembers(input, At(input, f), acc + [entries[0]])
    decreases entries, 0
  {
    var c := FirstEntryText(input, p, entries, e, end);
    MemberThen(input, p, entries[0], c, e, f, acc);
  }

  /** The first member, read up to e, followed by `, ` and the members after it. */
  lemma {:induction false} MemberThen(input: Text, p: nat, first: Entry, c: nat, e: nat, f: nat, acc: seq<Entry>)
    requires EntryAt(input, p, first, c, e) && SeparatorAt(input, e) && f == e + 2
    requires Put(acc, first.key, first.value) == acc + [first]
    ensures ParseMembers(input, At(input, p), acc) == ParseMembers(input, At(input, f), acc + [first])
    decreases first
  {
    ParseEntryHead(input, p, first, c, e);
    MemberAt(input, p, first.key, c, first.value, e, f, acc);
  }

  lemma ParseEmptyArrayText(input: Text, p: nat, v: JVal, q: nat)
    requires ValueAt(input, p, v, q) && v.Arr? && v.items == []
    ensures ParseValue(input, At(input, p)) == Ok((v, At(input, q)))
  {
    EmptyArrayText(input, p, v, q);
    EmptyArrayAt(input, p, q);
  }

  lemma {:induction false} ParseArrayText(input: Text, p: nat, v: JVal, q: nat)
    requires ValueAt(input, p, v, q) && v.Arr? && v.items != []
    ensures ParseValue(input, At(input, p)) == Ok((v, At(input, q)))
    decreases v, 1
  {
    var end := ArrayTextSplit(input, p, v, q);
    ParseItemsText(input, p + 1, v.items, end, []);
    assert [] + v.items == v.items;
    ArrayAt(input, p, v, end, q);
  }

  /** The elements between p and the closing bracket at end read back, after those
      already in acc. */
  lemma {:induction false} ParseItemsText(input: Text, p: nat, items: seq<JVal>, end: nat, acc: seq<JVal>)
    requires ItemsAt(input, p, items, end)
    ensures ParseElements(input, At(input, p), acc) == Ok((acc + items, At(input, end)))
    decreases items, 2
  {
    if |items| == 1 {
      ParseLastItemText(input, p, items, end, acc);
    } else {
      ParseMoreItemsText(input, p, items, end, acc);
    }
  }

  lemma {:induction false} ParseLastItemText(input: Text, p: nat, items: seq<JVal>, end: nat, acc: seq<JVal>)
    requires ItemsAt(input, p, items, end) && |items| == 1
    ensures ParseElements(input, At(input, p), acc) == Ok((acc + items, At(input, end)))
    decreases items, 0
  {
    LastItemText(input, p, items, end);
    ParseStringified(input, p, items[0], end);
    LastElementAt(input, p, items[0], end, acc);
    assert acc + items == acc + [items[0]];
  }

  lemma {:induction false} ParseMoreItemsText(input: Text, p: nat, items: seq<JVal>, end: nat, acc: seq<JVal>)
    requires ItemsAt(input, p, items, end) && |items| > 1
    ensures ParseElements(input, At(input, p), acc) == Ok((acc + items, At(input, end)))
    decreases items, 1
  {
    var e, f := ItemsTextSplit(input, p, items, end);
    ParseItemsText(input, f, items[1..], end, acc + [items[0]]);
    MoreElementsAt(input, p, items, e, f, end, acc);
  }

  lemma ParseEmptyObjectText(input: Text, p: nat, v: JVal, q: nat)
    requires ValueAt(input, p, v, q) && v.Map? && v.entries == []
    ensures ParseValue(input, At(input, p)) == Ok((v, At(input, q)))
  {
    EmptyObjectText(input, p, v, q);
    EmptyObjectAt(input, p, q);
  }

  lemma {:induction false} ParseObjectText(input: Text, p: nat, v: JVal, q: nat)
    requires ValueAt(input, p, v, q) && v.Map? && v.entries != []
    ensures ParseValue(input, At(input, p)) == Ok((v, At(input, q)))
    decreases v, 1
  {
    var end := ObjectTextSplit(input, p, v, q);
    ParseEntriesText(input, p + 1, v.entries, end, []);
    assert [] + v.entries == v.entries;
    ObjectAt(input, p, v, end, q);
  }

  /** The members between p and the closing brace at end read back, after those
      already in acc. */
  lemma {:induction false} ParseEntriesText(input: Text, p: nat, entries: seq<Entry>, end: nat, acc: seq<Entry>)
    requires EntriesAt(input, p, entries, end) && UniqueKeys(acc + entries)
    ensures ParseMembers(input, At(input, p), acc) == Ok((acc + entries, At(input, end)))
    decreases entries, 3
  {
    if |entries| == 1 {
      ParseLastEntryText(input, p, entries, end, acc);
    } else {
      ParseMoreEntriesText(input, p, entries, end, acc);
    }
  }

  lemma {:induction false} ParseLastEntryText(input: Text, p: nat, entries: seq<Entry>, end: nat, acc: seq<Entry>)
    requires EntriesAt(input, p, entries, end) && UniqueKeys(acc + entries) && |entries| == 1
    ensures ParseMembers(input, At(input, p), acc) == Ok((acc + entries, At(input, end)))
    decreases entries, 1
  {
    var first := entries[0];
    var c := LastEntryText(input, p, entries, end);
    ParseEntryHead(input, p, first, c, end);
    AppendFresh(acc, entries);
    LastMemberAt(input, p, first.key, c, first.value, end, acc);
    assert acc + entries == acc + [first];
  }

  lemma {:induction false} ParseMoreEntriesText(input: Text, p: nat, entries: seq<Entry>, end: nat, acc: seq<Entry>)
    requires EntriesAt(input, p, entries, end) && UniqueKeys(acc + entries) && |entries| > 1
    ensures ParseMembers(input, At(input, p), acc) == Ok((acc + entries, At(input, end)))
    decreases entries, 2
  {
    var e, f := OtherEntriesText(input, p, entries, end);
    AppendFresh(acc, entries);
    FirstMemberRead(input, p, entries, e, f, end, acc);
  }

  /** The name and the value of a member read back. */
  lemma {:induction false} ParseEntryHead(input: Text, p: nat, first: Entry, c: nat, q: nat)
    requires EntryAt(input, p, first, c, q)
    ensures ParseValue(input, At(input, p)) == Ok((first.key, At(input, c)))
    ensures ParseValue(input, At(input, c + 2)) == Ok((first.value, At(input, q)))
    decreases first, 0
  {
    ParseStringified(input, p, first.key, c);
    ParseStringified(input, c + 2, first.value, q);
  }

  /** `JSON.parse(JSON.stringify(v)) == v` for every value parse can return: the
      identity `normalize()` relies on. */
  lemma StringifyParsed(v: JVal)
    requires Document(v)
    ensures Parsed(Stringify(v)) == Ok(v)
  {
    var t := Stringify(v);
    StringifyStart(v);
    var start := Cursor.Start(ORIGIN);
    assert Cursor.GetChar(t, ORIGIN, start) == Ok(At(t, 0));
    SkipAtToken(t, 0);
    assert Cursor.SkipWhitespaces(t, ORIGIN, start) == At(t, 0);
    ParseAfterSkip(t, start);
    assert t[0..|t|] == t;
    ParseStringified(t, 0, v, |t|);
  }

  /** JSON.parse returns a Document, or throws a located ParseException. */
  lemma ParsedFacts(input: Text)
    ensures Parsed(input).Ok? ==> Document(Parsed(input).value)
    ensures Parsed(input).Err? ==> Located(input, Parsed(input).error)
  {
    var start := Cursor.Start(ORIGIN);
    ParseValueFacts(input, start);
    var top := ParseValue(input, start);
    if top.Ok? && top.value.1.lastChar != Cursor.EOT {
      SkippedAtToken(input, top.value.1);
    }
  }
}
