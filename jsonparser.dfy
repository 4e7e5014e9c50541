/** org.miktim.json.JSONparser (src/org/miktim/json/JSONparser.java): the same
    stream parser, except that members go in through Json.set, strings through
    the lenient unescapeString, and every exception through newParseException,
    which moves the offset back to the start of the lexeme. The toNumber it
    imports from JSON.java is not part of this model; ParserJSON.toNumber stands
    in for it. */
module JSONparser {
  import opened JavaLang
  import opened Values
  import opened Escape
  import Numbers
  import Cursor
  import Readers
  import P = JSON
  import PJ = ParserJSON

  // ---------------------------------------------------------------- parseObject

  /** The offset the parsers start from: the first code unit read is at 0. */
  const ORIGIN: int := -1

  /** "Unexpected char": newParseException is given offset + 1 and the one-char
      lexeme, so the exception points at the character itself. */
  function CharError(s: Cursor.State): (e: Exception)
    requires -1 <= s.lastChar < 0x1_0000
    ensures e == ParseException(UnexpectedChar, [Cursor.LastChar(s)], s.offset)
  {
    Cursor.NewParseException(UnexpectedChar, [Cursor.LastChar(s)], s.offset + 1)
  }

  /** parseObject: an object, an array, a string, a literal or a number, with the
      whitespace after it. */
  function ParseValue(input: Text, s: Cursor.State): (r: Result<(JVal, Cursor.State)>)
    requires Cursor.Valid(input, ORIGIN, s)
    ensures r.Ok? ==> Cursor.Valid(input, ORIGIN, r.value.1) && r.value.1.next > s.next
    ensures r.Ok? ==> !Cursor.IsWhitespace(Cursor.LastChar(r.value.1))
    decreases Cursor.Remaining(input, s), 0
  {
    var (isObject, s1) := Cursor.ExpectedChar(input, ORIGIN, s, LBRACE).value;
    if isObject then ParseObjectBody(input, s1)
    else
      var (isArray, s2) := Cursor.ExpectedChar(input, ORIGIN, s1, LBRACKET).value;
      if isArray then ParseArrayBody(input, s2)
      else ParseScalar(input, s2)
  }

  /** parseObject once the `{` is read: no members or a list of members, then `}`. */
  function ParseObjectBody(input: Text, s1: Cursor.State): (r: Result<(JVal, Cursor.State)>)
    requires Cursor.Valid(input, ORIGIN, s1)
    ensures r.Ok? ==> Cursor.Valid(input, ORIGIN, r.value.1) && r.value.1.next > s1.next
    ensures r.Ok? ==> !Cursor.IsWhitespace(Cursor.LastChar(r.value.1))
    decreases Cursor.Remaining(input, s1), 2
  {
    var (isEmpty, s2) := Cursor.ExpectedChar(input, ORIGIN, s1, RBRACE).value;
    if isEmpty then Ok((Map(JsonMap, []), Cursor.SkipWhitespaces(input, ORIGIN, s2)))
    else
      var members :- ParseMembers(input, s2, []);
      var (closed, s3) := Cursor.ExpectedChar(input, ORIGIN, members.1, RBRACE).value;
      if !closed then Err(ParseException(CloseBraceExpected, [], s3.offset))
      else Ok((Map(JsonMap, members.0), Cursor.SkipWhitespaces(input, ORIGIN, s3)))
  }

  /** parseObject once the `[` is read: no elements or a list of elements, then `]`;
      `list.toArray()` makes an Object[]. */
  function ParseArrayBody(input: Text, s2: Cursor.State): (r: Result<(JVal, Cursor.State)>)
    requires Cursor.Valid(input, ORIGIN, s2)
    ensures r.Ok? ==> Cursor.Valid(input, ORIGIN, r.value.1) && r.value.1.next > s2.next
    ensures r.Ok? ==> !Cursor.IsWhitespace(Cursor.LastChar(r.value.1))
    decreases Cursor.Remaining(input, s2), 2
  {
    var (isEmpty, s3) := Cursor.ExpectedChar(input, ORIGIN, s2, RBRACKET).value;
    if isEmpty then Ok((Arr(OBJECT, []), Cursor.SkipWhitespaces(input, ORIGIN, s3)))
    else
      var elements :- ParseElements(input, s3, []);
      var (closed, s4) := Cursor.ExpectedChar(input, ORIGIN, elements.1, RBRACKET).value;
      if !closed then Err(ParseException(CloseBracketExpected, [], s4.offset))
      else Ok((Arr(OBJECT, elements.0), Cursor.SkipWhitespaces(input, ORIGIN, s4)))
  }

  /** The do-while loop over the members of an object, stored with
      `set(name, value)`: for a String name that is LinkedHashMap.put of the name
      itself, so a repeated name keeps its place and takes the later value. */
  function ParseMembers(input: Text, s: Cursor.State, acc: seq<Entry>): (r: Result<(seq<Entry>, Cursor.State)>)
    requires Cursor.Valid(input, ORIGIN, s)
    ensures r.Ok? ==> Cursor.Valid(input, ORIGIN, r.value.1) && r.value.1.next > s.next
    decreases Cursor.Remaining(input, s), 1
  {
    var name :- ParseValue(input, s);
    if !name.0.Str? then Err(ParseException(NameExpected, [], name.1.offset))
    else
      var (colon, s1) := Cursor.ExpectedChar(input, ORIGIN, name.1, COLON).value;
      if !colon then Err(ParseException(NameExpected, [], s1.offset))
      else
        var value :- ParseValue(input, s1);
        var members := Put(acc, name.0, value.0);
        var (comma, s2) := Cursor.ExpectedChar(input, ORIGIN, value.1, COMMA).value;
        if comma then ParseMembers(input, s2, members) else Ok((members, s2))
  }

  /** The do-while loop over the elements of an array. */
  function ParseElements(input: Text, s: Cursor.State, acc: seq<JVal>): (r: Result<(seq<JVal>, Cursor.State)>)
    requires Cursor.Valid(input, ORIGIN, s)
    ensures r.Ok? ==> Cursor.Valid(input, ORIGIN, r.value.1) && r.value.1.next > s.next
    decreases Cursor.Remaining(input, s), 1
  {
    var element :- ParseValue(input, s);
    var (comma, s1) := Cursor.ExpectedChar(input, ORIGIN, element.1, COMMA).value;
    if comma then ParseElements(input, s1, acc + [element.0]) else Ok((acc + [element.0], s1))
  }

  /** parseObject's string, literal, number and error branches. A string is read
      up to its closing quote (the loop is JSON.java's, `P.ScanString`), unescaped,
      and only then is the quote skipped. */
  function ParseScalar(input: Text, s: Cursor.State): (r: Result<(JVal, Cursor.State)>)
    requires Cursor.Valid(input, ORIGIN, s)
    ensures r.Ok? ==> Cursor.Valid(input, ORIGIN, r.value.1) && r.value.1.next > s.next
    ensures r.Ok? ==> !Cursor.IsWhitespace(Cursor.LastChar(r.value.1))
  {
    var c := Cursor.LastChar(s);
    if c == QUOTE then
      var scanned :- P.ScanString(input, s, []);
      var text :- P.Unescape(scanned.0);
      var s1 := Cursor.GetChar(input, ORIGIN, scanned.1).value;
      Ok((Str(text), Cursor.SkipWhitespaces(input, ORIGIN, s1)))
    else if Cursor.IsLiteralChar(c) then
      var (literal, s1) := Cursor.NextChars(input, ORIGIN, s, Cursor.Literals);
      if literal == Ascii("true") then Ok((Bool(true), Cursor.SkipWhitespaces(input, ORIGIN, s1)))
      else if literal == Ascii("false") then Ok((Bool(false), Cursor.SkipWhitespaces(input, ORIGIN, s1)))
      else if literal == Ascii("null") then Ok((Null, Cursor.SkipWhitespaces(input, ORIGIN, s1)))
      else Err(Cursor.NewParseException(UnknownLiteral, literal, s1.offset))
    else if Numbers.IsNumberChar(c) then
      var (number, s1) := Cursor.NextChars(input, ORIGIN, s, Cursor.NumberChars);
      match PJ.ToNumber(number)
      case Ok(n) => Ok((Num(n), Cursor.SkipWhitespaces(input, ORIGIN, s1)))
      case Err(_) => Err(Cursor.NewParseException(UnparseableNumber, number, s1.offset))
    else Err(CharError(s))
  }

  /** The first value of a fresh parser's text: `new JSONparser(...).parseObject()`.
      Nothing demands the end of text after it. */
  function FirstValue(input: Text): Result<JVal> {
    var top :- ParseValue(input, Cursor.Start(ORIGIN));
    Ok(top.0)
  }

  /** JSONparser: the reader with the cursor fields lastChar and offset. */
  class Parser {
    const reader: Readers.Reader

    /** The parser over a text, with lastChar = 0x20 and offset = -1. */
    constructor (text: Text)
      ensures reader.input == text && fresh(reader)
      ensures Ready() && reader.State() == Cursor.Start(ORIGIN)
    {
      reader := new Readers.Reader(text, ORIGIN);
    }

    predicate Ready()
      reads this, reader
    {
      reader.Valid() && reader.origin == ORIGIN
    }

    method ParseObject() returns (r: Result<JVal>)
      requires Ready()
      modifies reader
      ensures Ready()
      ensures Cursor.Follows(ParseValue(reader.input, old(reader.State())), r, reader.State())
      decreases Cursor.Remaining(reader.input, reader.State()), 0
    {
      var isObject := reader.ExpectedChar(LBRACE);
      if isObject {
        var isEmpty := reader.ExpectedChar(RBRACE);
        var members: seq<Entry> := [];
        if !isEmpty {
          members :- ReadMembers();
          var closed := reader.ExpectedChar(RBRACE);
          if !closed {
            return Err(ParseException(CloseBraceExpected, [], reader.offset));
          }
        }
        var _ := reader.SkipWhitespaces();
        return Ok(Map(JsonMap, members));
      }
      var isArray := reader.ExpectedChar(LBRACKET);
      if isArray {
        var isEmpty := reader.ExpectedChar(RBRACKET);
        var list: seq<JVal> := [];
        if !isEmpty {
          list :- ReadElements();
          var closed := reader.ExpectedChar(RBRACKET);
          if !closed {
            return Err(ParseException(CloseBracketExpected, [], reader.offset));
          }
        }
        var _ := reader.SkipWhitespaces();
        return Ok(Arr(OBJECT, list));
      }
      r := ReadScalar();
    }

    /** The members loop of parseObject. */
    method ReadMembers() returns (r: Result<seq<Entry>>)
      requires Ready()
      modifies reader
      ensures Ready()
      ensures Cursor.Follows(ParseMembers(reader.input, old(reader.State()), []), r, reader.State())
      decreases Cursor.Remaining(reader.input, reader.State()), 1
    {
      var members: seq<Entry> := [];
      ghost var spec := ParseMembers(reader.input, reader.State(), []);
      while true
        invariant Ready()
        invariant reader.next >= old(reader.next)
        invariant ParseMembers(reader.input, reader.State(), members) == spec
        decreases Cursor.Remaining(reader.input, reader.State())
      {
        var name :- ParseObject();
        if !name.Str? {
          return Err(ParseException(NameExpected, [], reader.offset));
        }
        var colon := reader.ExpectedChar(COLON);
        if !colon {
          return Err(ParseException(NameExpected, [], reader.offset));
        }
        var value :- ParseObject();
        members := Put(members, name, value);
        var comma := reader.ExpectedChar(COMMA);
        if !comma {
          return Ok(members);
        }
      }
    }

    /** The elements loop of parseObject. */
    method ReadElements() returns (r: Result<seq<JVal>>)
      requires Ready()
      modifies reader
      ensures Ready()
      ensures Cursor.Follows(ParseElements(reader.input, old(reader.State()), []), r, reader.State())
      decreases Cursor.Remaining(reader.input, reader.State()), 1
    {
      var list: seq<JVal> := [];
      ghost var spec := ParseElements(reader.input, reader.State(), []);
      while true
        invariant Ready()
        invariant reader.next >= old(reader.next)
        invariant ParseElements(reader.input, reader.State(), list) == spec
        decreases Cursor.Remaining(reader.input, reader.State())
      {
        var element :- ParseObject();
        list := list + [element];
        var comma := reader.ExpectedChar(COMMA);
        if !comma {
          return Ok(list);
        }
      }
    }

    /** parseObject's string, literal, number and error branches. */
    method ReadScalar() returns (r: Result<JVal>)
      requires Ready()
      modifies reader
      ensures Ready()
      ensures Cursor.Follows(ParseScalar(reader.input, old(reader.State())), r, reader.State())
    {
      var c := Cursor.LastChar(reader.State());
      if c == QUOTE {
        var sb :- ReadString();
        var text :- P.UnescapeString(sb);
        var _ := reader.GetChar();
        var _ := reader.SkipWhitespaces();
        return Ok(Str(text));
      } else if Cursor.IsLiteralChar(c) {
        var literal := reader.NextChars(Cursor.Literals);
        if literal == Ascii("true") {
          r := Ok(Bool(true));
        } else if literal == Ascii("false") {
          r := Ok(Bool(false));
        } else if literal == Ascii("null") {
          r := Ok(Null);
        } else {
          return Err(Cursor.NewParseException(UnknownLiteral, literal, reader.offset));
        }
      } else if Numbers.IsNumberChar(c) {
        var number := reader.NextChars(Cursor.NumberChars);
        var n := PJ.ToNumber(number);
        if n.Err? {
          return Err(Cursor.NewParseException(UnparseableNumber, number, reader.offset));
        }
        r := Ok(Num(n.value));
      } else {
        return Err(Cursor.NewParseException(UnexpectedChar, [Cursor.LastChar(reader.State())], reader.offset + 1));
      }
      var _ := reader.SkipWhitespaces();
    }

    /** The string loop of parseObject: up to, and not past, the closing quote. */
    method ReadString() returns (r: Result<Text>)
      requires Ready()
      modifies reader
      ensures Ready()
      ensures Cursor.Follows(P.ScanString(reader.input, old(reader.State()), []), r, reader.State())
    {
      var sb: Text := [];
      ghost var spec := P.ScanString(reader.input, reader.State(), []);
      while true
        invariant Ready()
        invariant P.ScanString(reader.input, reader.State(), sb) == spec
        decreases Cursor.Remaining(reader.input, reader.State())
      {
        var c :- reader.GetChar();
        if c == QUOTE {
          return Ok(sb);
        }
        if c == BACKSLASH {
          var d := reader.GetChar();
          assert sb + [c] + [d.value] == sb + [c, d.value];
          sb := sb + [c] + [d.value];
        } else {
          sb := sb + [c];
        }
      }
    }
  }
  // ---------------------------------------------------------------- what parseObject returns

  /** Where the exceptions of parseObject point: past the end for "Unexpected EOT";
      at the start of the offending lexeme for an unknown literal or a bad number;
      at the offending character, named by itself (end of text as 0xFFFF), for an
      unexpected character; at the backslash of a bad `\u` escape, the only escape
      the lenient unescapeString refuses; at the offending token for the structural
      errors. */
  predicate Located(input: Text, e: Exception) {
    && e.ParseException?
    && match e.kind
       case UnexpectedEOT => e.errorOffset == |input| && e.lexeme == []
       case UnknownLiteral => P.Occurs(input, e.lexeme, e.errorOffset)
       case UnparseableNumber => P.Occurs(input, e.lexeme, e.errorOffset)
       case UnexpectedChar =>
         P.AtToken(input, e.errorOffset) && e.lexeme == [if e.errorOffset < |input| then input[e.errorOffset] else CHAR_OF_EOF]
       case UnparseableUEscape => PJ.InString(e)
       case WrongTwoCharEscape => false
       case UnescapedControlChar => false
       case _ => e.lexeme == [] && P.AtToken(input, e.errorOffset)
  }

  /** The lenient unescapeString of a text whose backslashes are paired fails, if at
      all, on a bad `\u` escape, pointing at its backslash. */
  lemma {:induction false} LenientErrors(t: Text, i: nat)
    requires i <= |t| && PairedFrom(t, i)
    ensures var r := P.UnescapeFrom(t, i);
      r.Err? ==> PJ.InString(r.error) && r.error.kind == UnparseableUEscape && r.error.lexeme == t
    decreases |t| - i
  {
    if i < |t| {
      match P.UnescapeStep(t, i)
      case Err(_) =>
      case Ok((u, j)) =>
        if t[i] == BACKSLASH && j == i + 6 {
          var h := t[i + 2..i + 6];
          assert forall k | i + 2 <= k < i + 6 :: t[k] == h[k - (i + 2)];
          PairedSkip(t, i + 2, i + 6);
        }
        LenientErrors(t, j);
    }
  }

  /** What parseObject reads is a Value, and every exception it throws is a located
      ParseException. */
  lemma {:induction false} ParseValueFacts(input: Text, s: Cursor.State)
    requires Cursor.Valid(input, ORIGIN, s)
    ensures var r := ParseValue(input, s);
      (r.Ok? ==> PJ.Value(r.value.0)) && (r.Err? ==> Located(input, r.error))
    decreases Cursor.Remaining(input, s), 1
  {
    var (isObject, s1) := Cursor.ExpectedChar(input, ORIGIN, s, LBRACE).value;
    if isObject {
      ObjectBodyFacts(input, s1);
    } else {
      var (isArray, s2) := Cursor.ExpectedChar(input, ORIGIN, s1, LBRACKET).value;
      if isArray {
        ArrayBodyFacts(input, s2);
      } else {
        ParseScalarFacts(input, s2);
      }
    }
  }

  lemma {:induction false} ObjectBodyFacts(input: Text, s1: Cursor.State)
    requires Cursor.Valid(input, ORIGIN, s1)
    ensures var r := ParseObjectBody(input, s1);
      (r.Ok? ==> PJ.Value(r.value.0)) && (r.Err? ==> Located(input, r.error))
    decreases Cursor.Remaining(input, s1), 3
  {
    var (isEmpty, s2) := Cursor.ExpectedChar(input, ORIGIN, s1, RBRACE).value;
    if !isEmpty {
      ParseMembersFacts(input, s2, []);
      var m := ParseMembers(input, s2, []);
      if m.Ok? {
        var (closed, s3) := Cursor.ExpectedChar(input, ORIGIN, m.value.1, RBRACE).value;
        if !closed {
          P.SkippedAtToken(input, s3);
        }
      }
    }
  }

  lemma {:induction false} ArrayBodyFacts(input: Text, s2: Cursor.State)
    requires Cursor.Valid(input, ORIGIN, s2)
    ensures var r := ParseArrayBody(input, s2);
      (r.Ok? ==> PJ.Value(r.value.0)) && (r.Err? ==> Located(input, r.error))
    decreases Cursor.Remaining(input, s2), 3
  {
    var (isEmpty, s3) := Cursor.ExpectedChar(input, ORIGIN, s2, RBRACKET).value;
    if !isEmpty {
      ParseElementsFacts(input, s3, []);
      var m := ParseElements(input, s3, []);
      if m.Ok? {
        var (closed, s4) := Cursor.ExpectedChar(input, ORIGIN, m.value.1, RBRACKET).value;
        if !closed {
          P.SkippedAtToken(input, s4);
        }
      }
    }
  }

  lemma {:induction false} ParseMembersFacts(input: Text, s: Cursor.State, acc: seq<Entry>)
    requires Cursor.Valid(input, ORIGIN, s) && PJ.Members(acc)
    ensures var r := ParseMembers(input, s, acc);
      (r.Ok? ==> PJ.Members(r.value.0)) && (r.Err? ==> Located(input, r.error))
    decreases Cursor.Remaining(input, s), 2
  {
    ParseValueFacts(input, s);
    var name := ParseValue(input, s);
    if name.Ok? {
      if !name.value.0.Str? {
        P.SkippedAtToken(input, name.value.1);
      } else {
        var (colon, s1) := Cursor.ExpectedChar(input, ORIGIN, name.value.1, COLON).value;
        if !colon {
          P.SkippedAtToken(input, s1);
        } else {
          NamedMemberFacts(input, s, acc);
        }
      }
    }
  }

  /** ParseMembersFacts once a name and its colon are read. */
  lemma {:induction false} NamedMemberFacts(input: Text, s: Cursor.State, acc: seq<Entry>)
    requires Cursor.Valid(input, ORIGIN, s) && PJ.Members(acc)
    requires var name := ParseValue(input, s);
      && name.Ok? && name.value.0.Str?
      && Cursor.ExpectedChar(input, ORIGIN, name.value.1, COLON).value.0
    ensures var r := ParseMembers(input, s, acc);
      (r.Ok? ==> PJ.Members(r.value.0)) && (r.Err? ==> Located(input, r.error))
    decreases Cursor.Remaining(input, s), 0
  {
    var name := ParseValue(input, s).value;
    var s1 := Cursor.ExpectedChar(input, ORIGIN, name.1, COLON).value.1;
    ParseValueFacts(input, s1);
    var value := ParseValue(input, s1);
    if value.Ok? {
      PJ.PutMembers(acc, name.0, value.value.0);
      var (comma, s2) := Cursor.ExpectedChar(input, ORIGIN, value.value.1, COMMA).value;
      if comma {
        ParseMembersFacts(input, s2, Put(acc, name.0, value.value.0));
      }
    }
  }

  lemma {:induction false} ParseElementsFacts(input: Text, s: Cursor.State, acc: seq<JVal>)
    requires Cursor.Valid(input, ORIGIN, s) && forall x | x in acc :: PJ.Value(x)
    ensures var r := ParseElements(input, s, acc);
      (r.Ok? ==> forall x | x in r.value.0 :: PJ.Value(x)) && (r.Err? ==> Located(input, r.error))
    decreases Cursor.Remaining(input, s), 2
  {
    ParseValueFacts(input, s);
    var element := ParseValue(input, s);
    if element.Ok? {
      var (comma, s1) := Cursor.ExpectedChar(input, ORIGIN, element.value.1, COMMA).value;
      if comma {
        ParseElementsFacts(input, s1, acc + [element.value.0]);
      }
    }
  }

  lemma ParseScalarFacts(input: Text, s: Cursor.State)
    requires Cursor.Valid(input, ORIGIN, s) && !Cursor.IsWhitespace(Cursor.LastChar(s))
    ensures var r := ParseScalar(input, s);
      (r.Ok? ==> PJ.Value(r.value.0)) && (r.Err? ==> Located(input, r.error))
  {
    var c := Cursor.LastChar(s);
    P.SkippedAtToken(input, s);
    if c == QUOTE {
      StringScalarFacts(input, s);
    } else if Cursor.IsLiteralChar(c) {
      LiteralScalarFacts(input, s);
    } else if Numbers.IsNumberChar(c) {
      NumberScalarFacts(input, s);
    }
  }

  lemma StringScalarFacts(input: Text, s: Cursor.State)
    requires Cursor.Valid(input, ORIGIN, s) && Cursor.LastChar(s) == QUOTE
    ensures var r := ParseScalar(input, s);
      (r.Ok? ==> PJ.Value(r.value.0)) && (r.Err? ==> Located(input, r.error))
  {
    P.ScanStringPaired(input, s, []);
    var scanned := P.ScanString(input, s, []);
    if scanned.Ok? {
      assert scanned.value.0[..0] == [];
      LenientErrors(scanned.value.0, 0);
    }
  }

  lemma LiteralScalarFacts(input: Text, s: Cursor.State)
    requires Cursor.Valid(input, ORIGIN, s) && Cursor.IsLiteralChar(Cursor.LastChar(s))
    ensures var r := ParseScalar(input, s);
      (r.Ok? ==> PJ.Value(r.value.0)) && (r.Err? ==> Located(input, r.error))
  {
    PJ.RunOccurs(input, s, Cursor.Literals);
  }

  lemma NumberScalarFacts(input: Text, s: Cursor.State)
    requires Cursor.Valid(input, ORIGIN, s) && Cursor.LastChar(s) != QUOTE
    requires !Cursor.IsLiteralChar(Cursor.LastChar(s)) && Numbers.IsNumberChar(Cursor.LastChar(s))
    ensures var r := ParseScalar(input, s);
      (r.Ok? ==> PJ.Value(r.value.0)) && (r.Err? ==> Located(input, r.error))
  {
    PJ.RunOccurs(input, s, Cursor.NumberChars);
  }
}
