/** org.samples.java.JSON (srcs/JSON.java): the earlier JSON class. It keeps its
    properties in a private LinkedHashMap that set and remove change, guards set and
    get, accepts only the types checkObjectType lets through, writes compact text
    and parses with the same cursor as JSON.java, from offset 0. */
module SamplesJSON {
  import opened JavaLang
  import opened Values
  import opened Escape
  import Numbers
  import Cursor
  import Readers
  import Miktim = JSON

  // ---------------------------------------------------------------- unescapeString

  /** One turn of this variant's unescapeString loop at index i. It differs from
      JSON.java's in its failures: a short `\u` escape runs off the char array
      (StringIndexOutOfBoundsException) and a bad one fails Integer.parseInt
      (NumberFormatException); neither is turned into a ParseException. */
  function UnescapeStep(s: Text, i: nat): (r: Result<(Text, nat)>)
    requires i < |s|
    ensures r.Ok? ==> i < r.value.1 <= |s|
  {
    if s[i] != BACKSLASH then Ok(([s[i]], i + 1))
    else if i + 1 == |s| then Err(IndexOutOfBoundsException)
    else match ShortUnescape(s[i + 1])
      case Some(u) => Ok(([u], i + 2))
      case None =>
        if s[i + 1] != LOWER_U then Ok(([s[i + 1]], i + 2))
        else if |s| < i + 6 then Err(IndexOutOfBoundsException)
        else match ParseIntRadix16(s[i + 2..i + 6])
          case None => Err(NumberFormatException)
          case Some(v) => Ok(([(v % 0x1_0000) as CodeUnit], i + 6))
  }

  function UnescapeFrom(s: Text, i: nat): (r: Result<Text>)
    requires i <= |s|
    decreases |s| - i
  {
    if i == |s| then Ok([])
    else match UnescapeStep(s, i)
      case Err(e) => Err(e)
      case Ok((u, j)) => Prepend(u, UnescapeFrom(s, j))
  }

  function Unescape(s: Text): Result<Text> {
    UnescapeFrom(s, 0)
  }

  /** Both variants of unescapeString read the same code units from the same text;
      they fail on the same texts, with different exceptions. */
  lemma {:induction false} UnescapeAgrees(s: Text, i: nat)
    requires i <= |s|
    ensures UnescapeFrom(s, i).Ok? <==> Miktim.UnescapeFrom(s, i).Ok?
    ensures UnescapeFrom(s, i).Ok? ==> UnescapeFrom(s, i) == Miktim.UnescapeFrom(s, i)
    decreases |s| - i
  {
    if i < |s| {
      var step := UnescapeStep(s, i);
      assert step.Ok? <==> Miktim.UnescapeStep(s, i).Ok?;
      if step.Ok? {
        assert step == Miktim.UnescapeStep(s, i);
        UnescapeAgrees(s, step.value.1);
      }
    }
  }

  /** unescapeString(escapeString(s)) == s for every UTF-16 string. */
  lemma UnescapeEscape(s: Text)
    ensures Unescape(Escaped(s)) == Ok(s)
  {
    Miktim.UnescapeEscape(s);
    UnescapeAgrees(Escaped(s), 0);
  }

  /** unescapeString: the loop over the char array. */
  method UnescapeString(s: Text) returns (r: Result<Text>)
    ensures r == Unescape(s)
  {
    var sb: Text := [];
    var i := 0;
    assert Unescape(s).Ok? ==> [] + Unescape(s).value == Unescape(s).value;
    while i < |s|
      invariant 0 <= i <= |s|
      invariant Unescape(s) == Prepend(sb, UnescapeFrom(s, i))
      decreases |s| - i
    {
      ghost var i0 := i;
      var c := s[i];
      if c == BACKSLASH {
        if i + 1 == |s| {
          return Err(IndexOutOfBoundsException);
        }
        i := i + 1;
        c := s[i];
        var letter := ShortUnescape(c);
        if letter.Some? {
          PrependTwice(sb, [letter.value], UnescapeFrom(s, i + 1));
          sb := sb + [letter.value];
          i := i + 1;
          continue;
        } else if c == LOWER_U {
          if |s| < i + 5 {
            return Err(IndexOutOfBoundsException);
          }
          var v := ParseIntRadix16(s[i + 1..i + 5]);
          if v.None? {
            return Err(NumberFormatException);
          }
          var u := (v.value % 0x1_0000) as CodeUnit;
          PrependTwice(sb, [u], UnescapeFrom(s, i + 5));
          sb := sb + [u];
          i := i + 5;
          continue;
        }
      }
      assert UnescapeStep(s, i0) == Ok(([c], i + 1));
      PrependTwice(sb, [c], UnescapeFrom(s, i + 1));
      sb := sb + [c];
      i := i + 1;
    }
    assert sb + [] == sb;
    r := Ok(sb);
  }

  // ---------------------------------------------------------------- checkObjectType

  /** The types this JSON class stores and writes: null, String, Number, Boolean,
      org.samples.java.JSON, and Object[] arrays of such values. */
  predicate Storable(v: JVal)
    decreases v
  {
    match v
    case Null => true
    case Str(_) => true
    case Num(_) => true
    case Bool(_) => true
    case Map(cls, _) => cls == SamplesMap
    case Arr(component, items) => !component.Primitive? && forall x | x in items :: Storable(x)
    case _ => false
  }

  /** checkObjectType: the object itself when its type is storable, otherwise an
      IllegalArgumentException. The members of a JSON were checked when set. */
  function CheckObjectType(v: JVal): (r: Result<JVal>)
    ensures r == if Storable(v) then Ok(v) else Err(IllegalArgumentException)
    decreases v, 1
  {
    if v.Null? || v.Str? || v.Num? || v.Bool? || (v.Map? && v.cls == SamplesMap) then Ok(v)
    else if IsObjectArray(v) then
      var checked := CheckItems(v.items);
      if checked.Ok? then Ok(v) else Err(checked.error)
    else Err(IllegalArgumentException)
  }

  /** checkObjectType's loop over the elements of an Object[]. */
  function CheckItems(items: seq<JVal>): (r: Result<()>)
    ensures r.Ok? <==> forall x | x in items :: Storable(x)
    ensures r.Err? ==> r.error == IllegalArgumentException
    decreases items, 0
  {
    if items == [] then Ok(())
    else
      var first := CheckObjectType(items[0]);
      if first.Err? then assert items[0] in items; Err(first.error)
      else
        var rest := CheckItems(items[1..]);
        assert forall x | x in items :: x == items[0] || x in items[1..];
        assert forall x | x in items[1..] :: x in items;
        rest
  }

  // ---------------------------------------------------------------- Parser

  /** The offset `parse` resets the cursor to: the first code unit read is at 1. */
  const ORIGIN: int := 0

  /** parseObject, with the whitespace around the value. Members are stored with
      `set`, which refuses an empty name; the value is parsed before `set` runs. */
  function ParseValue(input: Text, s: Cursor.State): (r: Result<(JVal, Cursor.State)>)
    requires Cursor.Valid(input, ORIGIN, s)
    ensures r.Ok? ==> Cursor.Valid(input, ORIGIN, r.value.1) && r.value.1.next > s.next
    ensures r.Ok? ==> !Cursor.IsWhitespace(Cursor.LastChar(r.value.1))
    decreases Cursor.Remaining(input, s), 0
  {
    var (isObject, s1) := Cursor.ExpectedChar(input, ORIGIN, s, LBRACE).value;
    if isObject then ParseObjectBody(input, s1)
    else
      var (isArray, s2) := Cursor.ExpectedChar(input, ORIGIN, s1, LBRACKET).value;
      if isArray then ParseArrayBody(input, s2)
      else ParseScalar(input, s2)
  }

  /** parseObject once the `{` is read: no members or a list of members, then `}`. */
  function ParseObjectBody(input: Text, s1: Cursor.State): (r: Result<(JVal, Cursor.State)>)
    requires Cursor.Valid(input, ORIGIN, s1)
    ensures r.Ok? ==> Cursor.Valid(input, ORIGIN, r.value.1) && r.value.1.next > s1.next
    ensures r.Ok? ==> !Cursor.IsWhitespace(Cursor.LastChar(r.value.1))
    decreases Cursor.Remaining(input, s1), 2
  {
    var (isEmpty, s2) := Cursor.ExpectedChar(input, ORIGIN, s1, RBRACE).value;
    if isEmpty then Ok((Map(SamplesMap, []), Cursor.SkipWhitespaces(input, ORIGIN, s2)))
    else
      var members :- ParseMembers(input, s2, []);
      var (closed, s3) := Cursor.ExpectedChar(input, ORIGIN, members.1, RBRACE).value;
      if !closed then Err(ParseException(CloseBraceExpected, [], s3.offset))
      else Ok((Map(SamplesMap, members.0), Cursor.SkipWhitespaces(input, ORIGIN, s3)))
  }

  /** parseObject once the `[` is read: no elements or a list of elements, then `]`. */
  function ParseArrayBody(input: Text, s2: Cursor.State): (r: Result<(JVal, Cursor.State)>)
    requires Cursor.Valid(input, ORIGIN, s2)
    ensures r.Ok? ==> Cursor.Valid(input, ORIGIN, r.value.1) && r.value.1.next > s2.next
    ensures r.Ok? ==> !Cursor.IsWhitespace(Cursor.LastChar(r.value.1))
    decreases Cursor.Remaining(input, s2), 2
  {
    var (isEmpty, s3) := Cursor.ExpectedChar(input, ORIGIN, s2, RBRACKET).value;
    if isEmpty then Ok((Arr(OBJECT, []), Cursor.SkipWhitespaces(input, ORIGIN, s3)))
    else
      var elements :- ParseElements(input, s3, []);
      var (closed, s4) := Cursor.ExpectedChar(input, ORIGIN, elements.1, RBRACKET).value;
      if !closed then Err(ParseException(CloseBracketExpected, [], s4.offset))
      else Ok((Arr(OBJECT, elements.0), Cursor.SkipWhitespaces(input, ORIGIN, s4)))
  }

  /** The do-while loop over the properties of an object. */
  function ParseMembers(input: Text, s: Cursor.State, acc: seq<Entry>): (r: Result<(seq<Entry>, Cursor.State)>)
    requires Cursor.Valid(input, ORIGIN, s)
    ensures r.Ok? ==> Cursor.Valid(input, ORIGIN, r.value.1) && r.value.1.next > s.next
    decreases Cursor.Remaining(input, s), 1
  {
    var name :- ParseValue(input, s);
    if !name.0.Str? then Err(ParseException(NameExpected, [], name.1.offset))
    else
      var (colon, s1) := Cursor.ExpectedChar(input, ORIGIN, name.1, COLON).value;
      if !colon then Err(ParseException(NameExpected, [], s1.offset))
      else
        var value :- ParseValue(input, s1);
        if name.0.s == [] then Err(IllegalArgumentException)
        else
          var members := Put(acc, name.0, value.0);
          var (comma, s2) := Cursor.ExpectedChar(input, ORIGIN, value.1, COMMA).value;
          if comma then ParseMembers(input, s2, members) else Ok((members, s2))
  }

  /** The do-while loop over the elements of an array. */
  function ParseElements(input: Text, s: Cursor.State, acc: seq<JVal>): (r: Result<(seq<JVal>, Cursor.State)>)
    requires Cursor.Valid(input, ORIGIN, s)
    ensures r.Ok? ==> Cursor.Valid(input, ORIGIN, r.value.1) && r.value.1.next > s.next
    decreases Cursor.Remaining(input, s), 1
  {
    var element :- ParseValue(input, s);
    var (comma, s1) := Cursor.ExpectedChar(input, ORIGIN, element.1, COMMA).value;
    if comma then ParseElements(input, s1, acc + [element.0]) else Ok((acc + [element.0], s1))
  }

  /** The characters of a string up to its closing quote; a backslash takes the
      next character along. */
  function ScanString(input: Text, s: Cursor.State, acc: Text): (r: Result<(Text, Cursor.State)>)
    requires Cursor.Valid(input, ORIGIN, s)
    ensures r.Ok? ==> Cursor.Valid(input, ORIGIN, r.value.1) && r.value.1.next > s.next
    ensures r.Ok? ==> Cursor.LastChar(r.value.1) == QUOTE
    decreases Cursor.Remaining(input, s)
  {
    var s1 :- Cursor.GetChar(input, ORIGIN, s);
    var c := Cursor.LastChar(s1);
    if c == QUOTE then Ok((acc, s1))
    else if c == BACKSLASH then
      var s2 := Cursor.GetChar(input, ORIGIN, s1).value;
      ScanString(input, s2, acc + [c, Cursor.LastChar(s2)])
    else ScanString(input, s1, acc + [c])
  }

  /** parseObject's string, literal, number and error branches. The closing quote
      is skipped before the string is unescaped; an unexpected character is
      reported at offset - 1. */
  function ParseScalar(input: Text, s: Cursor.State): (r: Result<(JVal, Cursor.State)>)
    requires Cursor.Valid(input, ORIGIN, s)
    ensures r.Ok? ==> Cursor.Valid(input, ORIGIN, r.value.1) && r.value.1.next > s.next
    ensures r.Ok? ==> !Cursor.IsWhitespace(Cursor.LastChar(r.value.1))
  {
    var c := Cursor.LastChar(s);
    if c == QUOTE then
      var scanned :- ScanString(input, s, []);
      var s1 := Cursor.GetChar(input, ORIGIN, scanned.1).value;
      var text :- Unescape(scanned.0);
      Ok((Str(text), Cursor.SkipWhitespaces(input, ORIGIN, s1)))
    else if Cursor.IsLiteralChar(c) then
      var (literal, s1) := Cursor.NextChars(input, ORIGIN, s, Cursor.Literals);
      if literal == Ascii("true") then Ok((Bool(true), Cursor.SkipWhitespaces(input, ORIGIN, s1)))
      else if literal == Ascii("false") then Ok((Bool(false), Cursor.SkipWhitespaces(input, ORIGIN, s1)))
      else if literal == Ascii("null") then Ok((Null, Cursor.SkipWhitespaces(input, ORIGIN, s1)))
      else Err(ParseException(UnknownLiteral, literal, s1.offset - |literal|))
    else if Numbers.IsNumberChar(c) then
      var (number, s1) := Cursor.NextChars(input, ORIGIN, s, Cursor.NumberChars);
      if Numbers.IsBigDecimalLexeme(number) then
        Ok((Num(Decimal(JBigDecimal, number)), Cursor.SkipWhitespaces(input, ORIGIN, s1)))
      else Err(ParseException(UnparseableNumber, number, s1.offset - |number|))
    else Err(ParseException(UnexpectedChar, [c], s.offset - 1))
  }

  /** `JSON.parse(text)`: one value and nothing after it but whitespace. */
  function Parsed(input: Text): Result<JVal> {
    var top :- ParseValue(input, Cursor.Start(ORIGIN));
    if top.1.lastChar != Cursor.EOT then Err(ParseException(EOTExpected, [], top.1.offset))
    else Ok(top.0)
  }

  /** JSON.Parser: the reader it was last given and the cursor over it. */
  class Parser {
    var reader: Readers.Reader?

    constructor ()
      ensures reader == null
    {
      reader := null;
    }

    predicate Ready()
      reads this, reader
    {
      reader != null && reader.Valid() && reader.origin == ORIGIN
    }

    method ParseObject() returns (r: Result<JVal>)
      requires Ready()
      modifies reader
      ensures Ready()
      ensures Cursor.Follows(ParseValue(reader.input, old(reader.State())), r, reader.State())
      decreases Cursor.Remaining(reader.input, reader.State()), 0
    {
      var isObject := reader.ExpectedChar(LBRACE);
      if isObject {
        var isEmpty := reader.ExpectedChar(RBRACE);
        var members: seq<Entry> := [];
        if !isEmpty {
          members :- ReadMembers();
          var closed := reader.ExpectedChar(RBRACE);
          if !closed {
            return Err(ParseException(CloseBraceExpected, [], reader.offset));
          }
        }
        var _ := reader.SkipWhitespaces();
        return Ok(Map(SamplesMap, members));
      }
      var isArray := reader.ExpectedChar(LBRACKET);
      if isArray {
        var isEmpty := reader.ExpectedChar(RBRACKET);
        var list: seq<JVal> := [];
        if !isEmpty {
          list :- ReadElements();
          var closed := reader.ExpectedChar(RBRACKET);
          if !closed {
            return Err(ParseException(CloseBracketExpected, [], reader.offset));
          }
        }
        var _ := reader.SkipWhitespaces();
        return Ok(Arr(OBJECT, list));
      }
      r := ReadScalar();
    }

    /** The properties loop of parseObject. */
    method ReadMembers() returns (r: Result<seq<Entry>>)
      requires Ready()
      modifies reader
      ensures Ready()
      ensures Cursor.Follows(ParseMembers(reader.input, old(reader.State()), []), r, reader.State())
      decreases Cursor.Remaining(reader.input, reader.State()), 1
    {
      var members: seq<Entry> := [];
      ghost var spec := ParseMembers(reader.input, reader.State(), []);
      while true
        invariant Ready()
        invariant reader.next >= old(reader.next)
        invariant ParseMembers(reader.input, reader.State(), members) == spec
        decreases Cursor.Remaining(reader.input, reader.State())
      {
        var name :- ParseObject();
        if !name.Str? {
          return Err(ParseException(NameExpected, [], reader.offset));
        }
        var colon := reader.ExpectedChar(COLON);
        if !colon {
          return Err(ParseException(NameExpected, [], reader.offset));
        }
        var value :- ParseObject();
        if name.s == [] {
          return Err(IllegalArgumentException);
        }
        members := Put(members, name, value);
        var comma := reader.ExpectedChar(COMMA);
        if !comma {
          return Ok(members);
        }
      }
    }

    /** The elements loop of parseObject. */
    method ReadElements() returns (r: Result<seq<JVal>>)
      requires Ready()
      modifies reader
      ensures Ready()
      ensures Cursor.Follows(ParseElements(reader.input, old(reader.State()), []), r, reader.State())
      decreases Cursor.Remaining(reader.input, reader.State()), 1
    {
      var list: seq<JVal> := [];
      ghost var spec := ParseElements(reader.input, reader.State(), []);
      while true
        invariant Ready()
        invariant reader.next >= old(reader.next)
        invariant ParseElements(reader.input, reader.State(), list) == spec
        decreases Cursor.Remaining(reader.input, reader.State())
      {
        var element :- ParseObject();
        list := list + [element];
        var comma := reader.ExpectedChar(COMMA);
        if !comma {
          return Ok(list);
        }
      }
    }

    /** parseObject's string, literal, number and error branches. */
    method ReadScalar() returns (r: Result<JVal>)
      requires Ready()
      modifies reader
      ensures Ready()
      ensures Cursor.Follows(ParseScalar(reader.input, old(reader.State())), r, reader.State())
    {
      var c := Cursor.LastChar(reader.State());
      if c == QUOTE {
        var sb :- ReadString();
        var _ := reader.GetChar();
        var text :- UnescapeString(sb);
        var _ := reader.SkipWhitespaces();
        return Ok(Str(text));
      } else if Cursor.IsLiteralChar(c) {
        var literal := reader.NextChars(Cursor.Literals);
        if literal == Ascii("true") {
          r := Ok(Bool(true));
        } else if literal == Ascii("false") {
          r := Ok(Bool(false));
        } else if literal == Ascii("null") {
          r := Ok(Null);
        } else {
          return Err(ParseException(UnknownLiteral, literal, reader.offset - |literal|));
        }
      } else if Numbers.IsNumberChar(c) {
        var number := reader.NextChars(Cursor.NumberChars);
        if !Numbers.IsBigDecimalLexeme(number) {
          return Err(ParseException(UnparseableNumber, number, reader.offset - |number|));
        }
        r := Ok(Num(Decimal(JBigDecimal, number)));
      } else {
        return Err(ParseException(UnexpectedChar, [c], reader.offset - 1));
      }
      var _ := reader.SkipWhitespaces();
    }

    /** The string loop of parseObject: up to, and not past, the closing quote. */
    method ReadString() returns (r: Result<Text>)
      requires Ready()
      modifies reader
      ensures Ready()
      ensures Cursor.Follows(ScanString(reader.input, old(reader.State()), []), r, reader.State())
    {
      var sb: Text := [];
      ghost var spec := ScanString(reader.input, reader.State(), []);
      while true
        invariant Ready()
        invariant ScanString(reader.input, reader.State(), sb) == spec
        decreases Cursor.Remaining(reader.input, reader.State())
      {
        var c :- reader.GetChar();
        if c == QUOTE {
          return Ok(sb);
        }
        if c == BACKSLASH {
          var d := reader.GetChar();
          assert sb + [c] + [d.value] == sb + [c, d.value];
          sb := sb + [c] + [d.value];
        } else {
          sb := sb + [c];
        }
      }
    }

    /** parse(reader): reset the cursor to offset 0, read one value, demand the end
        of text. */
    method Parse(text: Text) returns (r: Result<JVal>)
      modifies this
      ensures r == Parsed(text)
    {
      reader := new Readers.Reader(text, ORIGIN);
      var top :- ParseObject();
      if reader.lastChar != Cursor.EOT {
        return Err(ParseException(EOTExpected, [], reader.offset));
      }
      return Ok(top);
    }
  }

  // ---------------------------------------------------------------- what parse returns

  /** The values parse builds: null, Booleans, Strings, BigDecimals read from decimal
      lexemes, Object[] arrays of such values, and JSON objects whose properties
      have distinct, non-empty names. */
  predicate Document(v: JVal)
    decreases v
  {
    match v
    case Null => true
    case Bool(_) => true
    case Num(n) => n.Decimal? && n.dkind == JBigDecimal && Numbers.IsBigDecimalLexeme(n.lexeme)
    case Str(_) => true
    case Arr(component, items) => component == OBJECT && forall x | x in items :: Document(x)
    case Map(cls, entries) =>
      cls == SamplesMap && UniqueKeys(entries)
      && forall e | e in entries :: e.key.Str? && e.key.s != [] && Document(e.value)
    case _ => false
  }

  predicate Members(entries: seq<Entry>) {
    UniqueKeys(entries) && forall e | e in entries :: e.key.Str? && e.key.s != [] && Document(e.value)
  }

  /** Every value parse returns can be stored and written by this class. */
  lemma {:induction false} DocumentStorable(v: JVal)
    requires Document(v)
    ensures Storable(v)
    decreases v
  {
    if v.Arr? {
      forall x | x in v.items ensures Storable(x) {
        DocumentStorable(x);
      }
    }
  }

  /** JSON.parse returns a Document: in particular no object it returns has an
      empty property name, since `set` refuses one. */
  lemma ParsedFacts(input: Text)
    ensures Parsed(input).Ok? ==> Document(Parsed(input).value)
  {
    ParseValueFacts(input, Cursor.Start(ORIGIN));
  }

  lemma {:induction false} ParseValueFacts(input: Text, s: Cursor.State)
    requires Cursor.Valid(input, ORIGIN, s)
    ensures var r := ParseValue(input, s); r.Ok? ==> Document(r.value.0)
    decreases Cursor.Remaining(input, s), 1
  {
    var (isObject, s1) := Cursor.ExpectedChar(input, ORIGIN, s, LBRACE).value;
    if isObject {
      ObjectBodyFacts(input, s1);
    } else {
      var (isArray, s2) := Cursor.ExpectedChar(input, ORIGIN, s1, LBRACKET).value;
      if isArray {
        ArrayBodyFacts(input, s2);
      } else {
        ParseScalarFacts(input, s2);
      }
    }
  }

  lemma {:induction false} ObjectBodyFacts(input: Text, s1: Cursor.State)
    requires Cursor.Valid(input, ORIGIN, s1)
    ensures var r := ParseObjectBody(input, s1); r.Ok? ==> Document(r.value.0)
    decreases Cursor.Remaining(input, s1), 3
  {
    var (isEmpty, s2) := Cursor.ExpectedChar(input, ORIGIN, s1, RBRACE).value;
    if !isEmpty {
      ParseMembersFacts(input, s2, []);
    }
  }

  lemma {:induction false} ArrayBodyFacts(input: Text, s2: Cursor.State)
    requires Cursor.Valid(input, ORIGIN, s2)
    ensures var r := ParseArrayBody(input, s2); r.Ok? ==> Document(r.value.0)
    decreases Cursor.Remaining(input, s2), 3
  {
    var (isEmpty, s3) := Cursor.ExpectedChar(input, ORIGIN, s2, RBRACKET).value;
    if !isEmpty {
      ParseElementsFacts(input, s3, []);
    }
  }

  lemma {:induction false} ParseMembersFacts(input: Text, s: Cursor.State, acc: seq<Entry>)
    requires Cursor.Valid(input, ORIGIN, s) && Members(acc)
    ensures var r := ParseMembers(input, s, acc); r.Ok? ==> Members(r.value.0)
    decreases Cursor.Remaining(input, s), 2
  {
    ParseValueFacts(input, s);
    var name := ParseValue(input, s);
    if name.Ok? && name.value.0.Str? {
      var (colon, s1) := Cursor.ExpectedChar(input, ORIGIN, name.value.1, COLON).value;
      if colon {
        ParseValueFacts(input, s1);
        var value := ParseValue(input, s1);
        if value.Ok? && name.value.0.s != [] {
          PutMembers(acc, name.value.0, value.value.0);
          var (comma, s2) := Cursor.ExpectedChar(input, ORIGIN, value.value.1, COMMA).value;
          if comma {
            ParseMembersFacts(input, s2, Put(acc, name.value.0, value.value.0));
          }
        }
      }
    }
  }

  /** `set` of a non-empty String name keeps the names distinct and non-empty. */
  lemma PutMembers(acc: seq<Entry>, name: JVal, value: JVal)
    requires Members(acc) && name.Str? && name.s != [] && Document(value)
    ensures Members(Put(acc, name, value))
  {
    PutSemantics(acc, name, value);
    PutEntries(acc, name, value);
  }

  lemma {:induction false} ParseElementsFacts(input: Text, s: Cursor.State, acc: seq<JVal>)
    requires Cursor.Valid(input, ORIGIN, s) && forall x | x in acc :: Document(x)
    ensures var r := ParseElements(input, s, acc); r.Ok? ==> forall x | x in r.value.0 :: Document(x)
    decreases Cursor.Remaining(input, s), 2
  {
    ParseValueFacts(input, s);
    var element := ParseValue(input, s);
    if element.Ok? {
      var (comma, s1) := Cursor.ExpectedChar(input, ORIGIN, element.value.1, COMMA).value;
      if comma {
        ParseElementsFacts(input, s1, acc + [element.value.0]);
      }
    }
  }

  lemma ParseScalarFacts(input: Text, s: Cursor.State)
    requires Cursor.Valid(input, ORIGIN, s)
    ensures var r := ParseScalar(input, s); r.Ok? ==> Document(r.value.0)
  {
  }

  // ---------------------------------------------------------------- stringifyObject

  /** A String as stringifyObject writes it: quoted and escaped. */
  function Quoted(s: Text): Text {
    [QUOTE] + Escaped(s) + [QUOTE]
  }

  /** stringifyObject: compact text, with `,` between elements and members and `:`
      between a name and its value. A JSON object writes its properties in
      insertion order and an Object[] its elements in index order; anything else
      that is no String is written by toString. */
  function Stringify(v: JVal): Text
    decreases v
  {
    match v
    case Null => Ascii("null")
    case Str(s) => Quoted(s)
    case Map(SamplesMap, entries) => [LBRACE] + StringifyEntries(entries) + [RBRACE]
    case Arr(component, items) =>
      if component.Primitive? then ValueOf(v) else [LBRACKET] + StringifyItems(items) + [RBRACKET]
    case _ => ValueOf(v)
  }

  function StringifyItems(items: seq<JVal>): Text
    decreases items
  {
    if items == [] then []
    else if |items| == 1 then Stringify(items[0])
    else Stringify(items[0]) + [COMMA] + StringifyItems(items[1..])
  }

  function StringifyEntry(e: Entry): Text
    decreases e
  {
    Stringify(e.key) + [COLON] + Stringify(e.value)
  }

  function StringifyEntries(entries: seq<Entry>): Text
    decreases entries
  {
    if entries == [] then []
    else if |entries| == 1 then StringifyEntry(entries[0])
    else StringifyEntry(entries[0]) + [COMMA] + StringifyEntries(entries[1..])
  }

  /** `JSON.stringify(object)`: checkObjectType first, so an unsupported type throws
      IllegalArgumentException instead of being written. */
  function StringifyChecked(v: JVal): (r: Result<Text>)
    ensures r.Ok? <==> Storable(v)
    ensures r.Ok? ==> r.value == Stringify(v)
  {
    var checked :- CheckObjectType(v);
    Ok(Stringify(checked))
  }

  // ---------------------------------------------------------------- parse(stringify(v)) == v

  /** The cursor standing on position p of the input. */
  function At(input: Text, p: nat): Cursor.State
    requires p <= |input|
  {
    Cursor.At(input, ORIGIN, p)
  }

  lemma SkipAtToken(input: Text, p: nat)
    requires p <= |input| && (p < |input| ==> !Cursor.IsWhitespace(input[p]))
    ensures Cursor.SkipWhitespaces(input, ORIGIN, At(input, p)) == At(input, p)
  {
    Cursor.NextCharsRun(input, ORIGIN, p, p, Cursor.Whitespaces);
  }

  /** The first code unit stringifyObject writes for a Document opens its value. */
  lemma StringifyStart(v: JVal)
    requires Document(v)
    ensures |Stringify(v)| > 0
    ensures var c := Stringify(v)[0];
      !Cursor.IsWhitespace(c) && c != RBRACKET && c != RBRACE && c != COMMA && c != COLON
    ensures var c := Stringify(v)[0];
      c == LBRACE <==> v.Map?
    ensures var c := Stringify(v)[0];
      c == LBRACKET <==> v.Arr?
  {
    if v.Num? {
      Numbers.DecimalLexemeChars(v.n.lexeme);
    }
  }

  /** A value whose text does not open with a brace or a bracket is read by the
      scalar branches. */
  lemma ParseScalarAt(input: Text, p: nat)
    requires p < |input| && !Cursor.IsWhitespace(input[p]) && input[p] != LBRACE && input[p] != LBRACKET
    ensures ParseValue(input, At(input, p)) == ParseScalar(input, At(input, p))
  {
    SkipAtToken(input, p);
  }

  /** The string loop reads escaped text up to the quote after it. */
  lemma {:induction false} ScanScans(input: Text, b: nat, e: Text, j: nat, acc: Text)
    requires 1 <= b && Miktim.TextAt(input, b, e) && b + |e| < |input| && input[b + |e|] == QUOTE
    requires j <= |e| && ScansFrom(e, j)
    ensures ScanString(input, At(input, b + j - 1), acc) == Ok((acc + e[j..], At(input, b + |e|)))
    decreases |e| - j
  {
    if j == |e| {
      ScanEndStep(input, b, e, acc);
    } else if e[j] == BACKSLASH {
      ScanPairStep(input, b, e, j, acc);
      ScanScans(input, b, e, j + 2, acc + [e[j], e[j + 1]]);
      Miktim.ScannedTail(acc, e, j, 2);
    } else {
      ScanPlainStep(input, b, e, j, acc);
      ScanScans(input, b, e, j + 1, acc + [e[j]]);
      Miktim.ScannedTail(acc, e, j, 1);
    }
  }

  /** The closing quote ends the string loop. */
  lemma ScanEndStep(input: Text, b: nat, e: Text, acc: Text)
    requires 1 <= b && b + |e| < |input| && input[b + |e|] == QUOTE
    ensures ScanString(input, At(input, b + |e| - 1), acc) == Ok((acc + e[|e|..], At(input, b + |e|)))
  {
    assert Cursor.GetChar(input, ORIGIN, At(input, b + |e| - 1)) == Ok(At(input, b + |e|));
    assert Cursor.LastChar(At(input, b + |e|)) == QUOTE;
    assert acc + e[|e|..] == acc;
  }

  /** A backslash and the code unit after it are appended together. */
  lemma ScanPairStep(input: Text, b: nat, e: Text, j: nat, acc: Text)
    requires 1 <= b && Miktim.TextAt(input, b, e) && b + |e| < |input| && input[b + |e|] == QUOTE
    requires j < |e| && e[j] == BACKSLASH && ScansFrom(e, j)
    ensures j + 2 <= |e| && ScansFrom(e, j + 2)
    ensures ScanString(input, At(input, b + j - 1), acc)
         == ScanString(input, At(input, b + j + 1), acc + [e[j], e[j + 1]])
  {
    Miktim.ScanChar(input, b, e, j);
    Miktim.ScanChar(input, b, e, j + 1);
    assert Cursor.GetChar(input, ORIGIN, At(input, b + j - 1)) == Ok(At(input, b + j));
    assert Cursor.GetChar(input, ORIGIN, At(input, b + j)) == Ok(At(input, b + j + 1));
  }

  /** Any other code unit is appended alone. */
  lemma ScanPlainStep(input: Text, b: nat, e: Text, j: nat, acc: Text)
    requires 1 <= b && Miktim.TextAt(input, b, e) && b + |e| < |input| && input[b + |e|] == QUOTE
    requires j < |e| && e[j] != BACKSLASH && ScansFrom(e, j)
    ensures ScansFrom(e, j + 1)
    ensures ScanString(input, At(input, b + j - 1), acc)
         == ScanString(input, At(input, b + j), acc + [e[j]])
  {
    Miktim.ScanChar(input, b, e, j);
    assert Cursor.GetChar(input, ORIGIN, At(input, b + j - 1)) == Ok(At(input, b + j));
  }

  lemma ParseStringText(input: Text, p: nat, text: Text, q: nat)
    requires q == p + |Quoted(text)| && Miktim.TextAt(input, p, Quoted(text)) && Miktim.EndsValue(input, q)
    ensures ParseValue(input, At(input, p)) == Ok((Str(text), At(input, q)))
  {
    assert input[p] == input[p..p + |Quoted(text)|][0] == QUOTE;
    ParseScalarAt(input, p);
    ScalarStringText(input, p, text);
  }

  lemma ScalarStringText(input: Text, p: nat, text: Text)
    requires Miktim.TextAt(input, p, Quoted(text)) && Miktim.EndsValue(input, p + |Quoted(text)|)
    ensures ParseScalar(input, At(input, p)) == Ok((Str(text), At(input, p + |Quoted(text)|)))
  {
    var q := p + |Quoted(text)|;
    ScanQuoted(input, p, text);
    UnescapeEscape(text);
    SkipAtToken(input, q);
  }

  /** The string loop stops at the closing quote of an escaped String. */
  lemma ScanQuoted(input: Text, p: nat, text: Text)
    requires Miktim.TextAt(input, p, Quoted(text)) && Miktim.EndsValue(input, p + |Quoted(text)|)
    ensures p + |Quoted(text)| == p + 2 + |Escaped(text)|
    ensures Cursor.LastChar(At(input, p)) == QUOTE
    ensures ScanString(input, At(input, p), []) == Ok((Escaped(text), At(input, p + 1 + |Escaped(text)|)))
    ensures Cursor.GetChar(input, ORIGIN, At(input, p + 1 + |Escaped(text)|)) == Ok(At(input, p + |Quoted(text)|))
  {
    var e := Escaped(text);
    QuotedText(input, p, text);
    EscapedScans(text);
    ScanScans(input, p + 1, e, 0, []);
    assert [] + e[0..] == e;
  }

  /** Where the quotes and the escaped text of a quoted string sit. */
  lemma QuotedText(input: Text, p: nat, text: Text)
    requires Miktim.TextAt(input, p, Quoted(text))
    ensures |Quoted(text)| == 2 + |Escaped(text)|
    ensures input[p] == QUOTE && Miktim.TextAt(input, p + 1, Escaped(text))
    ensures p + 1 + |Escaped(text)| < |input| && input[p + 1 + |Escaped(text)|] == QUOTE
  {
    var e := Escaped(text);
    var t := Quoted(text);
    var q := p + |t|;
    assert input[p] == input[p..q][0] == t[0];
    forall k | 0 <= k < |e| ensures input[p + 1 + k] == e[k] {
      assert input[p + 1 + k] == input[p..q][1 + k] == t[1 + k];
    }
    assert input[p + 1 + |e|] == input[p..q][1 + |e|] == t[1 + |e|];
  }

  /** A literal or a number followed by a value end is read whole. */
  lemma ParseRunText(input: Text, p: nat, t: Text, q: nat, table: Cursor.CharTable)
    requires q == p + |t| && Miktim.TextAt(input, p, t) && Miktim.EndsValue(input, q)
    requires forall k | 0 <= k < |t| :: Cursor.In(table, t[k])
    requires table != Cursor.Whitespaces
    ensures Cursor.NextChars(input, ORIGIN, At(input, p), table) == (t, At(input, q))
    ensures Cursor.SkipWhitespaces(input, ORIGIN, At(input, q)) == At(input, q)
  {
    assert forall k | p <= k < q :: input[k] == t[k - p];
    Cursor.NextCharsRun(input, ORIGIN, p, q, table);
    SkipAtToken(input, q);
  }

  lemma ParseLiteralText(input: Text, p: nat, v: JVal, q: nat)
    requires v.Null? || v.Bool?
    requires q == p + |Stringify(v)| && Miktim.TextAt(input, p, Stringify(v)) && Miktim.EndsValue(input, q)
    ensures ParseValue(input, At(input, p)) == Ok((v, At(input, q)))
  {
    LiteralRunText(input, p, v, q);
    ParseScalarAt(input, p);
    ScalarLiteralText(input, p, v, q);
  }

  lemma ScalarLiteralText(input: Text, p: nat, v: JVal, q: nat)
    requires v.Null? || v.Bool?
    requires q == p + |Stringify(v)| && Miktim.TextAt(input, p, Stringify(v)) && Miktim.EndsValue(input, q)
    ensures ParseScalar(input, At(input, p)) == Ok((v, At(input, q)))
  {
    LiteralRunText(input, p, v, q);
  }

  lemma ParseNumberText(input: Text, p: nat, v: JVal, q: nat)
    requires v.Num? && Document(v)
    requires q == p + |Stringify(v)| && Miktim.TextAt(input, p, Stringify(v)) && Miktim.EndsValue(input, q)
    ensures ParseValue(input, At(input, p)) == Ok((v, At(input, q)))
  {
    assert Stringify(v) == v.n.lexeme;
    NumberRunText(input, p, v.n.lexeme, q);
    ParseScalarAt(input, p);
    ScalarNumberText(input, p, v, q);
  }

  lemma ScalarNumberText(input: Text, p: nat, v: JVal, q: nat)
    requires v.Num? && Document(v)
    requires q == p + |Stringify(v)| && Miktim.TextAt(input, p, Stringify(v)) && Miktim.EndsValue(input, q)
    ensures ParseScalar(input, At(input, p)) == Ok((v, At(input, q)))
  {
    assert Stringify(v) == v.n.lexeme;
    NumberRunText(input, p, v.n.lexeme, q);
  }

  /** The text of a literal is one run of literal characters. */
  lemma LiteralRunText(input: Text, p: nat, v: JVal, q: nat)
    requires v.Null? || v.Bool?
    requires q == p + |Stringify(v)| && Miktim.TextAt(input, p, Stringify(v)) && Miktim.EndsValue(input, q)
    ensures p < |input| && Cursor.LastChar(At(input, p)) == input[p]
    ensures Cursor.IsLiteralChar(input[p])
    ensures Cursor.NextChars(input, ORIGIN, At(input, p), Cursor.Literals) == (Stringify(v), At(input, q))
    ensures Cursor.SkipWhitespaces(input, ORIGIN, At(input, q)) == At(input, q)
  {
    var t := Stringify(v);
    LiteralChars(v);
    Miktim.FirstCodeUnit(input, p, t);
    ParseRunText(input, p, t, q, Cursor.Literals);
  }

  /** The text of a number is one run of number characters. */
  lemma NumberRunText(input: Text, p: nat, t: Text, q: nat)
    requires Numbers.IsDecimalLexeme(t)
    requires q == p + |t| && Miktim.TextAt(input, p, t) && Miktim.EndsValue(input, q)
    ensures p < |input| && Cursor.LastChar(At(input, p)) == input[p]
    ensures Numbers.IsNumberChar(input[p]) && !Cursor.IsLiteralChar(input[p]) && input[p] != QUOTE
    ensures Cursor.NextChars(input, ORIGIN, At(input, p), Cursor.NumberChars) == (t, At(input, q))
    ensures Cursor.SkipWhitespaces(input, ORIGIN, At(input, q)) == At(input, q)
  {
    Miktim.NumberTextChars(input, p, t);
    ParseRunText(input, p, t, q, Cursor.NumberChars);
  }

  lemma LiteralChars(v: JVal)
    requires v.Null? || v.Bool?
    ensures |Stringify(v)| > 0
    ensures forall k | 0 <= k < |Stringify(v)| :: Cursor.IsLiteralChar(Stringify(v)[k])
  {
    var t := Stringify(v);
    if v.Null? {
      assert t == [0x6E, 0x75, 0x6C, 0x6C];
    } else if v.b {
      assert t == [0x74, 0x72, 0x75, 0x65];
    } else {
      assert t == [0x66, 0x61, 0x6C, 0x73, 0x65];
    }
  }

  /** stringifyObject's text of a Document reads back as that Document, wherever it
      sits in the input. */
  lemma {:induction false} ParseStringified(input: Text, p: nat, v: JVal, q: nat)
    requires ValueAt(input, p, v, q)
    ensures ParseValue(input, At(input, p)) == Ok((v, At(input, q)))
    decreases v, 3
  {
    if v.Arr? || v.Map? {
      ParseCompoundStringified(input, p, v, q);
    } else {
      ParseScalarStringified(input, p, v, q);
    }
  }

  lemma ParseScalarStringified(input: Text, p: nat, v: JVal, q: nat)
    requires ValueAt(input, p, v, q) && !v.Arr? && !v.Map?
    ensures ParseValue(input, At(input, p)) == Ok((v, At(input, q)))
  {
    match v
    case Null => ParseLiteralText(input, p, v, q);
    case Bool(_) => ParseLiteralText(input, p, v, q);
    case Num(_) => ParseNumberText(input, p, v, q);
    case Str(text) =>
      assert Stringify(v) == Quoted(text);
      ParseStringText(input, p, text, q);
  }

  lemma {:induction false} ParseCompoundStringified(input: Text, p: nat, v: JVal, q: nat)
    requires ValueAt(input, p, v, q) && (v.Arr? || v.Map?)
    ensures ParseValue(input, At(input, p)) == Ok((v, At(input, q)))
    decreases v, 2
  {
    if v.Arr? {
      if v.items == [] { ParseEmptyArrayText(input, p, v, q); } else { ParseArrayText(input, p, v, q); }
    } else {
      if v.entries == [] { ParseEmptyObjectText(input, p, v, q); } else { ParseObjectText(input, p, v, q); }
    }
  }

  /** expectedChar(c) consumes c where it stands. */
  lemma ExpectedAt(input: Text, p: nat, c: CodeUnit)
    requires p < |input| && input[p] == c && c != CHAR_OF_EOF && !Cursor.IsWhitespace(c)
    ensures Cursor.ExpectedChar(input, ORIGIN, At(input, p), c) == Ok((true, At(input, p + 1)))
  {
    SkipAtToken(input, p);
  }

  /** expectedChar(c) leaves a non-whitespace character other than c in place. */
  lemma NotExpectedAt(input: Text, p: nat, c: CodeUnit)
    requires p < |input| && input[p] != c && c != CHAR_OF_EOF && !Cursor.IsWhitespace(input[p])
    ensures Cursor.ExpectedChar(input, ORIGIN, At(input, p), c) == Ok((false, At(input, p)))
  {
    SkipAtToken(input, p);
  }

  /** parseObject reads `[]`, in terms of the cursor states in between. */
  lemma EmptyArrayStep(input: Text, s: Cursor.State, s1: Cursor.State, s2: Cursor.State)
    requires Cursor.Valid(input, ORIGIN, s) && Cursor.Valid(input, ORIGIN, s1) && Cursor.Valid(input, ORIGIN, s2)
    requires Cursor.ExpectedChar(input, ORIGIN, s, LBRACE) == Ok((false, s))
    requires Cursor.ExpectedChar(input, ORIGIN, s, LBRACKET) == Ok((true, s1))
    requires Cursor.ExpectedChar(input, ORIGIN, s1, RBRACKET) == Ok((true, s2))
    requires Cursor.SkipWhitespaces(input, ORIGIN, s2) == s2
    ensures ParseValue(input, s) == Ok((Arr(OBJECT, []), s2))
  {
  }

  /** parseObject reads `[`, the elements and `]`, in terms of the cursor states in
      between. */
  lemma ArrayStep(input: Text, s: Cursor.State, s1: Cursor.State, items: seq<JVal>, s2: Cursor.State,
                  s3: Cursor.State)
    requires Cursor.Valid(input, ORIGIN, s) && Cursor.Valid(input, ORIGIN, s1)
    requires Cursor.Valid(input, ORIGIN, s2) && Cursor.Valid(input, ORIGIN, s3)
    requires Cursor.ExpectedChar(input, ORIGIN, s, LBRACE) == Ok((false, s))
    requires Cursor.ExpectedChar(input, ORIGIN, s, LBRACKET) == Ok((true, s1))
    requires Cursor.ExpectedChar(input, ORIGIN, s1, RBRACKET) == Ok((false, s1))
    requires ParseElements(input, s1, []) == Ok((items, s2))
    requires Cursor.ExpectedChar(input, ORIGIN, s2, RBRACKET) == Ok((true, s3))
    requires Cursor.SkipWhitespaces(input, ORIGIN, s3) == s3
    ensures ParseValue(input, s) == Ok((Arr(OBJECT, items), s3))
  {
  }

  /** parseObject reads `{}`, in terms of the cursor states in between. */
  lemma EmptyObjectStep(input: Text, s: Cursor.State, s1: Cursor.State, s2: Cursor.State)
    requires Cursor.Valid(input, ORIGIN, s) && Cursor.Valid(input, ORIGIN, s1) && Cursor.Valid(input, ORIGIN, s2)
    requires Cursor.ExpectedChar(input, ORIGIN, s, LBRACE) == Ok((true, s1))
    requires Cursor.ExpectedChar(input, ORIGIN, s1, RBRACE) == Ok((true, s2))
    requires Cursor.SkipWhitespaces(input, ORIGIN, s2) == s2
    ensures ParseValue(input, s) == Ok((Map(SamplesMap, []), s2))
  {
  }

  /** parseObject reads `{`, the members and `}`, in terms of the cursor states in
      between. */
  lemma ObjectStep(input: Text, s: Cursor.State, s1: Cursor.State, entries: seq<Entry>, s2: Cursor.State,
                   s3: Cursor.State)
    requires Cursor.Valid(input, ORIGIN, s) && Cursor.Valid(input, ORIGIN, s1)
    requires Cursor.Valid(input, ORIGIN, s2) && Cursor.Valid(input, ORIGIN, s3)
    requires Cursor.ExpectedChar(input, ORIGIN, s, LBRACE) == Ok((true, s1))
    requires Cursor.ExpectedChar(input, ORIGIN, s1, RBRACE) == Ok((false, s1))
    requires ParseMembers(input, s1, []) == Ok((entries, s2))
    requires Cursor.ExpectedChar(input, ORIGIN, s2, RBRACE) == Ok((true, s3))
    requires Cursor.SkipWhitespaces(input, ORIGIN, s3) == s3
    ensures ParseValue(input, s) == Ok((Map(SamplesMap, entries), s3))
  {
  }

  /** The text of the Document v sits in the input from p to q, followed by what may
      end a value. */
  predicate ValueAt(input: Text, p: nat, v: JVal, q: nat) {
    && Document(v) && q == p + |Stringify(v)| && Miktim.TextAt(input, p, Stringify(v)) && Miktim.EndsValue(input, q)
  }

  /** The text of the elements sits in the input from p to the closing bracket at end. */
  predicate ItemsAt(input: Text, p: nat, items: seq<JVal>, end: nat) {
    && items != [] && (forall x | x in items :: Document(x))
    && end == p + |StringifyItems(items)| && Miktim.TextAt(input, p, StringifyItems(items))
    && end < |input| && input[end] == RBRACKET
  }

  /** The text of the members sits in the input from p to the closing brace at end. */
  predicate EntriesAt(input: Text, p: nat, entries: seq<Entry>, end: nat) {
    && entries != [] && (forall e | e in entries :: e.key.Str? && e.key.s != [] && Document(e.value))
    && end == p + |StringifyEntries(entries)| && Miktim.TextAt(input, p, StringifyEntries(entries))
    && end < |input| && input[end] == RBRACE
  }

  /** `,` at e, then the first code unit of a value. */
  predicate SeparatorAt(input: Text, e: nat) {
    e + 1 < |input| && input[e] == COMMA && !Cursor.IsWhitespace(input[e + 1])
  }

  /** A name ends at c, then `:` and a value from c + 1 to q. */
  predicate MemberLayout(input: Text, p: nat, c: nat, q: nat) {
    p <= c && c + 1 < |input| && c + 1 <= q && input[c] == COLON && !Cursor.IsWhitespace(input[c + 1])
  }

  /** The text of one member sits in the input from p to q, its name ending at c. */
  predicate EntryAt(input: Text, p: nat, first: Entry, c: nat, q: nat) {
    && first.key.Str? && first.key.s != [] && ValueAt(input, p, first.key, c) && ValueAt(input, c + 1, first.value, q)
    && MemberLayout(input, p, c, q)
  }

  /** `[` at p, elements from p + 1 up to the `]` at end, and the value ends at q. */
  predicate ArrayLayout(input: Text, p: nat, end: nat, q: nat) {
    && p + 1 < end && q == end + 1 && q <= |input| && input[p] == LBRACKET && input[end] == RBRACKET
    && Miktim.EndsValue(input, q) && !Cursor.IsWhitespace(input[p + 1]) && input[p + 1] != RBRACKET
  }

  /** `{` at p, members from p + 1 up to the `}` at end, and the value ends at q. */
  predicate ObjectLayout(input: Text, p: nat, end: nat, q: nat) {
    && p + 1 < end && q == end + 1 && q <= |input| && input[p] == LBRACE && input[end] == RBRACE
    && Miktim.EndsValue(input, q) && input[p + 1] == QUOTE
  }

  /** `[]` from p to q. */
  lemma EmptyArrayAt(input: Text, p: nat, q: nat)
    requires q == p + 2 && q <= |input| && input[p] == LBRACKET && input[p + 1] == RBRACKET
    requires Miktim.EndsValue(input, q)
    ensures ParseValue(input, At(input, p)) == Ok((Arr(OBJECT, []), At(input, q)))
  {
    NotExpectedAt(input, p, LBRACE);
    ExpectedAt(input, p, LBRACKET);
    CloseAt(input, p + 1, q, RBRACKET);
    EmptyArrayStep(input, At(input, p), At(input, p + 1), At(input, q));
  }

  /** An array from p to q whose elements end at the closing bracket at end. */
  lemma ArrayAt(input: Text, p: nat, v: JVal, end: nat, q: nat)
    requires ArrayLayout(input, p, end, q) && v.Arr? && v == Arr(OBJECT, v.items)
    ensures ParseElements(input, At(input, p + 1), []) == Ok((v.items, At(input, end)))
            ==> ParseValue(input, At(input, p)) == Ok((v, At(input, q)))
  {
    ArrayOpenAt(input, p);
    CloseAt(input, end, q, RBRACKET);
    if ParseElements(input, At(input, p + 1), []) == Ok((v.items, At(input, end))) {
      ArrayStep(input, At(input, p), At(input, p + 1), v.items, At(input, end), At(input, q));
    }
  }

  /** parseObject at a `[` that does not open `[]`. */
  lemma ArrayOpenAt(input: Text, p: nat)
    requires p + 1 < |input| && input[p] == LBRACKET
    requires !Cursor.IsWhitespace(input[p + 1]) && input[p + 1] != RBRACKET
    ensures Cursor.ExpectedChar(input, ORIGIN, At(input, p), LBRACE) == Ok((false, At(input, p)))
    ensures Cursor.ExpectedChar(input, ORIGIN, At(input, p), LBRACKET) == Ok((true, At(input, p + 1)))
    ensures Cursor.ExpectedChar(input, ORIGIN, At(input, p + 1), RBRACKET) == Ok((false, At(input, p + 1)))
  {
    NotExpectedAt(input, p, LBRACE);
    ExpectedAt(input, p, LBRACKET);
    NotExpectedAt(input, p + 1, RBRACKET);
  }

  /** parseObject at a `{` that does not open `{}`. */
  lemma ObjectOpenAt(input: Text, p: nat)
    requires p + 1 < |input| && input[p] == LBRACE && input[p + 1] == QUOTE
    ensures Cursor.ExpectedChar(input, ORIGIN, At(input, p), LBRACE) == Ok((true, At(input, p + 1)))
    ensures Cursor.ExpectedChar(input, ORIGIN, At(input, p + 1), RBRACE) == Ok((false, At(input, p + 1)))
  {
    ExpectedAt(input, p, LBRACE);
    NotExpectedAt(input, p + 1, RBRACE);
  }

  /** The closing bracket or brace at end, and the value ends at q. */
  lemma CloseAt(input: Text, end: nat, q: nat, c: CodeUnit)
    requires q == end + 1 && q <= |input| && input[end] == c && (c == RBRACKET || c == RBRACE)
    requires Miktim.EndsValue(input, q)
    ensures Cursor.ExpectedChar(input, ORIGIN, At(input, end), c) == Ok((true, At(input, q)))
    ensures Cursor.SkipWhitespaces(input, ORIGIN, At(input, q)) == At(input, q)
  {
    ExpectedAt(input, end, c);
    SkipAtToken(input, q);
  }

  /** `{}` from p to q. */
  lemma EmptyObjectAt(input: Text, p: nat, q: nat)
    requires q == p + 2 && q <= |input| && input[p] == LBRACE && input[p + 1] == RBRACE
    requires Miktim.EndsValue(input, q)
    ensures ParseValue(input, At(input, p)) == Ok((Map(SamplesMap, []), At(input, q)))
  {
    ExpectedAt(input, p, LBRACE);
    CloseAt(input, p + 1, q, RBRACE);
    EmptyObjectStep(input, At(input, p), At(input, p + 1), At(input, q));
  }

  /** An object from p to q whose members end at the closing brace at end. */
  lemma ObjectAt(input: Text, p: nat, v: JVal, end: nat, q: nat)
    requires ObjectLayout(input, p, end, q) && v.Map? && v == Map(SamplesMap, v.entries)
    ensures ParseMembers(input, At(input, p + 1), []) == Ok((v.entries, At(input, end)))
            ==> ParseValue(input, At(input, p)) == Ok((v, At(input, q)))
  {
    ObjectOpenAt(input, p);
    CloseAt(input, end, q, RBRACE);
    if ParseMembers(input, At(input, p + 1), []) == Ok((v.entries, At(input, end))) {
      ObjectStep(input, At(input, p), At(input, p + 1), v.entries, At(input, end), At(input, q));
    }
  }

  /** The first code unit of a list of elements opens the first element. */
  lemma ItemsStart(items: seq<JVal>)
    requires items != [] && Document(items[0])
    ensures |StringifyItems(items)| > 0
    ensures var c := StringifyItems(items)[0];
      !Cursor.IsWhitespace(c) && c != RBRACKET && c != RBRACE
  {
    StringifyStart(items[0]);
    if |items| > 1 {
      assert StringifyItems(items) == Stringify(items[0]) + [COMMA] + StringifyItems(items[1..]);
    }
  }

  /** Members are written name first, and a name is a quoted String. */
  lemma EntriesStart(entries: seq<Entry>)
    requires entries != [] && entries[0].key.Str?
    ensures |StringifyEntries(entries)| > 0 && StringifyEntries(entries)[0] == QUOTE
  {
    var t0 := StringifyEntry(entries[0]);
    assert Stringify(entries[0].key) == Quoted(entries[0].key.s);
    assert t0 == Quoted(entries[0].key.s) + [COLON] + Stringify(entries[0].value);
    assert t0[0] == QUOTE;
    if |entries| > 1 {
      assert StringifyEntries(entries) == t0 + [COMMA] + StringifyEntries(entries[1..]);
    }
  }

  /** Where the parts of `[]` sit. */
  lemma EmptyArrayText(input: Text, p: nat, v: JVal, q: nat)
    requires ValueAt(input, p, v, q) && v.Arr? && v.items == []
    ensures v == Arr(OBJECT, []) && q == p + 2 && input[p] == LBRACKET && input[p + 1] == RBRACKET
  {
    assert Stringify(v) == [LBRACKET, RBRACKET];
    assert input[p] == input[p..q][0];
    assert input[p + 1] == input[p..q][1];
  }

  /** Where the parts of `{}` sit. */
  lemma EmptyObjectText(input: Text, p: nat, v: JVal, q: nat)
    requires ValueAt(input, p, v, q) && v.Map? && v.entries == []
    ensures v == Map(SamplesMap, []) && q == p + 2 && input[p] == LBRACE && input[p + 1] == RBRACE
  {
    assert Stringify(v) == [LBRACE, RBRACE];
    assert input[p] == input[p..q][0];
    assert input[p + 1] == input[p..q][1];
  }

  /** Where the brackets and the elements of an array's text sit. */
  lemma ArrayTextSplit(input: Text, p: nat, v: JVal, q: nat) returns (end: nat)
    requires ValueAt(input, p, v, q) && v.Arr? && v.items != []
    ensures v == Arr(OBJECT, v.items) && ArrayLayout(input, p, end, q)
    ensures ItemsAt(input, p + 1, v.items, end)
  {
    var body := StringifyItems(v.items);
    end := q - 1;
    Miktim.Split3(input, p, [LBRACKET], body, [RBRACKET], p + 1, end);
    ItemsStart(v.items);
  }

  /** Where the braces and the members of an object's text sit. */
  lemma ObjectTextSplit(input: Text, p: nat, v: JVal, q: nat) returns (end: nat)
    requires ValueAt(input, p, v, q) && v.Map? && v.entries != []
    ensures v == Map(SamplesMap, v.entries) && UniqueKeys([] + v.entries) && ObjectLayout(input, p, end, q)
    ensures EntriesAt(input, p + 1, v.entries, end)
  {
    var body := StringifyEntries(v.entries);
    end := q - 1;
    Miktim.Split3(input, p, [LBRACE], body, [RBRACE], p + 1, end);
    assert v.entries[0] in v.entries;
    EntriesStart(v.entries);
    assert [] + v.entries == v.entries;
  }

  /** Where the text of the last element sits. */
  lemma LastItemText(input: Text, p: nat, items: seq<JVal>, end: nat)
    requires ItemsAt(input, p, items, end) && |items| == 1
    ensures ValueAt(input, p, items[0], end)
  {
  }

  /** Where the first element, the separator after it and the other elements sit. */
  lemma ItemsTextSplit(input: Text, p: nat, items: seq<JVal>, end: nat) returns (e: nat, f: nat)
    requires ItemsAt(input, p, items, end) && |items| > 1
    ensures p <= e && ValueAt(input, p, items[0], e) && SeparatorAt(input, e)
    ensures f == e + 1 && ItemsAt(input, f, items[1..], end)
  {
    e := FirstItemText(input, p, items, end);
    var e2;
    e2, f := OtherItemsText(input, p, items, end);
  }

  /** The elements' text is the first element's, `,` and the others'. */
  lemma ItemsCons(items: seq<JVal>)
    requires |items| > 1 && forall x | x in items :: Document(x)
    ensures StringifyItems(items) == Stringify(items[0]) + [COMMA] + StringifyItems(items[1..])
    ensures Document(items[0]) && forall x | x in items[1..] :: Document(x)
    ensures |StringifyItems(items[1..])| > 0 && !Cursor.IsWhitespace(StringifyItems(items[1..])[0])
  {
    assert items[1..][0] in items;
    ItemsStart(items[1..]);
  }

  lemma FirstItemText(input: Text, p: nat, items: seq<JVal>, end: nat) returns (e: nat)
    requires ItemsAt(input, p, items, end) && |items| > 1
    ensures e == p + |Stringify(items[0])|
    ensures p <= e && ValueAt(input, p, items[0], e) && SeparatorAt(input, e)
  {
    e := p + |Stringify(items[0])|;
    ItemsCons(items);
    SeparatedAt(input, p, Stringify(items[0]), StringifyItems(items[1..]), e, e + 1);
  }

  lemma OtherItemsText(input: Text, p: nat, items: seq<JVal>, end: nat) returns (e: nat, f: nat)
    requires ItemsAt(input, p, items, end) && |items| > 1
    ensures e == p + |Stringify(items[0])| && f == e + 1
    ensures ItemsAt(input, f, items[1..], end)
  {
    e := p + |Stringify(items[0])|;
    f := e + 1;
    ItemsCons(items);
    SeparatedAt(input, p, Stringify(items[0]), StringifyItems(items[1..]), e, f);
  }

  /** Where the text of the last member sits. */
  lemma LastEntryText(input: Text, p: nat, entries: seq<Entry>, end: nat) returns (c: nat)
    requires EntriesAt(input, p, entries, end) && |entries| == 1
    ensures EntryAt(input, p, entries[0], c, end)
  {
    assert entries[0] in entries;
    c := EntryTextSplit(input, p, entries[0], end);
  }

  /** The members' text is the first member's, `,` and the others'. */
  lemma EntriesCons(entries: seq<Entry>)
    requires |entries| > 1 && forall e | e in entries :: e.key.Str? && e.key.s != [] && Document(e.value)
    ensures StringifyEntries(entries) == StringifyEntry(entries[0]) + [COMMA] + StringifyEntries(entries[1..])
    ensures entries[0].key.Str? && entries[0].key.s != [] && Document(entries[0].value)
    ensures forall e | e in entries[1..] :: e.key.Str? && e.key.s != [] && Document(e.value)
    ensures |StringifyEntries(entries[1..])| > 0 && StringifyEntries(entries[1..])[0] == QUOTE
  {
    assert entries[0] in entries;
    assert entries[1..][0] in entries;
    EntriesStart(entries[1..]);
  }

  /** Where the first of several members and the separator after it sit. */
  lemma FirstEntryText(input: Text, p: nat, entries: seq<Entry>, e: nat, end: nat) returns (c: nat)
    requires EntriesAt(input, p, entries, end) && |entries| > 1 && e == p + |StringifyEntry(entries[0])|
    ensures EntryAt(input, p, entries[0], c, e) && SeparatorAt(input, e)
  {
    EntriesCons(entries);
    SeparatedAt(input, p, StringifyEntry(entries[0]), StringifyEntries(entries[1..]), e, e + 1);
    c := EntryTextSplit(input, p, entries[0], e);
  }

  /** Where the members after the first sit. */
  lemma OtherEntriesText(input: Text, p: nat, entries: seq<Entry>, end: nat) returns (e: nat, f: nat)
    requires EntriesAt(input, p, entries, end) && |entries| > 1
    ensures e == p + |StringifyEntry(entries[0])| && f == e + 1
    ensures EntriesAt(input, f, entries[1..], end)
  {
    e := p + |StringifyEntry(entries[0])|;
    f := e + 1;
    EntriesCons(entries);
    SeparatedAt(input, p, StringifyEntry(entries[0]), StringifyEntries(entries[1..]), e, f);
  }

  /** Where two texts joined by `,` sit. */
  lemma SeparatedAt(input: Text, p: nat, t0: Text, rest: Text, e: nat, f: nat)
    requires e == p + |t0| && f == e + 1 && Miktim.TextAt(input, p, t0 + [COMMA] + rest) && |rest| > 0
    ensures && Miktim.TextAt(input, p, t0)
      && f < |input| && input[e] == COMMA && input[f] == rest[0]
      && Miktim.TextAt(input, f, rest)
      && f + |rest| == p + |t0 + [COMMA] + rest|
  {
    Miktim.Split3(input, p, t0, [COMMA], rest, e, f);
  }

  /** Where the name, the colon and the value of one member sit. */
  lemma EntryTextSplit(input: Text, p: nat, first: Entry, q: nat) returns (c: nat)
    requires first.key.Str? && first.key.s != [] && Document(first.value)
    requires q == p + |StringifyEntry(first)| && Miktim.TextAt(input, p, StringifyEntry(first))
    requires q <= |input| && Miktim.EndsValue(input, q)
    ensures EntryAt(input, p, first, c, q)
  {
    var key, value := EntryTextParts(first);
    c := p + |key|;
    ColonSplit(input, p, key, value, c, q);
  }

  /** Where the two texts joined by `:` sit. */
  lemma ColonSplit(input: Text, p: nat, key: Text, value: Text, c: nat, q: nat)
    requires Miktim.TextAt(input, p, key + [COLON] + value) && c == p + |key| && q == p + |key + [COLON] + value|
    requires |value| > 0
    ensures Miktim.TextAt(input, p, key) && Miktim.TextAt(input, c + 1, value)
    ensures c + 1 < |input| && input[c] == COLON && input[c + 1] == value[0] && q == c + 1 + |value|
  {
    Miktim.Split3(input, p, key, [COLON], value, c, c + 1);
    assert input[c] == COLON;
  }

  /** A member's text: its quoted name, `:` and its value's text. */
  lemma EntryTextParts(first: Entry) returns (key: Text, value: Text)
    requires first.key.Str? && Document(first.value)
    ensures StringifyEntry(first) == key + [COLON] + value
    ensures key == Stringify(first.key) && value == Stringify(first.value)
    ensures |key| > 0 && |value| > 0 && !Cursor.IsWhitespace(value[0])
  {
    key := Quoted(first.key.s);
    value := Stringify(first.value);
    StringifyStart(first.value);
  }

  /** One element, then the closing bracket or a comma. */
  lemma ElementStep(input: Text, s: Cursor.State, x: JVal, s1: Cursor.State, comma: bool, s2: Cursor.State,
                    acc: seq<JVal>)
    requires Cursor.Valid(input, ORIGIN, s) && Cursor.Valid(input, ORIGIN, s1)
    requires ParseValue(input, s) == Ok((x, s1))
    requires Cursor.ExpectedChar(input, ORIGIN, s1, COMMA) == Ok((comma, s2))
    ensures comma ==> ParseElements(input, s, acc) == ParseElements(input, s2, acc + [x])
    ensures !comma ==> ParseElements(input, s, acc) == Ok((acc + [x], s2))
  {
  }

  /** One member: a non-empty name, the colon, the value, then the closing brace or
      a comma. */
  lemma MemberStep(input: Text, s: Cursor.State, name: JVal, s1: Cursor.State, s2: Cursor.State,
                   x: JVal, s3: Cursor.State, comma: bool, s4: Cursor.State, acc: seq<Entry>)
    requires Cursor.Valid(input, ORIGIN, s) && Cursor.Valid(input, ORIGIN, s1)
    requires Cursor.Valid(input, ORIGIN, s2) && Cursor.Valid(input, ORIGIN, s3)
    requires name.Str? && name.s != []
    requires ParseValue(input, s) == Ok((name, s1))
    requires Cursor.ExpectedChar(input, ORIGIN, s1, COLON) == Ok((true, s2))
    requires ParseValue(input, s2) == Ok((x, s3))
    requires Cursor.ExpectedChar(input, ORIGIN, s3, COMMA) == Ok((comma, s4))
    ensures comma ==> ParseMembers(input, s, acc) == ParseMembers(input, s4, Put(acc, name, x))
    ensures !comma ==> ParseMembers(input, s, acc) == Ok((Put(acc, name, x), s4))
  {
  }

  /** The last element, read up to the closing bracket at e. */
  lemma LastElementAt(input: Text, p: nat, x: JVal, e: nat, acc: seq<JVal>)
    requires p <= e < |input| && input[e] == RBRACKET
    ensures ParseValue(input, At(input, p)) == Ok((x, At(input, e))) ==>
      ParseElements(input, At(input, p), acc) == Ok((acc + [x], At(input, e)))
  {
    NotExpectedAt(input, e, COMMA);
    if ParseValue(input, At(input, p)) == Ok((x, At(input, e))) {
      ElementStep(input, At(input, p), x, At(input, e), false, At(input, e), acc);
    }
  }

  /** An element read up to e, followed by `,` and the next element at f. */
  lemma ElementAt(input: Text, p: nat, x: JVal, e: nat, f: nat, acc: seq<JVal>)
    requires p <= e && SeparatorAt(input, e) && f == e + 1
    ensures ParseValue(input, At(input, p)) == Ok((x, At(input, e))) ==>
      ParseElements(input, At(input, p), acc) == ParseElements(input, At(input, f), acc + [x])
  {
    ExpectedAt(input, e, COMMA);
    if ParseValue(input, At(input, p)) == Ok((x, At(input, e))) {
      ElementStep(input, At(input, p), x, At(input, e), true, At(input, f), acc);
    }
  }

  /** The last member: a name read up to c, `:`, and a value read up to the closing
      brace at e. */
  lemma LastMemberAt(input: Text, p: nat, name: JVal, c: nat, x: JVal, e: nat, acc: seq<Entry>)
    requires MemberLayout(input, p, c, e) && name.Str? && name.s != []
    requires e < |input| && input[e] == RBRACE
    requires ParseValue(input, At(input, p)) == Ok((name, At(input, c)))
    requires ParseValue(input, At(input, c + 1)) == Ok((x, At(input, e)))
    ensures ParseMembers(input, At(input, p), acc) == Ok((Put(acc, name, x), At(input, e)))
  {
    ExpectedAt(input, c, COLON);
    NotExpectedAt(input, e, COMMA);
    MemberStep(input, At(input, p), name, At(input, c), At(input, c + 1), x, At(input, e),
               false, At(input, e), acc);
  }

  /** A member: a name read up to c, `:`, and a value read up to e, followed by `,`
      and the next member at f. */
  lemma MemberAt(input: Text, p: nat, name: JVal, c: nat, x: JVal, e: nat, f: nat, acc: seq<Entry>)
    requires MemberLayout(input, p, c, e) && name.Str? && name.s != []
    requires SeparatorAt(input, e) && f == e + 1
    requires ParseValue(input, At(input, p)) == Ok((name, At(input, c)))
    requires ParseValue(input, At(input, c + 1)) == Ok((x, At(input, e)))
    ensures ParseMembers(input, At(input, p), acc) == ParseMembers(input, At(input, f), Put(acc, name, x))
  {
    MemberJoints(input, c, e, f);
    MemberStep(input, At(input, p), name, At(input, c), At(input, c + 1), x, At(input, e),
               true, At(input, f), acc);
  }

  /** The colon after a name and the comma after a value. */
  lemma MemberJoints(input: Text, c: nat, e: nat, f: nat)
    requires c + 1 < |input| && input[c] == COLON && SeparatorAt(input, e) && f == e + 1
    ensures Cursor.ExpectedChar(input, ORIGIN, At(input, c), COLON) == Ok((true, At(input, c + 1)))
    ensures Cursor.ExpectedChar(input, ORIGIN, At(input, e), COMMA) == Ok((true, At(input, f)))
  {
    ExpectedAt(input, c, COLON);
    ExpectedAt(input, e, COMMA);
  }

  /** The first element followed by `,` and the elements after it. */
  lemma {:induction false} MoreElementsAt(input: Text, p: nat, items: seq<JVal>, e: nat, f: nat, end: nat, acc: seq<JVal>)
    requires |items| > 1 && ValueAt(input, p, items[0], e) && SeparatorAt(input, e) && f == e + 1 && end <= |input|
    requires ParseElements(input, At(input, f), acc + [items[0]])
          == Ok((acc + [items[0]] + items[1..], At(input, end)))
    ensures ParseElements(input, At(input, p), acc) == Ok((acc + items, At(input, end)))
    decreases items, 0
  {
    ParseStringified(input, p, items[0], e);
    ElementAt(input, p, items[0], e, f, acc);
    Miktim.AppendFirst(acc, items);
  }

  /** Several members read back: the first one, then the rest after `,`. */
  lemma {:induction false} FirstMemberRead(input: Text, p: nat, entries: seq<Entry>, e: nat, f: nat, end: nat, acc: seq<Entry>)
    requires EntriesAt(input, p, entries, end) && |entries| > 1 && e == p + |StringifyEntry(entries[0])| && f == e + 1
    requires Put(acc, entries[0].key, entries[0].value) == acc + [entries[0]]
    requires EntriesAt(input, f, entries[1..], end) && UniqueKeys(acc + [entries[0]] + entries[1..])
    ensures ParseMembers(input, At(input, p), acc) == Ok((acc + [entries[0]] + entries[1..], At(input, end)))
    decreases entries, 1
  {
    FirstMemberThen(input, p, entries, e, f, end, acc);
    ParseEntriesText(input, f, entries[1..], end, acc + [entries[0]]);
  }

  /** The first of several members reads up to the separator after it. */
  lemma FirstMemberThen(input: Text, p: nat, entries: seq<Entry>, e: nat, f: nat, end: nat, acc: seq<Entry>)
    requires EntriesAt(input, p, entries, end) && |entries| > 1 && e == p + |StringifyEntry(entries[0])|
    requires Put(acc, entries[0].key, entries[0].value) == acc + [entries[0]]
    requires f == e + 1 && f <= |input|
    ensures ParseMembers(input, At(input, p), acc) == ParseMembers(input, At(input, f), acc + [entries[0]])
    decreases entries, 0
  {
    var c := FirstEntryText(input, p, entries, e, end);
    MemberThen(input, p, entries[0], c, e, f, acc);
  }

  /** The first member, read up to e, followed by `,` and the members after it. */
  lemma {:induction false} MemberThen(input: Text, p: nat, first: Entry, c: nat, e: nat, f: nat, acc: seq<Entry>)
    requires EntryAt(input, p, first, c, e) && SeparatorAt(input, e) && f == e + 1
    requires Put(acc, first.key, first.value) == acc + [first]
    ensures ParseMembers(input, At(input, p), acc) == ParseMembers(input, At(input, f), acc + [first])
    decreases first
  {
    ParseEntryHead(input, p, first, c, e);
    MemberAt(input, p, first.key, c, first.value, e, f, acc);
  }

  lemma ParseEmptyArrayText(input: Text, p: nat, v: JVal, q: nat)
    requires ValueAt(input, p, v, q) && v.Arr? && v.items == []
    ensures ParseValue(input, At(input, p)) == Ok((v, At(input, q)))
  {
    EmptyArrayText(input, p, v, q);
    EmptyArrayAt(input, p, q);
  }

  lemma {:induction false} ParseArrayText(input: Text, p: nat, v: JVal, q: nat)
    requires ValueAt(input, p, v, q) && v.Arr? && v.items != []
    ensures ParseValue(input, At(input, p)) == Ok((v, At(input, q)))
    decreases v, 1
  {
    var end := ArrayTextSplit(input, p, v, q);
    ParseItemsText(input, p + 1, v.items, end, []);
    assert [] + v.items == v.items;
    ArrayAt(input, p, v, end, q);
  }

  /** The elements between p and the closing bracket at end read back, after those
      already in acc. */
  lemma {:induction false} ParseItemsText(input: Text, p: nat, items: seq<JVal>, end: nat, acc: seq<JVal>)
    requires ItemsAt(input, p, items, end)
    ensures ParseElements(input, At(input, p), acc) == Ok((acc + items, At(input, end)))
    decreases items, 2
  {
    if |items| == 1 {
      ParseLastItemText(input, p, items, end, acc);
    } else {
      ParseMoreItemsText(input, p, items, end, acc);
    }
  }

  lemma {:induction false} ParseLastItemText(input: Text, p: nat, items: seq<JVal>, end: nat, acc: seq<JVal>)
    requires ItemsAt(input, p, items, end) && |items| == 1
    ensures ParseElements(input, At(input, p), acc) == Ok((acc + items, At(input, end)))
    decreases items, 0
  {
    assert items == [items[0]];
    LastItemText(input, p, items, end);
    ParseStringified(input, p, items[0], end);
    LastElementAt(input, p, items[0], end, acc);
  }

  lemma {:induction false} ParseMoreItemsText(input: Text, p: nat, items: seq<JVal>, end: nat, acc: seq<JVal>)
    requires ItemsAt(input, p, items, end) && |items| > 1
    ensures ParseElements(input, At(input, p), acc) == Ok((acc + items, At(input, end)))
    decreases items, 1
  {
    var e, f := ItemsTextSplit(input, p, items, end);
    ParseItemsText(input, f, items[1..], end, acc + [items[0]]);
    MoreElementsAt(input, p, items, e, f, end, acc);
  }

  lemma ParseEmptyObjectText(input: Text, p: nat, v: JVal, q: nat)
    requires ValueAt(input, p, v, q) && v.Map? && v.entries == []
    ensures ParseValue(input, At(input, p)) == Ok((v, At(input, q)))
  {
    EmptyObjectText(input, p, v, q);
    EmptyObjectAt(input, p, q);
  }

  lemma {:induction false} ParseObjectText(input: Text, p: nat, v: JVal, q: nat)
    requires ValueAt(input, p, v, q) && v.Map? && v.entries != []
    ensures ParseValue(input, At(input, p)) == Ok((v, At(input, q)))
    decreases v, 1
  {
    var end := ObjectTextSplit(input, p, v, q);
    ParseEntriesText(input, p + 1, v.entries, end, []);
    assert [] + v.entries == v.entries;
    ObjectAt(input, p, v, end, q);
  }

  /** The members between p and the closing brace at end read back, after those
      already in acc. */
  lemma {:induction false} ParseEntriesText(input: Text, p: nat, entries: seq<Entry>, end: nat, acc: seq<Entry>)
    requires EntriesAt(input, p, entries, end) && UniqueKeys(acc + entries)
    ensures ParseMembers(input, At(input, p), acc) == Ok((acc + entries, At(input, end)))
    decreases entries, 3
  {
    if |entries| == 1 {
      ParseLastEntryText(input, p, entries, end, acc);
    } else {
      ParseMoreEntriesText(input, p, entries, end, acc);
    }
  }

  lemma {:induction false} ParseLastEntryText(input: Text, p: nat, entries: seq<Entry>, end: nat, acc: seq<Entry>)
    requires EntriesAt(input, p, entries, end) && UniqueKeys(acc + entries) && |entries| == 1
    ensures ParseMembers(input, At(input, p), acc) == Ok((acc + entries, At(input, end)))
    decreases entries, 1
  {
    var first := entries[0];
    var c := LastEntryText(input, p, entries, end);
    ParseEntryHead(input, p, first, c, end);
    Miktim.AppendFresh(acc, entries);
    LastMemberAt(input, p, first.key, c, first.value, end, acc);
    assert acc + entries == acc + [first];
  }

  lemma {:induction false} ParseMoreEntriesText(input: Text, p: nat, entries: seq<Entry>, end: nat, acc: seq<Entry>)
    requires EntriesAt(input, p, entries, end) && UniqueKeys(acc + entries) && |entries| > 1
    ensures ParseMembers(input, At(input, p), acc) == Ok((acc + entries, At(input, end)))
    decreases entries, 2
  {
    var e, f := OtherEntriesText(input, p, entries, end);
    Miktim.AppendFresh(acc, entries);
    FirstMemberRead(input, p, entries, e, f, end, acc);
  }

  /** The name and the value of a member read back. */
  lemma {:induction false} ParseEntryHead(input: Text, p: nat, first: Entry, c: nat, q: nat)
    requires EntryAt(input, p, first, c, q)
    ensures ParseValue(input, At(input, p)) == Ok((first.key, At(input, c)))
    ensures ParseValue(input, At(input, c + 1)) == Ok((first.value, At(input, q)))
    decreases first, 0
  {
    ParseStringified(input, p, first.key, c);
    ParseStringified(input, c + 1, first.value, q);
  }

  /** `JSON.parse(JSON.stringify(v)) == v` for every value parse can return, with
      the compact `,` and `:` layout and parsing from offset 0. */
  lemma StringifyParsed(v: JVal)
    requires Document(v)
    ensures Parsed(Stringify(v)) == Ok(v)
  {
    var t := Stringify(v);
    StringifyStart(v);
    Cursor.SkipFromStart(t, ORIGIN, 0);
    Cursor.ExpectedAfterSkip(t, ORIGIN, Cursor.Start(ORIGIN), LBRACE);
    Cursor.ExpectedAfterSkip(t, ORIGIN, Cursor.Start(ORIGIN), LBRACKET);
    assert t[0..|t|] == t;
    ParseStringified(t, 0, v, |t|);
  }

  /** The text of a JSON whose properties are parse's own values reads back as the
      same properties: the copy clone makes. */
  lemma CloneRoundTrip(properties: seq<Entry>)
    requires Members(properties)
    ensures Parsed(Stringify(Map(SamplesMap, properties))) == Ok(Map(SamplesMap, properties))
  {
    StringifyParsed(Map(SamplesMap, properties));
  }

  // ---------------------------------------------------------------- the JSON class

  /** The properties of a JSON object as `set` keeps them: distinct, non-empty
      String names and storable values. */
  predicate Properties(entries: seq<Entry>) {
    UniqueKeys(entries) && forall e | e in entries :: e.key.Str? && e.key.s != [] && Storable(e.value)
  }

  /** org.samples.java.JSON: the properties LinkedHashMap as an ordered entry list. */
  class JSON {
    var properties: seq<Entry>

    predicate Valid()
      reads this
    {
      Properties(properties)
    }

    /** `new JSON()`: no properties. */
    constructor ()
      ensures Valid() && properties == []
    {
      properties := [];
    }

    /** `stringify()` and `toString()`. */
    function ToText(): Text
      reads this
    {
      Stringify(Map(SamplesMap, properties))
    }

    /** `list()`: the property names in insertion order. */
    method List() returns (names: seq<JVal>)
      ensures |names| == |properties|
      ensures forall i | 0 <= i < |names| :: names[i] == properties[i].key
    {
      names := [];
      for i := 0 to |properties|
        invariant |names| == i
        invariant forall j | 0 <= j < i :: names[j] == properties[j].key
      {
        names := names + [properties[i].key];
      }
    }

    /** `exists(propName)`: containsKey. */
    predicate Exists(name: JVal)
      reads this
    {
      HasKey(properties, name)
    }

    /** `get(propName)`: a null, empty or absent name is an IllegalArgumentException. */
    method Get(name: JVal) returns (r: Result<JVal>)
      requires name.Null? || name.Str?
      ensures r.Ok? <==> name.Str? && name.s != [] && HasKey(properties, name)
      ensures r.Ok? ==> Lookup(properties, name) == Some(r.value)
      ensures r.Err? ==> r.error == IllegalArgumentException
    {
      if name.Null? || name.s == [] || !Exists(name) {
        return Err(IllegalArgumentException);
      }
      LookupHasKey(properties, name);
      return Ok(Lookup(properties, name).value);
    }

    /** `set(propName, value)`: a null or empty name, or a value checkObjectType
        refuses, is an IllegalArgumentException and changes nothing; otherwise
        LinkedHashMap.put. */
    method Set(name: JVal, value: JVal) returns (r: Result<()>)
      requires Valid() && (name.Null? || name.Str?)
      modifies this
      ensures Valid()
      ensures r.Ok? <==> name.Str? && name.s != [] && Storable(value)
      ensures r.Ok? ==> properties == Put(old(properties), name, value)
      ensures r.Ok? ==> Lookup(properties, name) == Some(value)
      ensures r.Ok? ==> forall k | k != name :: Lookup(properties, k) == Lookup(old(properties), k)
      ensures r.Err? ==> r.error == IllegalArgumentException && properties == old(properties)
    {
      if name.Null? || name.s == [] {
        return Err(IllegalArgumentException);
      }
      var checked :- CheckObjectType(value);
      PutSemantics(properties, name, checked);
      PutEntries(properties, name, checked);
      properties := Put(properties, name, checked);
      return Ok(());
    }

    /** `remove(propName)`: LinkedHashMap.remove, which returns the value the name
        had, or null. */
    method Remove(name: JVal) returns (v: JVal)
      requires Valid()
      modifies this
      ensures Valid()
      ensures properties == Values.Remove(old(properties), name)
      ensures !HasKey(properties, name)
      ensures forall k | k != name :: Lookup(properties, k) == Lookup(old(properties), k)
      ensures v == match Lookup(old(properties), name) case Some(x) => x case None => Null
    {
      v := match Lookup(properties, name) case Some(x) => x case None => Null;
      RemoveSemantics(properties, name);
      RemoveEntries(properties, name);
      properties := Values.Remove(properties, name);
    }

    /** `clone()`: `(JSON) JSON.parse(this.stringify())`; whatever that throws,
        ClassCastException included, becomes CloneNotSupportedException. */
    method Clone() returns (r: Result<JSON?>)
      ensures match Parsed(ToText())
        case Ok(Null) => r == Ok(null)
        case Ok(Map(SamplesMap, es)) => r.Ok? && r.value != null && fresh(r.value) && r.value.properties == es
        case _ => r == Err(CloneNotSupportedException)
      ensures Members(properties) ==> r.Ok? && r.value != null && r.value.properties == properties
    {
      if Members(properties) {
        CloneRoundTrip(properties);
      }
      var parser := new Parser();
      var parsed := parser.Parse(ToText());
      if parsed.Err? {
        return Err(CloneNotSupportedException);
      }
      var top := parsed.value;
      if top.Null? {
        return Ok(null);
      }
      if !(top.Map? && top.cls == SamplesMap) {
        return Err(CloneNotSupportedException);
      }
      var copy := new JSON();
      copy.properties := top.entries;
      return Ok(copy);
    }
  }
}
