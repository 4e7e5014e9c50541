/** The single-character-lookahead cursor the four parsers share: getChar, lastChar,
    eot, charIn, nextChars, skipWhitespaces and expectedChar are the same code in
    src/org/miktim/json/JSON.java, srcs/JSON.java, ParserJSON.java and
    JSONparser.java. The Reader is the input text read one code unit at a time,
    with -1 as its end-of-text sentinel. */
module Cursor {
  import opened JavaLang
  import Numbers

  /** What `Reader.read()` returns at end of text. */
  const EOT: int := -1

  /** The WHITESPACES, NUMBERS and LITERALS tables. */
  datatype CharTable = Whitespaces | NumberChars | Literals

  predicate IsWhitespace(c: CodeUnit) {
    c == SPACE || c == NEWLINE || c == RETURN || c == TAB
  }

  /** The letters of "truefalsn". */
  predicate IsLiteralChar(c: CodeUnit) {
    c == 0x74 || c == 0x72 || c == 0x75 || c == 0x65 || c == 0x66
    || c == 0x61 || c == 0x6C || c == 0x73 || c == 0x6E
  }

  /** `charIn(chars, c)`. */
  predicate In(table: CharTable, c: CodeUnit) {
    match table
    case Whitespaces => IsWhitespace(c)
    case NumberChars => Numbers.IsNumberChar(c)
    case Literals => IsLiteralChar(c)
  }

  /** The cursor fields: `lastChar` and `offset`, and how much of the input the
      reader has handed out (`next`). */
  datatype State = State(next: nat, lastChar: int, offset: int)

  /** The cursor is `origin + next` code units in, and lastChar is what the reader
      returned last (a space before the first read, -1 once past the end). */
  predicate Valid(input: Text, origin: int, s: State) {
    && s.next <= |input| + 1
    && s.offset == origin + s.next
    && (s.lastChar == EOT <==> s.next == |input| + 1)
    && (s.next == 0 ==> s.lastChar == SPACE as int)
    && (0 < s.next <= |input| ==> s.lastChar == input[s.next - 1] as int)
  }

  /** The state `parse` resets to: lastChar = 0x20 and the given offset. */
  function Start(origin: int): (s: State)
    ensures forall input: Text :: Valid(input, origin, s)
  {
    State(0, SPACE as int, origin)
  }

  /** How much input is left: what every successful parsing step decreases. */
  function Remaining(input: Text, s: State): nat
    requires s.next <= |input| + 1
  {
    |input| + 1 - s.next
  }

  /** `lastChar()`: the cast `(char) lastChar`, so end of text reads as 0xFFFF. */
  function LastChar(s: State): CodeUnit
    requires -1 <= s.lastChar < 0x1_0000
  {
    if s.lastChar == EOT then CHAR_OF_EOF else s.lastChar as CodeUnit
  }

  function Read(input: Text, next: nat): int {
    if next < |input| then input[next] as int else EOT
  }

  /** `getChar()`: read one code unit, or fail with "Unexpected EOT" at the current
      offset once the end of text has been read. */
  function GetChar(input: Text, origin: int, s: State): (r: Result<State>)
    requires Valid(input, origin, s)
    ensures r.Ok? <==> s.lastChar != EOT
    ensures r.Ok? ==> Valid(input, origin, r.value) && r.value.next == s.next + 1
    ensures r.Ok? ==> r.value.offset == s.offset + 1
    ensures r.Err? ==> r.error == ParseException(UnexpectedEOT, [], s.offset)
  {
    if s.lastChar == EOT then Err(ParseException(UnexpectedEOT, [], s.offset))
    else Ok(State(s.next + 1, Read(input, s.next), s.offset + 1))
  }

  /** `nextChars(chars)`: the run of table characters from lastChar on. It never
      reads past the end, since 0xFFFF is in no table. */
  function NextChars(input: Text, origin: int, s: State, table: CharTable): (r: (Text, State))
    requires Valid(input, origin, s)
    ensures Valid(input, origin, r.1)
    ensures r.1.next == s.next + |r.0|
    ensures !In(table, LastChar(r.1))
    ensures r.0 != [] <==> In(table, LastChar(s))
    decreases Remaining(input, s)
  {
    if In(table, LastChar(s)) then
      var s1 := GetChar(input, origin, s).value;
      var (t, s2) := NextChars(input, origin, s1, table);
      ([LastChar(s)] + t, s2)
    else ([], s)
  }

  /** The run nextChars collects: table characters, starting with lastChar, and the
      very code units of the input from lastChar on. */
  lemma NextCharsText(input: Text, origin: int, s: State, table: CharTable)
    requires Valid(input, origin, s)
    ensures var r := NextChars(input, origin, s, table);
      forall k | 0 <= k < |r.0| :: In(table, r.0[k])
    ensures var r := NextChars(input, origin, s, table);
      r.0 != [] ==> r.0[0] == LastChar(s)
    ensures var r := NextChars(input, origin, s, table);
      |r.0| > 0 ==> s.next >= 1 ==> input[s.next - 1..r.1.next - 1] == r.0
  {
    NextCharsInTable(input, origin, s, table);
    NextCharsSlice(input, origin, s, table);
  }

  lemma {:induction false} NextCharsInTable(input: Text, origin: int, s: State, table: CharTable)
    requires Valid(input, origin, s)
    ensures var r := NextChars(input, origin, s, table);
      forall k | 0 <= k < |r.0| :: In(table, r.0[k])
    ensures var r := NextChars(input, origin, s, table);
      r.0 != [] ==> r.0[0] == LastChar(s)
    decreases Remaining(input, s)
  {
    if In(table, LastChar(s)) {
      var s1 := GetChar(input, origin, s).value;
      NextCharsInTable(input, origin, s1, table);
    }
  }

  lemma {:induction false} NextCharsSlice(input: Text, origin: int, s: State, table: CharTable)
    requires Valid(input, origin, s)
    ensures var r := NextChars(input, origin, s, table);
      |r.0| > 0 ==> s.next >= 1 ==> input[s.next - 1..r.1.next - 1] == r.0
    decreases Remaining(input, s)
  {
    if In(table, LastChar(s)) && s.next >= 1 {
      var s1 := GetChar(input, origin, s).value;
      NextCharsSlice(input, origin, s1, table);
      var (t, s2) := NextChars(input, origin, s1, table);
      assert s.next <= |input| && input[s.next - 1] == LastChar(s);
      if t == [] {
        assert s2 == s1;
        assert input[s.next - 1..s2.next - 1] == [LastChar(s)];
      } else {
        assert input[s.next - 1..s2.next - 1] == [input[s.next - 1]] + input[s.next..s2.next - 1];
      }
    }
  }

  /** `skipWhitespaces()`. */
  function SkipWhitespaces(input: Text, origin: int, s: State): (s': State)
    requires Valid(input, origin, s)
    ensures Valid(input, origin, s') && s'.next >= s.next
    ensures !IsWhitespace(LastChar(s'))
  {
    NextChars(input, origin, s, Whitespaces).1
  }

  /** `expectedChar(c)`: skip whitespace, then consume c if it is lastChar. */
  function ExpectedChar(input: Text, origin: int, s: State, c: CodeUnit): (r: Result<(bool, State)>)
    requires Valid(input, origin, s)
    requires c != CHAR_OF_EOF
    ensures r.Ok?
    ensures Valid(input, origin, r.value.1)
    ensures r.value.1.next >= s.next
    ensures r.value.0 ==> r.value.1.next > s.next
    ensures r.value.0 <==> LastChar(SkipWhitespaces(input, origin, s)) == c
    ensures !r.value.0 ==> r.value.1 == SkipWhitespaces(input, origin, s)
  {
    var s1 := SkipWhitespaces(input, origin, s);
    if LastChar(s1) == c then
      var s2 := GetChar(input, origin, s1).value;
      Ok((true, s2))
    else Ok((false, s1))
  }

  /** The cursor standing on position p: lastChar is the code unit at p, or the end
      of text when p is the end. */
  function At(input: Text, origin: int, p: nat): (s: State)
    requires p <= |input|
    ensures Valid(input, origin, s)
  {
    State(p + 1, Read(input, p), origin + p + 1)
  }

  /** nextChars collects exactly the maximal run of table characters. */
  lemma {:induction false} NextCharsRun(input: Text, origin: int, p: nat, q: nat, table: CharTable)
    requires p <= q <= |input|
    requires forall k | p <= k < q :: In(table, input[k])
    requires q == |input| || !In(table, input[q])
    ensures NextChars(input, origin, At(input, origin, p), table) == (input[p..q], At(input, origin, q))
    decreases q - p
  {
    var s := At(input, origin, p);
    if p < q {
      assert LastChar(s) == input[p];
      assert GetChar(input, origin, s) == Ok(At(input, origin, p + 1));
      NextCharsRun(input, origin, p + 1, q, table);
      assert input[p..q] == [input[p]] + input[p + 1..q];
    } else {
      assert !In(table, LastChar(s));
      assert NextChars(input, origin, s, table) == ([], s);
      assert input[p..q] == [];
    }
  }

  /** A fresh cursor skips its leading space and stops at the first character
      that is not whitespace. */
  lemma SkipFromStart(input: Text, origin: int, q: nat)
    requires q <= |input| && (q == |input| || !IsWhitespace(input[q]))
    requires forall k | 0 <= k < q :: IsWhitespace(input[k])
    ensures SkipWhitespaces(input, origin, Start(origin)) == At(input, origin, q)
  {
    var s0 := Start(origin);
    assert GetChar(input, origin, s0) == Ok(At(input, origin, 0));
    NextCharsRun(input, origin, 0, q, Whitespaces);
  }

  /** Skipping whitespace twice is skipping it once. */
  lemma SkipTwice(input: Text, origin: int, s: State)
    requires Valid(input, origin, s)
    ensures SkipWhitespaces(input, origin, SkipWhitespaces(input, origin, s)) == SkipWhitespaces(input, origin, s)
  {
  }

  /** expectedChar skips whitespace first, so it does not matter whether the
      whitespace before the cursor was skipped already. */
  lemma ExpectedAfterSkip(input: Text, origin: int, s: State, c: CodeUnit)
    requires Valid(input, origin, s) && c != CHAR_OF_EOF
    ensures ExpectedChar(input, origin, SkipWhitespaces(input, origin, s), c) == ExpectedChar(input, origin, s, c)
  {
    SkipTwice(input, origin, s);
  }

  /** `newParseException(message, lexeme, offset)`: the error offset is moved back
      to where the lexeme starts. */
  function NewParseException(kind: ParseKind, lexeme: Text, offset: int): (e: Exception)
    ensures e.ParseException? && e.errorOffset + |lexeme| == offset
  {
    ParseException(kind, lexeme, offset - |lexeme|)
  }

  /** A parsing method's result and final cursor are the ones its specification
      function gives; when that function fails, the method throws the same. */
  predicate Follows<T(==)>(spec: Result<(T, State)>, r: Result<T>, after: State) {
    match spec
    case Ok((v, s)) => r == Ok(v) && after == s
    case Err(e) => r == Err(e)
  }
}

/** The parsers' Reader and cursor fields as an object their methods update. */
module Readers {
  import opened JavaLang
  import Cursor

  /** The parser's reader and cursor fields. */
  class Reader {
    const input: Text
    const origin: int
    var next: nat
    var lastChar: int
    var offset: int

    function State(): Cursor.State
      reads this
    {
      Cursor.State(next, lastChar, offset)
    }

    predicate Valid()
      reads this
    {
      Cursor.Valid(input, origin, State())
    }

    /** A reader over the text, with the cursor as `parse` resets it. */
    constructor (text: Text, startOffset: int)
      ensures input == text && origin == startOffset
      ensures State() == Cursor.Start(startOffset) && Valid()
    {
      input := text;
      origin := startOffset;
      next := 0;
      lastChar := SPACE as int;
      offset := startOffset;
    }

    method GetChar() returns (r: Result<CodeUnit>)
      requires Valid()
      modifies this
      ensures Valid()
      ensures match Cursor.GetChar(input, origin, old(State()))
        case Ok(s) => State() == s && r == Ok(Cursor.LastChar(s))
        case Err(e) => r == Err(e) && State() == old(State())
    {
      if lastChar == Cursor.EOT {
        return Err(ParseException(UnexpectedEOT, [], offset));
      }
      lastChar := Cursor.Read(input, next);
      next := next + 1;
      offset := offset + 1;
      r := Ok(Cursor.LastChar(State()));
    }

    method NextChars(table: Cursor.CharTable) returns (t: Text)
      requires Valid()
      modifies this
      ensures Valid()
      ensures (t, State()) == Cursor.NextChars(input, origin, old(State()), table)
    {
      t := [];
      ghost var whole := Cursor.NextChars(input, origin, State(), table);
      assert whole.0 == t + whole.0;
      while Cursor.In(table, Cursor.LastChar(State()))
        invariant Valid()
        invariant whole == (t + Cursor.NextChars(input, origin, State(), table).0,
                            Cursor.NextChars(input, origin, State(), table).1)
        decreases Cursor.Remaining(input, State())
      {
        var c := Cursor.LastChar(State());
        ghost var rest := Cursor.NextChars(input, origin, State(), table);
        var _ := GetChar();
        ghost var rest' := Cursor.NextChars(input, origin, State(), table);
        assert rest == ([c] + rest'.0, rest'.1);
        assert t + rest.0 == (t + [c]) + rest'.0;
        t := t + [c];
      }
      assert t + [] == t;
    }

    method SkipWhitespaces() returns (c: CodeUnit)
      requires Valid()
      modifies this
      ensures Valid()
      ensures State() == Cursor.SkipWhitespaces(input, origin, old(State()))
      ensures c == Cursor.LastChar(State())
    {
      var _ := NextChars(Cursor.Whitespaces);
      c := Cursor.LastChar(State());
    }

    method ExpectedChar(c: CodeUnit) returns (found: bool)
      requires Valid() && c != CHAR_OF_EOF
      modifies this
      ensures Valid()
      ensures Cursor.ExpectedChar(input, origin, old(State()), c) == Ok((found, State()))
    {
      var last := SkipWhitespaces();
      if last == c {
        var _ := GetChar();
        return true;
      }
      return false;
    }
  }
}
