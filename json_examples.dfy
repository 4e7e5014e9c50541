/** Inputs on which JSON.parse (src/org/miktim/json/JSON.java) throws, worked
    through the parser's specification one cursor step at a time. */
module JSONExamples {
  import opened JavaLang
  import opened Values
  import Cursor
  import Numbers
  import P = JSON

  /** `{{}}`: the first member name parses as an object, not a String. */
  lemma NestedObjectName()
    ensures P.Parsed([LBRACE, LBRACE, RBRACE, RBRACE]) == Err(ParseException(NameExpected, [], 3))
  {
    var t: Text := [LBRACE, LBRACE, RBRACE, RBRACE];
    var s0 := Cursor.Start(-1);
    var s1 := Cursor.State(1, LBRACE as int, 0);
    var s2 := Cursor.State(2, LBRACE as int, 1);
    var s3 := Cursor.State(3, RBRACE as int, 2);
    var s4 := Cursor.State(4, RBRACE as int, 3);
    Cursor.SkipFromStart(t, -1, 0);
    assert Cursor.SkipWhitespaces(t, -1, s0) == s1;
    assert Cursor.ExpectedChar(t, -1, s0, LBRACE) == Ok((true, s2));
    assert Cursor.ExpectedChar(t, -1, s2, RBRACE) == Ok((false, s2));
    assert Cursor.ExpectedChar(t, -1, s2, LBRACE) == Ok((true, s3));
    assert Cursor.ExpectedChar(t, -1, s3, RBRACE) == Ok((true, s4));
    assert Cursor.SkipWhitespaces(t, -1, s4) == s4;
    assert P.ParseValue(t, s2) == Ok((Map(JSONMap, []), s4));
    assert P.ParseMembers(t, s2, []) == Err(ParseException(NameExpected, [], 3));
    assert P.ParseValue(t, s0) == Err(ParseException(NameExpected, [], 3));
  }

  /** `falsen`: the whole run of literal letters is the lexeme, and it is no literal;
      the error points at its start. */
  lemma FalsenUnknown()
    ensures P.Parsed([0x66, 0x61, 0x6C, 0x73, 0x65, 0x6E]) == Err(ParseException(UnknownLiteral, [0x66, 0x61, 0x6C, 0x73, 0x65, 0x6E], 0))
  {
    var t: Text := [0x66, 0x61, 0x6C, 0x73, 0x65, 0x6E];
    var s0 := Cursor.Start(-1);
    var s1 := Cursor.At(t, -1, 0);
    Cursor.SkipFromStart(t, -1, 0);
    assert Cursor.SkipWhitespaces(t, -1, s0) == s1;
    assert Cursor.ExpectedChar(t, -1, s0, LBRACE) == Ok((false, s1));
    assert Cursor.ExpectedChar(t, -1, s1, LBRACKET) == Ok((false, s1));
    Cursor.NextCharsRun(t, -1, 0, 6, Cursor.Literals);
    assert t[0..6] == t;
    assert Cursor.NextChars(t, -1, s1, Cursor.Literals) == (t, Cursor.At(t, -1, 6));
    assert t != Ascii("true") && t != Ascii("false") && t != Ascii("null");
    assert P.ParseScalar(t, s1) == Err(ParseException(UnknownLiteral, t, 0));
  }

  /** `1 2`: a second value after the first is reported at its own offset. */
  lemma TrailingValue()
    ensures P.Parsed([0x31, SPACE, 0x32]) == Err(ParseException(EOTExpected, [], 2))
  {
    var t: Text := [0x31, SPACE, 0x32];
    var s0 := Cursor.Start(-1);
    var s1 := Cursor.At(t, -1, 0);
    Cursor.SkipFromStart(t, -1, 0);
    assert Cursor.SkipWhitespaces(t, -1, s0) == s1;
    Cursor.NextCharsRun(t, -1, 0, 1, Cursor.NumberChars);
    var s2 := Cursor.At(t, -1, 1);
    var s3 := Cursor.At(t, -1, 2);
    assert Cursor.SkipWhitespaces(t, -1, s2) == s3;
    assert t[0..1] == [0x31];
    assert Numbers.IsDecimalLexeme([0x31]);
    assert Cursor.ExpectedChar(t, -1, s0, LBRACE) == Ok((false, s1));
    assert Cursor.ExpectedChar(t, -1, s1, LBRACKET) == Ok((false, s1));
    assert P.ParseScalar(t, s1) == Ok((Num(Decimal(JBigDecimal, [0x31])), s3));
    assert P.ParseValue(t, s0) == Ok((Num(Decimal(JBigDecimal, [0x31])), s3));
  }

  /** `\u0660\u0660\u0664\u0661` in Arabic-Indic digits: Integer.parseInt(_, 16) takes
      any script's decimal digits, so the escape is read as U+0041, `A`. */
  lemma ArabicIndicUEscape()
    ensures P.Unescape([BACKSLASH, LOWER_U, 0x0660, 0x0660, 0x0664, 0x0661]) == Ok([0x41])
  {
    var s: Text := [BACKSLASH, LOWER_U, 0x0660, 0x0660, 0x0664, 0x0661];
    var h := s[2..6];
    HexValueBeyondAscii(0);
    HexValueBeyondAscii(4);
    HexValueBeyondAscii(1);
    HexDigitsValueSnoc([], h[0], 0, 0);
    assert [] + [h[0]] == h[..1];
    HexDigitsValueSnoc(h[..1], h[1], 0, 0);
    assert h[..1] + [h[1]] == h[..2];
    HexDigitsValueSnoc(h[..2], h[2], 0, 4);
    assert h[..2] + [h[2]] == h[..3];
    HexDigitsValueSnoc(h[..3], h[3], 4, 1);
    assert h[..3] + [h[3]] == h && h[0..] == h;
    assert ParseIntRadix16(h) == Some(0x41);
    assert P.UnescapeStep(s, 0) == Ok(([0x41], 6));
    assert P.UnescapeFrom(s, 6) == Ok([]);
    assert [0x41] + [] == [0x41];
  }

  /** `"a`: the string loop reads past the end of text. */
  lemma UnterminatedString()
    ensures P.Parsed([QUOTE, 0x61]) == Err(ParseException(UnexpectedEOT, [], 2))
  {
    var t: Text := [QUOTE, 0x61];
    var s0 := Cursor.Start(-1);
    var s1 := Cursor.At(t, -1, 0);
    Cursor.SkipFromStart(t, -1, 0);
    assert Cursor.SkipWhitespaces(t, -1, s0) == s1;
    assert P.ScanString(t, Cursor.At(t, -1, 2), [0x61, CHAR_OF_EOF]) == Err(ParseException(UnexpectedEOT, [], 2));
    assert P.ScanString(t, Cursor.At(t, -1, 1), [0x61]) == Err(ParseException(UnexpectedEOT, [], 2));
    assert [] + [t[1]] == [0x61];
    assert P.ScanString(t, s1, []) == Err(ParseException(UnexpectedEOT, [], 2));
  }
}
