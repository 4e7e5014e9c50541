/** Inputs on which the two parsers of src/org/miktim/json (ParserJSON and
    JSONparser) part ways, worked through their specification. */
module ParsersExamples {
  import opened JavaLang
  import opened Values
  import Cursor
  import opened Escape
  import PJ = ParserJSON
  import JP = JSONparser

  /** `falsen` is no literal. ParserJSON reports the offset after the lexeme,
      JSONparser the lexeme's own index. */
  lemma FalsenOffsets()
    ensures PJ.FirstValue([0x66, 0x61, 0x6C, 0x73, 0x65, 0x6E])
      == Err(ParseException(UnknownLiteral, [0x66, 0x61, 0x6C, 0x73, 0x65, 0x6E], 6))
    ensures JP.FirstValue([0x66, 0x61, 0x6C, 0x73, 0x65, 0x6E])
      == Err(ParseException(UnknownLiteral, [0x66, 0x61, 0x6C, 0x73, 0x65, 0x6E], 0))
  {
    var t: Text := [0x66, 0x61, 0x6C, 0x73, 0x65, 0x6E];
    var s0 := Cursor.Start(PJ.ORIGIN);
    var s1 := Cursor.At(t, PJ.ORIGIN, 0);
    Cursor.SkipFromStart(t, PJ.ORIGIN, 0);
    assert Cursor.SkipWhitespaces(t, PJ.ORIGIN, s0) == s1;
    assert Cursor.ExpectedChar(t, PJ.ORIGIN, s0, LBRACE) == Ok((false, s1));
    assert Cursor.ExpectedChar(t, PJ.ORIGIN, s1, LBRACKET) == Ok((false, s1));
    Cursor.NextCharsRun(t, PJ.ORIGIN, 0, 6, Cursor.Literals);
    assert t[0..6] == t;
    assert Cursor.NextChars(t, PJ.ORIGIN, s1, Cursor.Literals) == (t, Cursor.At(t, PJ.ORIGIN, 6));
    assert t != Ascii("true") && t != Ascii("false") && t != Ascii("null");
    assert PJ.ParseScalar(t, s1) == Err(ParseException(UnknownLiteral, t, 6));
    assert JP.ParseScalar(t, s1) == Err(ParseException(UnknownLiteral, t, 0));
  }

  /** `#` cannot start a value. ParserJSON names the character by its code,
      JSONparser by the character itself; both point at it. */
  lemma HashUnexpected()
    ensures PJ.FirstValue([0x23]) == Err(ParseException(UnexpectedChar, IntText(0x23), 0))
    ensures JP.FirstValue([0x23]) == Err(ParseException(UnexpectedChar, [0x23], 0))
  {
    var t: Text := [0x23];
    var s0 := Cursor.Start(PJ.ORIGIN);
    var s1 := Cursor.At(t, PJ.ORIGIN, 0);
    Cursor.SkipFromStart(t, PJ.ORIGIN, 0);
    assert Cursor.SkipWhitespaces(t, PJ.ORIGIN, s0) == s1;
    assert Cursor.ExpectedChar(t, PJ.ORIGIN, s0, LBRACE) == Ok((false, s1));
    assert Cursor.ExpectedChar(t, PJ.ORIGIN, s1, LBRACKET) == Ok((false, s1));
  }

  /** `[]`: an empty Object[]. */
  lemma EmptyArray()
    ensures PJ.FirstValue([LBRACKET, RBRACKET]) == Ok(Arr(OBJECT, []))
    ensures JP.FirstValue([LBRACKET, RBRACKET]) == Ok(Arr(OBJECT, []))
  {
    var t: Text := [LBRACKET, RBRACKET];
    var s0 := Cursor.Start(PJ.ORIGIN);
    var s1, s2, s3 := Cursor.At(t, PJ.ORIGIN, 0), Cursor.At(t, PJ.ORIGIN, 1), Cursor.At(t, PJ.ORIGIN, 2);
    Cursor.SkipFromStart(t, PJ.ORIGIN, 0);
    assert Cursor.SkipWhitespaces(t, PJ.ORIGIN, s0) == s1;
    assert Cursor.ExpectedChar(t, PJ.ORIGIN, s0, LBRACE) == Ok((false, s1));
    assert Cursor.ExpectedChar(t, PJ.ORIGIN, s1, LBRACKET) == Ok((true, s2));
    assert Cursor.SkipWhitespaces(t, PJ.ORIGIN, s2) == s2;
    assert Cursor.ExpectedChar(t, PJ.ORIGIN, s2, RBRACKET) == Ok((true, s3));
    assert Cursor.SkipWhitespaces(t, PJ.ORIGIN, s3) == s3;
    assert PJ.ParseArrayBody(t, s2) == Ok((Arr(OBJECT, []), s3));
    assert JP.ParseArrayBody(t, s2) == Ok((Arr(OBJECT, []), s3));
  }

  /** `"\q"`: ParserJSON refuses the unknown two-character escape at its
      backslash; JSONparser keeps the escaped character. */
  lemma UnknownEscape()
    ensures PJ.FirstValue([QUOTE, BACKSLASH, 0x71, QUOTE])
      == Err(ParseException(WrongTwoCharEscape, [BACKSLASH, 0x71], 0))
    ensures JP.FirstValue([QUOTE, BACKSLASH, 0x71, QUOTE]) == Ok(Str([0x71]))
  {
    var t: Text := [QUOTE, BACKSLASH, 0x71, QUOTE];
    var s0 := Cursor.Start(PJ.ORIGIN);
    var s1, s4, s5 := Cursor.At(t, PJ.ORIGIN, 0), Cursor.At(t, PJ.ORIGIN, 3), Cursor.At(t, PJ.ORIGIN, 4);
    Cursor.SkipFromStart(t, PJ.ORIGIN, 0);
    assert Cursor.SkipWhitespaces(t, PJ.ORIGIN, s0) == s1;
    assert Cursor.ExpectedChar(t, PJ.ORIGIN, s0, LBRACE) == Ok((false, s1));
    assert Cursor.ExpectedChar(t, PJ.ORIGIN, s1, LBRACKET) == Ok((false, s1));
    assert PJ.P.ScanString(t, Cursor.At(t, PJ.ORIGIN, 2), [BACKSLASH, 0x71]) == Ok(([BACKSLASH, 0x71], s4));
    assert Cursor.GetChar(t, PJ.ORIGIN, s1) == Ok(Cursor.At(t, PJ.ORIGIN, 1));
    assert Cursor.GetChar(t, PJ.ORIGIN, Cursor.At(t, PJ.ORIGIN, 1)) == Ok(Cursor.At(t, PJ.ORIGIN, 2));
    assert Cursor.LastChar(Cursor.At(t, PJ.ORIGIN, 1)) == BACKSLASH;
    assert Cursor.LastChar(Cursor.At(t, PJ.ORIGIN, 2)) == 0x71;
    var e: Text := [BACKSLASH, 0x71];
    assert [] + [BACKSLASH, Cursor.LastChar(Cursor.At(t, PJ.ORIGIN, 2))] == e;
    assert PJ.P.ScanString(t, s1, []) == Ok((e, s4));
    PJ.StrictRefusesUnknownEscape([BACKSLASH, 0x71], 0);
    assert ShortUnescape(0x71) == None;
    assert PJ.P.UnescapeStep([BACKSLASH, 0x71], 0) == Ok(([0x71], 2));
    assert PJ.P.UnescapeFrom([BACKSLASH, 0x71], 2) == Ok([]);
    var q: Text := [0x71];
    assert q + [] == q;
    assert PJ.P.Unescape([BACKSLASH, 0x71]) == Ok([0x71]);
    assert Cursor.GetChar(t, PJ.ORIGIN, s4) == Ok(s5);
    assert Cursor.SkipWhitespaces(t, PJ.ORIGIN, s5) == s5;
  }
}
