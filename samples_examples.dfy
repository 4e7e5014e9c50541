/** Inputs on which org.samples.java.JSON.parse (srcs/JSON.java) throws, worked
    through the parser's specification one cursor step at a time. */
module SamplesExamples {
  import opened JavaLang
  import opened Values
  import Cursor
  import Numbers
  import S = SamplesJSON

  /** `{"":1}`: the value is read, then `set` refuses the empty name. */
  lemma EmptyNameRefused()
    ensures S.Parsed([LBRACE, QUOTE, QUOTE, COLON, 0x31, RBRACE]) == Err(IllegalArgumentException)
  {
    var t: Text := [LBRACE, QUOTE, QUOTE, COLON, 0x31, RBRACE];
    var s0 := Cursor.Start(0);
    var a0, a1 := Cursor.At(t, 0, 0), Cursor.At(t, 0, 1);
    assert Cursor.SkipWhitespaces(t, 0, s0) == a0;
    assert Cursor.ExpectedChar(t, 0, s0, LBRACE) == Ok((true, a1));
    assert Cursor.ExpectedChar(t, 0, a1, RBRACE) == Ok((false, a1));
    EmptyNameMembers();
    assert S.ParseObjectBody(t, a1) == Err(IllegalArgumentException);
  }

  /** The members of `{"":1}`: an empty name, a colon, then the number. */
  lemma EmptyNameMembers()
    ensures S.ParseMembers([LBRACE, QUOTE, QUOTE, COLON, 0x31, RBRACE], Cursor.At([LBRACE, QUOTE, QUOTE, COLON, 0x31, RBRACE], 0, 1), [])
      == Err(IllegalArgumentException)
  {
    var t: Text := [LBRACE, QUOTE, QUOTE, COLON, 0x31, RBRACE];
    var a1, a3, a4, a5 := Cursor.At(t, 0, 1), Cursor.At(t, 0, 3), Cursor.At(t, 0, 4), Cursor.At(t, 0, 5);
    EmptyNameValue();
    assert Cursor.ExpectedChar(t, 0, a1, LBRACE) == Ok((false, a1));
    assert Cursor.ExpectedChar(t, 0, a1, LBRACKET) == Ok((false, a1));
    assert S.ScanString(t, a1, []) == Ok(([], Cursor.At(t, 0, 2)));
    assert S.Unescape([]) == Ok([]);
    assert S.ParseScalar(t, a1) == Ok((Str([]), a3));
    assert S.ParseValue(t, a1) == Ok((Str([]), a3));
    assert Cursor.ExpectedChar(t, 0, a3, COLON) == Ok((true, a4));
  }

  /** The value of `{"":1}`: the number 1, read up to the closing brace. */
  lemma EmptyNameValue()
    ensures S.ParseValue([LBRACE, QUOTE, QUOTE, COLON, 0x31, RBRACE], Cursor.At([LBRACE, QUOTE, QUOTE, COLON, 0x31, RBRACE], 0, 4))
      == Ok((Num(Decimal(JBigDecimal, [0x31])), Cursor.At([LBRACE, QUOTE, QUOTE, COLON, 0x31, RBRACE], 0, 5)))
  {
    var t: Text := [LBRACE, QUOTE, QUOTE, COLON, 0x31, RBRACE];
    var a4, a5 := Cursor.At(t, 0, 4), Cursor.At(t, 0, 5);
    assert Cursor.ExpectedChar(t, 0, a4, LBRACE) == Ok((false, a4));
    assert Cursor.ExpectedChar(t, 0, a4, LBRACKET) == Ok((false, a4));
    Cursor.NextCharsRun(t, 0, 4, 5, Cursor.NumberChars);
    assert t[4..5] == [0x31];
    assert Numbers.IsDecimalLexeme([0x31]);
    assert S.ParseScalar(t, a4) == Ok((Num(Decimal(JBigDecimal, [0x31])), a5));
  }

  /** `falsen`: the lexeme is no literal; the error offset is the count of code
      units read less the lexeme's length, one past the lexeme's index. */
  lemma FalsenUnknown()
    ensures S.Parsed([0x66, 0x61, 0x6C, 0x73, 0x65, 0x6E])
      == Err(ParseException(UnknownLiteral, [0x66, 0x61, 0x6C, 0x73, 0x65, 0x6E], 1))
  {
    var t: Text := [0x66, 0x61, 0x6C, 0x73, 0x65, 0x6E];
    var s0 := Cursor.Start(0);
    var s1 := Cursor.At(t, 0, 0);
    Cursor.SkipFromStart(t, 0, 0);
    assert Cursor.SkipWhitespaces(t, 0, s0) == s1;
    assert Cursor.ExpectedChar(t, 0, s0, LBRACE) == Ok((false, s1));
    assert Cursor.ExpectedChar(t, 0, s1, LBRACKET) == Ok((false, s1));
    Cursor.NextCharsRun(t, 0, 0, 6, Cursor.Literals);
    assert t[0..6] == t;
    assert Cursor.NextChars(t, 0, s1, Cursor.Literals) == (t, Cursor.At(t, 0, 6));
    assert S.ParseScalar(t, s1) == Err(ParseException(UnknownLiteral, t, 1));
  }

  /** `1 2`: a second value after the first is "EOT expected", at the count of code
      units read. */
  lemma TrailingValue()
    ensures S.Parsed([0x31, SPACE, 0x32]) == Err(ParseException(EOTExpected, [], 3))
  {
    var t: Text := [0x31, SPACE, 0x32];
    var s0 := Cursor.Start(0);
    var s1 := Cursor.At(t, 0, 0);
    Cursor.SkipFromStart(t, 0, 0);
    assert Cursor.SkipWhitespaces(t, 0, s0) == s1;
    Cursor.NextCharsRun(t, 0, 0, 1, Cursor.NumberChars);
    var s2 := Cursor.At(t, 0, 1);
    var s3 := Cursor.At(t, 0, 2);
    assert Cursor.SkipWhitespaces(t, 0, s2) == s3;
    assert t[0..1] == [0x31];
    assert Numbers.IsDecimalLexeme([0x31]);
    assert Cursor.ExpectedChar(t, 0, s0, LBRACE) == Ok((false, s1));
    assert Cursor.ExpectedChar(t, 0, s1, LBRACKET) == Ok((false, s1));
    assert S.ParseScalar(t, s1) == Ok((Num(Decimal(JBigDecimal, [0x31])), s3));
    assert S.ParseValue(t, s0) == Ok((Num(Decimal(JBigDecimal, [0x31])), s3));
  }
}
