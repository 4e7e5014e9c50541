/** String escaping as section 7 of RFC 8259 describes it. The escapeString loops
    of src/org/miktim/json/JSON.java, srcs/JSON.java and JSONGenerator.java are the
    same code (JSONgenerator.java calls the first); the unescape tables of all three
    unescapeString variants are the same too. Each unescapeString variant lives in
    the module of its source file. */
module Escape {
  import opened JavaLang

  /** `String.codePointAt(i)`: a high surrogate followed by a low surrogate is one
      supplementary code point; any other code unit stands for itself. */
  function CodePointAt(s: Text, i: nat): (cp: int)
    requires i < |s|
    ensures 0 <= cp < 0x11_0000
    ensures cp > 0xFFFF <==> IsHighSurrogate(s[i]) && i + 1 < |s| && IsLowSurrogate(s[i + 1])
    ensures cp <= 0xFFFF ==> cp == s[i] as int
  {
    if IsHighSurrogate(s[i]) && i + 1 < |s| && IsLowSurrogate(s[i + 1]) then
      (s[i] as int - 0xD800) * 0x400 + (s[i + 1] as int - 0xDC00) + 0x1_0000
    else
      s[i] as int
  }

  /** The letter of the two-character escape for c (UNESCAPED_CHARS / CHARS_ESCAPED). */
  function ShortEscape(c: int): Option<CodeUnit> {
    if c == 0x08 then Some(0x62)        // \b
    else if c == 0x09 then Some(0x74)   // \t
    else if c == 0x0A then Some(0x6E)   // \n
    else if c == 0x0C then Some(0x66)   // \f
    else if c == 0x0D then Some(0x72)   // \r
    else if c == 0x22 then Some(QUOTE)  // \"
    else if c == 0x2F then Some(SLASH)  // \/
    else if c == 0x5C then Some(BACKSLASH)
    else None
  }

  /** The code unit a two-character escape letter stands for (ESCAPED_CHARS /
      CHARS_UNESCAPED). */
  function ShortUnescape(letter: CodeUnit): (r: Option<CodeUnit>)
    ensures r.Some? ==> ShortEscape(r.value as int) == Some(letter)
    ensures letter == LOWER_U ==> r.None?
  {
    if letter == QUOTE then Some(0x22)
    else if letter == SLASH then Some(0x2F)
    else if letter == BACKSLASH then Some(0x5C)
    else if letter == 0x62 then Some(0x08)
    else if letter == 0x66 then Some(0x0C)
    else if letter == 0x6E then Some(0x0A)
    else if letter == 0x72 then Some(0x0D)
    else if letter == 0x74 then Some(0x09)
    else None
  }

  lemma ShortEscapeInverse(c: int)
    requires ShortEscape(c).Some?
    ensures ShortUnescape(ShortEscape(c).value) == Some(c as CodeUnit)
  {
  }

  /** `\uXXXX` with upper-case hexadecimal digits. */
  function UEscape(v: nat): (t: Text)
    requires v < 0x1_0000
    ensures |t| == 6 && t[0] == BACKSLASH && t[1] == LOWER_U && t[2..] == Hex4(v)
  {
    [BACKSLASH, LOWER_U] + Hex4(v)
  }

  /** What escapeString appends for one code point. */
  function EscapeCodePoint(c: int): (t: Text)
    requires 0 <= c < 0x11_0000
  {
    match ShortEscape(c)
    case Some(letter) => [BACKSLASH, letter]
    case None =>
      if c <= 0x1F then UEscape(c)
      else if c > 0xFFFF then
        var d := c - 0x1_0000;
        UEscape(d / 0x400 + 0xD800) + UEscape(d % 0x400 + 0xDC00)
      else [c as CodeUnit]
  }

  /** The number of code units the code point at i occupies. */
  function Width(s: Text, i: nat): (w: nat)
    requires i < |s|
    ensures w == 1 || w == 2
    ensures i + w <= |s|
  {
    if CodePointAt(s, i) > 0xFFFF then 2 else 1
  }

  /** The code units of the code point at i. */
  lemma CodeUnitsAt(s: Text, i: nat)
    requires i < |s|
    ensures Width(s, i) == 2 ==> s[i..i + Width(s, i)] == [s[i], s[i + 1]]
    ensures Width(s, i) == 1 ==> s[i..i + Width(s, i)] == [s[i]]
  {
  }

  /** escapeString applied to s[i..], code point by code point. */
  function EscapeFrom(s: Text, i: nat): Text
    requires i <= |s|
    decreases |s| - i
  {
    if i == |s| then []
    else EscapeCodePoint(CodePointAt(s, i)) + EscapeFrom(s, i + Width(s, i))
  }

  function Escaped(s: Text): Text {
    EscapeFrom(s, 0)
  }

  /** escapeString: the StringBuilder loop over code points. */
  method EscapeString(s: Text) returns (r: Text)
    ensures r == Escaped(s)
  {
    var sb: Text := [];
    var i := 0;
    while i < |s|
      invariant 0 <= i <= |s|
      invariant sb + EscapeFrom(s, i) == Escaped(s)
      decreases |s| - i
    {
      var c := CodePointAt(s, i);
      EscapeFromStep(sb, s, i);
      sb := sb + EscapeCodePoint(c);
      if c > 0xFFFF {
        i := i + 1;
      }
      i := i + 1;
    }
    r := sb;
  }

  /** One turn of escapeString's loop: the escape of the code point at i, then the
      escapes after it. */
  lemma EscapeFromStep(sb: Text, s: Text, i: nat)
    requires i < |s|
    ensures sb + EscapeFrom(s, i) == sb + EscapeCodePoint(CodePointAt(s, i)) + EscapeFrom(s, i + Width(s, i))
  {
  }

  /** The surrogate pair escapeString writes for a supplementary code point is the
      pair it was read from. */
  lemma SurrogateRoundTrip(s: Text, i: nat)
    requires i < |s| && CodePointAt(s, i) > 0xFFFF
    ensures (CodePointAt(s, i) - 0x1_0000) / 0x400 + 0xD800 == s[i] as int
    ensures (CodePointAt(s, i) - 0x1_0000) % 0x400 + 0xDC00 == s[i + 1] as int
  {
    var hi, lo := s[i] as int - 0xD800, s[i + 1] as int - 0xDC00;
    assert CodePointAt(s, i) - 0x1_0000 == hi * 0x400 + lo;
  }

  /** The code units escapeString writes for one code point stand for exactly the
      code units s[i..i + Width(s, i)]: a two-character escape, ... */
  lemma ShortShape(s: Text, i: nat)
    requires i < |s| && ShortEscape(CodePointAt(s, i)).Some?
    ensures Width(s, i) == 1
    ensures EscapeCodePoint(CodePointAt(s, i)) == [BACKSLASH, ShortEscape(CodePointAt(s, i)).value]
    ensures ShortUnescape(ShortEscape(CodePointAt(s, i)).value) == Some(s[i])
  {
    ShortEscapeInverse(CodePointAt(s, i));
  }

  /** ... a `\uXXXX` escape of a control character, ... */
  lemma ControlShape(s: Text, i: nat)
    requires i < |s| && ShortEscape(CodePointAt(s, i)).None? && CodePointAt(s, i) <= 0x1F
    ensures Width(s, i) == 1 && s[i] < SPACE
    ensures EscapeCodePoint(CodePointAt(s, i)) == UEscape(s[i] as nat)
  {
  }

  /** ... the two `\uXXXX` escapes of a surrogate pair, ... */
  lemma PairShape(s: Text, i: nat)
    requires i < |s| && CodePointAt(s, i) > 0xFFFF
    ensures Width(s, i) == 2
    ensures EscapeCodePoint(CodePointAt(s, i)) == UEscape(s[i] as nat) + UEscape(s[i + 1] as nat)
  {
    SurrogateRoundTrip(s, i);
  }

  /** ... or the code unit itself, which is then neither a backslash nor a control
      character. */
  lemma PlainShape(s: Text, i: nat)
    requires i < |s| && ShortEscape(CodePointAt(s, i)).None?
    requires 0x1F < CodePointAt(s, i) <= 0xFFFF
    ensures Width(s, i) == 1
    ensures EscapeCodePoint(CodePointAt(s, i)) == [s[i]]
    ensures s[i] != BACKSLASH && s[i] != QUOTE && s[i] >= SPACE
  {
  }

  /** escapeString leaves no raw control character in its output. */
  lemma {:induction false} EscapeFromNoControl(s: Text, i: nat)
    requires i <= |s|
    ensures forall k | 0 <= k < |EscapeFrom(s, i)| :: EscapeFrom(s, i)[k] >= SPACE
    decreases |s| - i
  {
    if i < |s| {
      EscapeFromNoControl(s, i + Width(s, i));
      var c := CodePointAt(s, i);
      var e := EscapeCodePoint(c);
      assert forall k | 0 <= k < |e| :: e[k] >= SPACE by {
        if ShortEscape(c).Some? {
          ShortShape(s, i);
        } else if c <= 0x1F {
          ControlShape(s, i);
          var u := UEscape(s[i] as nat);
          assert forall k | 2 <= k < 6 :: u[k] == Hex4(s[i] as nat)[k - 2];
        } else if c > 0xFFFF {
          PairShape(s, i);
          var u1, u2 := UEscape(s[i] as nat), UEscape(s[i + 1] as nat);
          assert forall k | 2 <= k < 6 :: u1[k] == Hex4(s[i] as nat)[k - 2];
          assert forall k | 2 <= k < 6 :: u2[k] == Hex4(s[i + 1] as nat)[k - 2];
        } else {
          PlainShape(s, i);
        }
      }
    }
  }

  lemma EscapedNoControl(s: Text)
    ensures forall k | 0 <= k < |Escaped(s)| :: Escaped(s)[k] >= SPACE
  {
    EscapeFromNoControl(s, 0);
  }

  /** A text unescaping has produced, or the exception that stopped it. */
  function Prepend(u: Text, r: Result<Text>): (p: Result<Text>)
    ensures r.Ok? ==> p == Ok(u + r.value)
    ensures r.Err? ==> p == r
  {
    match r
    case Ok(t) => Ok(u + t)
    case Err(e) => Err(e)
  }

  lemma PrependTwice(a: Text, b: Text, r: Result<Text>)
    ensures Prepend(a, Prepend(b, r)) == Prepend(a + b, r)
  {
    if r.Ok? {
      assert a + (b + r.value) == (a + b) + r.value;
    }
  }

  /** From index i on, every backslash has a code unit after it, which belongs to
      it: the shape of the raw text the parsers collect between quotes. */
  predicate PairedFrom(t: Text, i: nat)
    requires i <= |t|
    decreases |t| - i
  {
    if i == |t| then true
    else if t[i] == BACKSLASH then i + 1 < |t| && PairedFrom(t, i + 2)
    else PairedFrom(t, i + 1)
  }

  /** Skipping code units that are not backslashes keeps the pairing. */
  lemma {:induction false} PairedSkip(t: Text, i: nat, j: nat)
    requires i <= j <= |t| && PairedFrom(t, i)
    requires forall k | i <= k < j :: t[k] != BACKSLASH
    ensures PairedFrom(t, j)
    decreases j - i
  {
    if i < j {
      PairedSkip(t, i + 1, j);
    }
  }

  /** From index i on, every quote is escaped and every backslash has its escaped
      code unit after it: the parsers' string loops read such a text up to its end
      and stop at the quote that follows. */
  predicate ScansFrom(t: Text, i: nat)
    requires i <= |t|
    decreases |t| - i
  {
    if i == |t| then true
    else if t[i] == BACKSLASH then i + 1 < |t| && ScansFrom(t, i + 2)
    else t[i] != QUOTE && ScansFrom(t, i + 1)
  }

  lemma {:induction false} ScansShift(p: Text, x: Text, j: nat)
    requires j <= |x|
    ensures ScansFrom(p + x, |p| + j) == ScansFrom(x, j)
    decreases |x| - j
  {
    if j < |x| {
      assert (p + x)[|p| + j] == x[j];
      if x[j] == BACKSLASH {
        if j + 1 < |x| {
          ScansShift(p, x, j + 2);
        }
      } else {
        ScansShift(p, x, j + 1);
      }
    }
  }

  lemma {:induction false} ScansConcat(a: Text, b: Text, i: nat)
    requires i <= |a| && ScansFrom(a, i) && ScansFrom(b, 0)
    ensures ScansFrom(a + b, i)
    decreases |a| - i
  {
    if i == |a| {
      ScansShift(a, b, 0);
    } else {
      assert (a + b)[i] == a[i];
      if a[i] == BACKSLASH {
        ScansConcat(a, b, i + 2);
      } else {
        ScansConcat(a, b, i + 1);
      }
    }
  }

  lemma UEscapeScans(v: nat)
    requires v < 0x1_0000
    ensures ScansFrom(UEscape(v), 0)
  {
    var u := UEscape(v);
    assert forall k | 2 <= k < 6 :: u[k] == Hex4(v)[k - 2];
    assert ScansFrom(u, 6);
    assert ScansFrom(u, 5);
    assert ScansFrom(u, 4);
    assert ScansFrom(u, 3);
    assert ScansFrom(u, 2);
  }

  /** The escape written for one code point scans. */
  lemma EscapeCodePointScans(s: Text, i: nat)
    requires i < |s|
    ensures ScansFrom(EscapeCodePoint(CodePointAt(s, i)), 0)
  {
    var c := CodePointAt(s, i);
    if ShortEscape(c).Some? {
      ShortShape(s, i);
      assert ScansFrom([BACKSLASH, ShortEscape(c).value], 2);
    } else if c <= 0x1F {
      ControlShape(s, i);
      UEscapeScans(s[i] as nat);
    } else if c > 0xFFFF {
      PairShape(s, i);
      UEscapeScans(s[i] as nat);
      UEscapeScans(s[i + 1] as nat);
      ScansConcat(UEscape(s[i] as nat), UEscape(s[i + 1] as nat), 0);
    } else {
      PlainShape(s, i);
      assert ScansFrom([s[i]], 1);
    }
  }

  lemma {:induction false} EscapeFromScans(s: Text, i: nat)
    requires i <= |s|
    ensures ScansFrom(EscapeFrom(s, i), 0)
    decreases |s| - i
  {
    if i < |s| {
      EscapeCodePointScans(s, i);
      EscapeFromScans(s, i + Width(s, i));
      ScansConcat(EscapeCodePoint(CodePointAt(s, i)), EscapeFrom(s, i + Width(s, i)), 0);
    }
  }

  /** escapeString leaves no bare quote and no dangling backslash. */
  lemma EscapedScans(s: Text)
    ensures ScansFrom(Escaped(s), 0)
  {
    EscapeFromScans(s, 0);
  }
  /** From index i on, every backslash starts a two-character escape from the table
      or a `\u` escape with four hexadecimal digits, and no other code unit is a
      control character: what the strict unescapeString of ParserJSON.java reads
      without complaint. */
  predicate WellEscapedFrom(t: Text, i: nat)
    requires i <= |t|
    decreases |t| - i
  {
    if i == |t| then true
    else if t[i] == BACKSLASH then
      if i + 1 < |t| && ShortUnescape(t[i + 1]).Some? then WellEscapedFrom(t, i + 2)
      else i + 6 <= |t| && t[i + 1] == LOWER_U && ParseIntRadix16(t[i + 2..i + 6]).Some? && WellEscapedFrom(t, i + 6)
    else t[i] >= SPACE && WellEscapedFrom(t, i + 1)
  }

  lemma {:induction false} WellEscapedShift(p: Text, x: Text, j: nat)
    requires j <= |x|
    ensures WellEscapedFrom(p + x, |p| + j) == WellEscapedFrom(x, j)
    decreases |x| - j
  {
    if j < |x| {
      assert (p + x)[|p| + j] == x[j];
      if x[j] == BACKSLASH {
        if j + 1 < |x| {
          assert (p + x)[|p| + j + 1] == x[j + 1];
          WellEscapedShift(p, x, j + 2);
        }
        if j + 6 <= |x| {
          assert (p + x)[|p| + j + 2..|p| + j + 6] == x[j + 2..j + 6];
          WellEscapedShift(p, x, j + 6);
        }
      } else {
        WellEscapedShift(p, x, j + 1);
      }
    }
  }

  lemma {:induction false} WellEscapedConcat(a: Text, b: Text, i: nat)
    requires i <= |a| && WellEscapedFrom(a, i) && WellEscapedFrom(b, 0)
    ensures WellEscapedFrom(a + b, i)
    decreases |a| - i
  {
    if i == |a| {
      WellEscapedShift(a, b, 0);
    } else {
      assert (a + b)[i] == a[i];
      if a[i] == BACKSLASH {
        assert (a + b)[i + 1] == a[i + 1];
        if ShortUnescape(a[i + 1]).Some? {
          WellEscapedConcat(a, b, i + 2);
        } else {
          assert (a + b)[i + 2..i + 6] == a[i + 2..i + 6];
          WellEscapedConcat(a, b, i + 6);
        }
      } else {
        WellEscapedConcat(a, b, i + 1);
      }
    }
  }

  lemma UEscapeWell(v: nat)
    requires v < 0x1_0000
    ensures WellEscapedFrom(UEscape(v), 0)
  {
    var u := UEscape(v);
    Hex4RoundTrip(v);
    assert u[2..6] == Hex4(v);
    assert WellEscapedFrom(u, 6);
  }

  /** The escape written for one code point is well escaped. */
  lemma EscapeCodePointWell(s: Text, i: nat)
    requires i < |s|
    ensures WellEscapedFrom(EscapeCodePoint(CodePointAt(s, i)), 0)
  {
    var c := CodePointAt(s, i);
    if ShortEscape(c).Some? {
      ShortShape(s, i);
      assert WellEscapedFrom([BACKSLASH, ShortEscape(c).value], 2);
    } else if c <= 0x1F {
      ControlShape(s, i);
      UEscapeWell(s[i] as nat);
    } else if c > 0xFFFF {
      PairShape(s, i);
      UEscapeWell(s[i] as nat);
      UEscapeWell(s[i + 1] as nat);
      WellEscapedConcat(UEscape(s[i] as nat), UEscape(s[i + 1] as nat), 0);
    } else {
      PlainShape(s, i);
      assert WellEscapedFrom([s[i]], 1);
    }
  }

  lemma {:induction false} EscapeFromWell(s: Text, i: nat)
    requires i <= |s|
    ensures WellEscapedFrom(EscapeFrom(s, i), 0)
    decreases |s| - i
  {
    if i < |s| {
      EscapeCodePointWell(s, i);
      EscapeFromWell(s, i + Width(s, i));
      WellEscapedConcat(EscapeCodePoint(CodePointAt(s, i)), EscapeFrom(s, i + Width(s, i)), 0);
    }
  }

  /** escapeString writes only escapes from the table or with four hexadecimal
      digits, and no raw control character. */
  lemma EscapedWell(s: Text)
    ensures WellEscapedFrom(Escaped(s), 0)
  {
    EscapeFromWell(s, 0);
  }
}
