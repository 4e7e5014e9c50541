# miktim/JSON in Dafny

A model of the core of miktim/JSON, a small Java library that reads JSON text into
plain Java objects and writes Java objects back out as JSON text. The model covers
the library's parsers, generators, JSON object classes, the cast adapter and the
reflection-based converters between JSON objects and Java objects. Java's values
are one datatype (`Values.JVal`: null, Boolean, Number, Character, String, arrays
with their component class, maps tagged with their class, Collections, host objects
and other objects). A LinkedHashMap is a sequence of entries in insertion order.
Text is a sequence of UTF-16 code units.

Each Java class keeps its own form. A parser's Reader and cursor fields become the
class `Readers.Reader`, whose methods update them. Each parser is a class whose
recursive methods are proved equal to a recursive specification function over the
input text and a cursor state. Each generator is a class that appends to its stream
and is proved against a text-producing function. The JSON object classes are
classes over their member sequence. The converters are classes holding their
ignore lists. Their unload/load walks are loops over the accessible fields, proved
against recursive specification functions.

Modules, one per Java class of the core:

- `JavaLang`: the pieces of the Java platform the code relies on. These are
  UTF-16 code units, exceptions, two's-complement narrowing, `Long.toString`,
  `String.format("%04X")` and `Integer.parseInt(_, 16)`.
- `Values`: Java objects as the library sees them, LinkedHashMap `put`, `get`,
  `containsKey` and `remove`, `String.valueOf`, and `Array.get` along an index
  path.
- `Cursor` and `Readers`: the character cursor shared by all four parsers
  (`getChar`, `nextChars`, `skipWhitespaces`, `expectedChar`), as functions on a
  cursor state and as a Reader object.
- `Escape`: `escapeString` of `src/org/miktim/json/JSON.java`. The copy in
  `srcs/JSON.java` (lines 314-333) is the same text, and the one in
  `src/org/miktim/json/JSONGenerator.java` (lines 95-117) differs only in writing
  `c <= 0x1F` as `c < 0x20`, so one definition serves all three.
- `Numbers`: `new BigDecimal(text)`, `Long.parseLong`, `Number.intValue()` and its
  kin, as far as the library uses them.
- `JSON`: the parser, `stringifyObject` and `unescapeString` of
  `src/org/miktim/json/JSON.java`, with `parse(stringify(v)) == v`.
- `JSONMembers`: the map side of `src/org/miktim/json/JSON.java` (pair
  constructor, `set`, `get` by name and indices, `listNames`, `normalize`).
- `JSONAdapter`: `JSONAdapter.cast` by sample and by class.
- `ParserJSON` and `JSONparser`: the two stream parsers. `ParsersExamples`
  compares them on concrete inputs.
- `JsonClass`: `Json`, the JSON object class the stream parsers build.
- `JSONGenerator` and `JSONgenerator`: the two stream generators, with indentation.
- `HostReflect`: what the converters read through reflection. This covers the
  class chain, declared fields with their modifiers, `getDeclaredFields` order,
  field values, and the replacer and reviver hooks of a converter.
- `AbstractObject`, `ObjectConverter`, `JSONObject`: the three converters between
  Java objects and JSON objects.
- `SamplesJSON`: the self-contained `srcs/JSON.java`. `SamplesExamples` and
  `JSONExamples` pin error offsets on concrete inputs.

## Model

| member | source | states |
|---|---|---|
| JavaLang.Wrap | src/org/miktim/json/JSONAdapter.java:105-117 | Narrowing keeps the value modulo 2^bits, and the result is in the signed range. A value already in range is unchanged. |
| JavaLang.Clamp | src/org/miktim/json/JSONAdapter.java:98-103 | A floating value converted to int or long saturates: in range it is unchanged, below the range it gives the minimum, above it the maximum. |
| JavaLang.HexDigitRoundTrip | src/org/miktim/json/JSON.java:346-347 | Character.digit(_, 16) reads back every upper-case hexadecimal digit that `%X` writes. |
| JavaLang.Hex4RoundTrip | src/org/miktim/json/JSON.java:346-347 | Integer.parseInt(_, 16) of the four digits `%04X` writes for v gives v. |
| JavaLang.RunDigitMeaning | src/org/miktim/json/JSON.java:346-347 | A code unit is a digit of a table of ten-digit runs exactly when it lies in one run, and its value is its offset from that run's zero. |
| JavaLang.HexValueMeaning | src/org/miktim/json/JSON.java:346-347 | Character.digit(c, 16), which Integer.parseInt(_, 16) uses, is defined exactly on the Latin letters A-F and a-f (ASCII or fullwidth) and on the decimal digits of every script in the Basic Multilingual Plane. A digit reads as its offset from its run's zero. |
| JavaLang.HexValueBeyondAscii | src/org/miktim/json/JSON.java:346-347 | The Arabic-Indic digits read 0-9, and the fullwidth A-F and a-f read 10-15. |
| JavaLang.ParseIntRadix16 | src/org/miktim/json/JSON.java:346-347 | Integer.parseInt(_, 16) fails on empty text and on a lone sign. A success consists of digits that Character.digit(_, 16) accepts, after an optional sign. |
| Values.Keys | src/org/miktim/json/JSON.java:85-87 | keySet() lists the keys in insertion order, one per entry. |
| Values.IndexOf | src/org/miktim/json/JSON.java:89-91 | The first position holding key k, and none exactly when k is not a key. |
| Values.LookupHasKey | src/org/miktim/json/JSON.java:89-91 | containsKey(k) holds exactly when get(k) finds a value. |
| Values.PutPresent | src/org/miktim/json/JSON.java:93-96 | put of a present key keeps the key order and the other values and replaces that key's value. |
| Values.PutAbsent | src/org/miktim/json/JSON.java:93-96 | put of a new key appends it and changes nothing else. Keys stay unique. |
| Values.PutSemantics | src/org/miktim/json/JSON.java:93-96 | put in both cases: afterwards get(k) is v, other keys are unchanged, keys stay unique. |
| Values.PutEntries | src/org/miktim/json/JSON.java:93-96 | After put, every entry was there before or is the new one. |
| Values.PutNamed | src/org/miktim/json/JSON.java:36 | put of a String or null key keeps a LinkedHashMap<String, Object> one. |
| Values.RemoveSemantics | srcs/JSON.java:89-91 | remove(k) leaves k absent, the other keys' values unchanged and the keys unique. |
| Values.RemoveEntries | srcs/JSON.java:89-91 | Every entry left after remove was there before. |
| Values.ValueOf | src/org/miktim/json/JSON.java:68 | String.valueOf gives "null" for null and the string itself for a String. |
| Values.ArrayGet | src/org/miktim/json/JSON.java:102 | Array.get succeeds exactly on an array and an index within it, and returns that element. |
| Values.ArrayPathConcat | src/org/miktim/json/JSON.java:99-105 | Indexing by a longer index path is indexing by its first part, then by the rest. |
| Cursor.Start | src/org/miktim/json/JSON.java:279-282 | The cursor `parse` resets to (lastChar 0x20, offset -1) is a valid state of any input. |
| Cursor.GetChar | src/org/miktim/json/JSON.java:163-170 | getChar fails with "Unexpected EOT" at the offset exactly when lastChar is already end of text. Otherwise it moves one code unit on and adds one to the offset. |
| Cursor.NextChars | src/org/miktim/json/JSON.java:184-191 | nextChars collects a non-empty run exactly when lastChar is in the table, and stops on a code unit outside it. |
| Cursor.NextCharsRun | src/org/miktim/json/JSON.java:184-191 | nextChars returns exactly the maximal run of table characters at the cursor and stops after it. |
| Cursor.NextCharsText | src/org/miktim/json/JSON.java:184-191 | Everything nextChars collects is in the table, starts with lastChar, and is the input slice it moved over. |
| Cursor.SkipWhitespaces | src/org/miktim/json/JSON.java:193-196 | skipWhitespaces never moves back and stops on a non-whitespace code unit. |
| Cursor.SkipTwice | src/org/miktim/json/JSON.java:193-196 | Skipping whitespace twice is skipping it once. |
| Cursor.ExpectedChar | src/org/miktim/json/JSON.java:198-204 | expectedChar(c) never fails. It answers true exactly when lastChar after whitespace is c, and then it has consumed c. Otherwise the cursor is left after the whitespace. |
| Cursor.ExpectedAfterSkip | src/org/miktim/json/JSON.java:198-204 | expectedChar after skipWhitespaces is the same as expectedChar. |
| Cursor.NewParseException | src/org/miktim/json/JSON.java:155-161 | newParseException reports the offset less the lexeme's length. |
| Readers.Reader.constructor | src/org/miktim/json/JSON.java:279-282 | A fresh reader over the text, with the cursor `parse` resets to. |
| Readers.Reader.GetChar | src/org/miktim/json/JSON.java:163-170 | The reader's getChar updates lastChar and offset as Cursor.GetChar says and returns its result. |
| Readers.Reader.NextChars | src/org/miktim/json/JSON.java:184-191 | The StringBuilder loop returns the run and leaves the cursor where Cursor.NextChars says. |
| Readers.Reader.SkipWhitespaces | src/org/miktim/json/JSON.java:193-196 | The reader's skipWhitespaces moves the cursor as Cursor.SkipWhitespaces says and returns the new lastChar. |
| Readers.Reader.ExpectedChar | src/org/miktim/json/JSON.java:198-204 | The reader's expectedChar returns the answer Cursor.ExpectedChar gives and leaves the cursor in the state it gives. |
| Escape.CodePointAt | src/org/miktim/json/JSON.java:369 | codePointAt is above 0xFFFF exactly at a high surrogate followed by a low one. Otherwise it is the code unit itself. |
| Escape.ShortEscapeInverse | src/org/miktim/json/JSON.java:330-331 | The eight two-character escapes of escapeString are read back by unescapeString's table (CHARS_UNESCAPED against ESCAPED_CHARS). |
| Escape.UEscape | src/org/miktim/json/JSON.java:374 | `\uXXXX` is six code units: a backslash, `u` and the four upper-case digits. |
| Escape.EscapeString | src/org/miktim/json/JSON.java:366-385 | The StringBuilder loop over code points returns Escaped(s), the concatenated escapes of its code points. |
| Escape.SurrogateRoundTrip | src/org/miktim/json/JSON.java:375-378 | `(c >>> 10) + 0xD800` and `(c & 0x3FF) + 0xDC00` of a supplementary code point give back its two surrogates. |
| Escape.ShortShape | src/org/miktim/json/JSON.java:370-372 | A character in UNESCAPED_CHARS is written as its two-character escape, which reads back to it. |
| Escape.ControlShape | src/org/miktim/json/JSON.java:373-374 | Any other control character is written as `\u00XX`. |
| Escape.PairShape | src/org/miktim/json/JSON.java:375-379 | A supplementary code point is written as two `\uXXXX` escapes of its surrogates and consumes two code units. |
| Escape.PlainShape | src/org/miktim/json/JSON.java:380-382 | Any other code unit is copied, and it is neither a quote, a backslash nor a control character. |
| Escape.EscapedNoControl | src/org/miktim/json/JSON.java:366-385 | escapeString leaves no raw control character in its output. |
| Escape.EscapedScans | src/org/miktim/json/JSON.java:237-244 | escapeString's output has no bare quote and no dangling backslash, so the parser's string scan reads all of it. |
| Escape.EscapedWell | src/org/miktim/json/JSON.java:366-385 | escapeString's output uses only known two-character escapes and well-formed `\uXXXX` escapes. |
| Numbers.ParseLong | src/org/miktim/json/ParserJSON.java:170 | Long.parseLong succeeds only with a value in the 64-bit range. |
| Numbers.IntValue | src/org/miktim/json/JSONAdapter.java:98-103 | intValue() of an integral or BigDecimal number keeps its whole part modulo 2^32. Of a Double or Float it saturates. The result is always in int range. |
| Numbers.LongValue | src/org/miktim/json/JSONAdapter.java:119-124 | longValue() keeps the whole part modulo 2^64, or saturates for Double and Float. The result is in long range. |
| Numbers.NarrowValue | src/org/miktim/json/JSONAdapter.java:105-117 | shortValue() and byteValue() are the low bits of intValue(), in range. |
| Numbers.ParseLongIntText | src/org/miktim/json/ParserJSON.java:170 | Long.parseLong(Long.toString(v)) == v. |
| Numbers.WholeIntText | src/org/miktim/json/JSON.java:266 | The text Long.toString writes is a lexeme new BigDecimal accepts (its exponent and scale are 0), and its value is v. |
| Numbers.ExponentPastInt | src/org/miktim/json/JSON.java:264-270 | 1e followed by any number from 2147483648 up is in the decimal grammar, but new BigDecimal refuses it: the exponent is outside int range, so the parser reports "Unparseable number". |
| Numbers.DecimalLexemeChars | src/org/miktim/json/JSON.java:263-264 | Every BigDecimal lexeme is made of the parser's number characters and starts with one. |
| JSON.UnescapeEscape | src/org/miktim/json/JSON.java:333-385 | unescapeString(escapeString(s)) == s for every string, surrogate pairs included. |
| JSON.UnescapeString | src/org/miktim/json/JSON.java:333-361 | The loop over the char array returns what the per-escape specification gives. A lone trailing backslash runs off the array. A bad or short `\u` escape raises a ParseException at the backslash. An unknown escape `\x` gives x. The four `\u` digits are those `Character.digit(_, 16)` takes, other scripts' decimal digits included. |
| JSON.UnescapePaired | src/org/miktim/json/JSON.java:344-353 | On text the string scan collected, the only way unescapeString can fail is an unparseable `\u` escape. |
| JSON.ScanString | src/org/miktim/json/JSON.java:237-244 | The string scan only moves forward and stops on the closing quote. |
| JSON.ScanStringPaired | src/org/miktim/json/JSON.java:237-244 | The scan keeps what it had and adds text in which every backslash has its partner. Its only failure is "Unexpected EOT" at the end of the input. |
| JSON.ParseValue | src/org/miktim/json/JSON.java:206-277 | parseObject only moves forward, and on success leaves the cursor on a non-whitespace character or at end of text. |
| JSON.ParseMembers | src/org/miktim/json/JSON.java:212-220 | The members loop only moves forward. |
| JSON.ParseElements | src/org/miktim/json/JSON.java:228-230 | The elements loop only moves forward. |
| JSON.ParseScalar | src/org/miktim/json/JSON.java:237-276 | The string, literal and number branches only move forward and skip the trailing whitespace. A number lexeme is taken only as `new BigDecimal` takes it, with exponent and scale in the int range. |
| JSON.Parser.constructor | src/org/miktim/json/JSON.java:139-153 | A new parser holds no reader yet. |
| JSON.Parser.ParseObject | src/org/miktim/json/JSON.java:206-277 | The recursive method over the Reader returns what ParseValue gives and leaves the reader in the state it gives. |
| JSON.Parser.ReadMembers | src/org/miktim/json/JSON.java:212-223 | The do-while over the members returns what ParseMembers gives and leaves the reader in the state it gives. |
| JSON.Parser.ReadElements | src/org/miktim/json/JSON.java:228-234 | The do-while over the elements returns what ParseElements gives and leaves the reader in the state it gives. |
| JSON.Parser.ReadScalar | src/org/miktim/json/JSON.java:237-276 | The string, literal, number and error branches return what ParseScalar gives. |
| JSON.Parser.ReadString | src/org/miktim/json/JSON.java:238-244 | The StringBuilder loop returns what ScanString gives. |
| JSON.Parser.Parse | src/org/miktim/json/JSON.java:279-288 | parse(reader) returns exactly JSON.parse of the text: one value, then "EOT expected" unless the text has ended. |
| JSON.ParseValueFacts | src/org/miktim/json/JSON.java:206-277 | parseObject returns a value parse can build (distinct String member names, Object[] arrays, BigDecimal numbers), or a ParseException whose offset points at the offending lexeme or token. |
| JSON.ParseMembersFacts | src/org/miktim/json/JSON.java:212-223 | The members loop keeps member names distinct Strings: a repeated name keeps its first place and takes the last value. Its errors are located. |
| JSON.PutMembers | src/org/miktim/json/JSON.java:215 | `set` of a String name and a parsed value keeps the members well formed. |
| JSON.ParseElementsFacts | src/org/miktim/json/JSON.java:228-234 | The elements loop collects parsed values only, and its errors are located. |
| JSON.ParseScalarFacts | src/org/miktim/json/JSON.java:237-274 | A string, true, false, null or a lexeme new BigDecimal accepts (decimal grammar, exponent and scale in int range), or a ParseException: "Unknown literal" and "Unparseable number" at the start of the lexeme, "Unexpected char" at that character. |
| JSON.ParsedFacts | src/org/miktim/json/JSON.java:279-288 | JSON.parse returns a value of that shape or throws a located ParseException. |
| JSON.ParseAfterSkip | src/org/miktim/json/JSON.java:206-209 | Leading whitespace does not change what parseObject reads. |
| JSON.ElementStep | src/org/miktim/json/JSON.java:228-230 | After an element, a comma continues the loop and anything else ends it. |
| JSON.MemberStep | src/org/miktim/json/JSON.java:212-220 | After a name, a colon and a value, the member is `set` and a comma continues the loop. |
| JSON.StringifyStart | src/org/miktim/json/JSON.java:293-319 | The generated text starts with a non-whitespace character, with `{` exactly for a map and `[` exactly for an array. |
| JSON.ParseStringified | src/org/miktim/json/JSON.java:206-319 | Wherever stringifyObject's text of v stands in an input, followed by the end, a comma or a closing bracket, parseObject reads back v and stops right after it. |
| JSON.StringifyParsed | src/org/miktim/json/JSON.java:38-48 | JSON.parse(JSON.stringify(v)) == v for every value parse can return. |
| JSONMembers.PairsMembers | src/org/miktim/json/JSON.java:65-70 | The pair constructor fails exactly on an odd count (IndexOutOfBoundsException). Otherwise every name given is a member, every member is one of the pairs given, and member names are Strings. |
| JSONMembers.PairsOutcome | src/org/miktim/json/JSON.java:67-69 | From any point of the loop, it fails exactly when an odd number of arguments remain, and it keeps member names Strings. |
| JSONMembers.PairsNames | src/org/miktim/json/JSON.java:67-69 | Every name the loop puts is a member at the end. |
| JSONMembers.PairsFrom | src/org/miktim/json/JSON.java:67-69 | Every member at the end was there before or is one of the pairs put. |
| JSONMembers.PairsKeep | src/org/miktim/json/JSON.java:67-69 | A member present before the loop is still present after it. |
| JSONMembers.TextMembers | src/org/miktim/json/JSON.java:54-57 | `new JSON(text)` holds members parse can produce, or fails: a null top value with NullPointerException, another non-object with ClassCastException. |
| JSONMembers.TextMembersStringified | src/org/miktim/json/JSON.java:54-57 | `new JSON(stringify(members))` gives back those members. |
| JSONMembers.JSON.constructor | src/org/miktim/json/JSON.java:36 | A new JSON has no members. |
| JSONMembers.JSON.FromPairs | src/org/miktim/json/JSON.java:65-70 | The loop of `set` calls succeeds exactly on an even count and builds the members Pairs specifies. |
| JSONMembers.JSON.FromText | src/org/miktim/json/JSON.java:54-57 | `new JSON(text)` holds the members TextMembers gives, or throws its exception. |
| JSONMembers.JSON.ListNames | src/org/miktim/json/JSON.java:85-87 | listNames() gives the member names in insertion order, one per member. |
| JSONMembers.JSON.Set | src/org/miktim/json/JSON.java:93-96 | set(name, value) is LinkedHashMap.put: afterwards get(name) is value, other names are unchanged, and a new name goes last. |
| JSONMembers.JSON.Member | src/org/miktim/json/JSON.java:100 | get(name) is the member's value, or null for an absent name. |
| JSONMembers.JSON.Get | src/org/miktim/json/JSON.java:99-105 | get(name, indices...) applies Array.get with each index in turn, failing as the first bad index does. |
| JSONMembers.JSON.Normalize | src/org/miktim/json/JSON.java:135-137 | normalize() reparses its own text, and members parse could have produced come back unchanged. |
| JSONAdapter.ElementClassFacts | src/org/miktim/json/JSONAdapter.java:48-58 | The element class has every array dimension stripped and a primitive boxed; an array class has the element class of its component. |
| JSONAdapter.GetElementClass | src/org/miktim/json/JSONAdapter.java:48-58 | The loop over getComponentType, then the boxing of a primitive, gives that element class. |
| JSONAdapter.CastValue | src/org/miktim/json/JSONAdapter.java:84-153 | An adapter fails only with ClassCastException, exactly when a numeric adapter gets a non-null non-Number or the char adapter gets a non-null value that is neither a Character nor a String. |
| JSONAdapter.NullDefaults | src/org/miktim/json/JSONAdapter.java:84-153 | For null each adapter gives 0 of its own type, false, the char 0, "null", or null. |
| JSONAdapter.IntegralTruncation | src/org/miktim/json/JSONAdapter.java:98-124 | The int, long, byte and short adapters give a value in the target range that agrees with the number's whole part modulo 2^bits. |
| JSONAdapter.CharOfString | src/org/miktim/json/JSONAdapter.java:140-146 | The char adapter takes a String's first character, or the char 0 for "". |
| JSONAdapter.CastItemsShape | src/org/miktim/json/JSONAdapter.java:39-41 | The array loop gives one element per element of the value, each the cast of the element at the same index and held by the component type. |
| JSONAdapter.CastArrayShape | src/org/miktim/json/JSONAdapter.java:35-42 | A cast to an array class gives an array of that component type and of the value's length (0 for null), element by element. It fails only when an element is not an instance of the component type, supertypes included. |
| JSONAdapter.CastNonArray | src/org/miktim/json/JSONAdapter.java:36 | Casting a value that is neither null nor an array to an array class fails with IllegalArgumentException. |
| JSONAdapter.InstanceOfOwnClass | src/org/miktim/json/JSONAdapter.java:40 | Array.set into a reference array checks instanceof. Every value is an instance of Object, and a value that is not an array is an instance of its own class. |
| JSONAdapter.CastItemsInstances | src/org/miktim/json/JSONAdapter.java:39-41 | Under the identity adapter, elements that are null or instances of the component class go into the new array unchanged. The instances include those of subclasses and implementers, such as a Long in a Number[]. |
| JSONAdapter.LongsIntoNumberArray | src/org/miktim/json/JSONAdapter.java:34-45 | cast(new Object[]{1L, 2L}, Number[].class) gives a Number[] holding the same Longs. |
| JSONAdapter.Cast | src/org/miktim/json/JSONAdapter.java:34-46 | The method fills a new array by recursive casts and returns what CastSpec gives. An element is stored when it is an instance of the component class, its superclasses and interfaces included. |
| JSONAdapter.CastToClass | src/org/miktim/json/JSONAdapter.java:20-26 | cast(v, null) is null. |
| JSONAdapter.CastByClass | src/org/miktim/json/JSONAdapter.java:20-26 | cast(v, cls) picks the adapter of the element class and returns what CastToClass gives, so a Number[] class takes Long elements. |
| JSONAdapter.CastBySample | src/org/miktim/json/JSONAdapter.java:12-17 | cast(v, null sample) is null. |
| JSONAdapter.CastConforming | src/org/miktim/json/JSONAdapter.java:20-46 | Casting a value to a class it already has, down to every element, gives it back unchanged. |
| JSONAdapter.SampleConforming | src/org/miktim/json/JSONAdapter.java:12-17 | Casting by a sample of the value's own class gives the value back. |
| JSONAdapter.CastItemsConforming | src/org/miktim/json/JSONAdapter.java:39-41 | The array loop over conforming elements gives them back. |
| JSONAdapter.ScalarConforming | src/org/miktim/json/JSONAdapter.java:45 | A conforming value passes its class's adapter unchanged. |
| JSONAdapter.BoxConforming | src/org/miktim/json/JSONAdapter.java:91-138 | A box within the range of its type passes its own adapter unchanged. |
| ParserJSON.ToNumber | src/org/miktim/json/ParserJSON.java:164-171 | toNumber gives a Long in the 64-bit range exactly for a lexeme with no point or exponent mark, a Double for one with them, or NumberFormatException. |
| ParserJSON.ToNumberLongText | src/org/miktim/json/ParserJSON.java:164-171 | toNumber(Long.toString(v)) is the Long v. |
| ParserJSON.ToNumberText | src/org/miktim/json/ParserJSON.java:164-171 | toNumber of the text of a number toNumber gave gives the same number again. |
| ParserJSON.StrictStep | src/org/miktim/json/ParserJSON.java:179-205 | One turn of the strict loop moves forward and refuses a raw control character with "Unescaped control char" at its index. The `\u` digits are those `Character.digit(_, 16)` takes. |
| ParserJSON.StrictStepAgrees | src/org/miktim/json/ParserJSON.java:176-208 | Where the strict step succeeds it reads what JSON.unescapeString reads. It refuses more only for a control character or an unknown escape, and it fails the same way on a bad `\u` escape. |
| ParserJSON.StrictAgrees | src/org/miktim/json/ParserJSON.java:176-208 | Whenever the strict unescapeString succeeds, it agrees with JSON.unescapeString. |
| ParserJSON.WellEscapedAccepted | src/org/miktim/json/ParserJSON.java:176-208 | Text with only known two-character escapes, well-formed `\u` escapes and no control character is accepted. |
| ParserJSON.StrictUnescapeEscape | src/org/miktim/json/ParserJSON.java:176-208 | The strict unescapeString undoes escapeString for every string. |
| ParserJSON.StrictRefusesControl | src/org/miktim/json/ParserJSON.java:201-203 | A raw control character anywhere ahead makes the strict unescapeString fail. |
| ParserJSON.StrictStepPrintable | src/org/miktim/json/ParserJSON.java:201-203 | Every code unit a successful step reads is at least a space. |
| ParserJSON.StrictRefusesUnknownEscape | src/org/miktim/json/ParserJSON.java:192-199 | An unknown two-character escape fails with "Wrong two-character escape" at its backslash. |
| ParserJSON.StrictUnescapeString | src/org/miktim/json/ParserJSON.java:176-208 | The loop over the char array returns what the strict specification gives, which reads `\u` digits as `Character.digit(_, 16)` does. |
| ParserJSON.StrictErrors | src/org/miktim/json/ParserJSON.java:176-208 | On text the string scan collected, every failure of the strict unescapeString is a ParseException at an index inside that text: at the control character or at the backslash. |
| ParserJSON.ParseValue | src/org/miktim/json/ParserJSON.java:94-162 | parseObject only moves forward, and on success leaves the cursor on a non-whitespace character. |
| ParserJSON.ParseObjectBody | src/org/miktim/json/ParserJSON.java:97-112 | The object branch only moves forward. |
| ParserJSON.ParseArrayBody | src/org/miktim/json/ParserJSON.java:113-123 | The array branch only moves forward. |
| ParserJSON.ParseMembers | src/org/miktim/json/ParserJSON.java:100-108 | The members loop only moves forward. |
| ParserJSON.ParseElements | src/org/miktim/json/ParserJSON.java:116-118 | The elements loop only moves forward. |
| ParserJSON.ParseScalar | src/org/miktim/json/ParserJSON.java:125-160 | The string, literal and number branches only move forward and skip the trailing whitespace. |
| ParserJSON.Parser.constructor | src/org/miktim/json/ParserJSON.java:28-45 | A new parser reads the given text from lastChar 0x20 and offset -1. |
| ParserJSON.Parser.ParseObject | src/org/miktim/json/ParserJSON.java:94-162 | The recursive method returns what ParseValue gives and leaves the reader in the state it gives. |
| ParserJSON.Parser.ReadMembers | src/org/miktim/json/ParserJSON.java:100-111 | The do-while over the members returns what ParseMembers gives. |
| ParserJSON.Parser.ReadElements | src/org/miktim/json/ParserJSON.java:116-121 | The do-while over the elements returns what ParseElements gives. |
| ParserJSON.Parser.ReadScalar | src/org/miktim/json/ParserJSON.java:125-160 | The string, literal, number and error branches return what ParseScalar gives. |
| ParserJSON.Parser.ReadString | src/org/miktim/json/ParserJSON.java:126-132 | The StringBuilder loop returns what the string scan gives. |
| ParserJSON.ParseValueFacts | src/org/miktim/json/ParserJSON.java:94-162 | parseObject returns Longs, Doubles, Strings, Booleans, null, Object[] arrays and Json maps with distinct String names. Otherwise it throws a ParseException that is located: unknown literals and bad numbers just past the lexeme, an unexpected char at its offset and named by its code, escape errors inside the string. |
| ParserJSON.ObjectBodyFacts | src/org/miktim/json/ParserJSON.java:97-112 | The object branch gives such a map or a located error. |
| ParserJSON.ArrayBodyFacts | src/org/miktim/json/ParserJSON.java:113-123 | The array branch gives such an array or a located error. |
| ParserJSON.ParseMembersFacts | src/org/miktim/json/ParserJSON.java:100-108 | superPut keeps member names distinct Strings: a repeated name keeps its place and takes the last value. Errors are located. |
| ParserJSON.PutMembers | src/org/miktim/json/ParserJSON.java:104 | superPut of a String name and a parsed value keeps the members well formed. |
| ParserJSON.ParseElementsFacts | src/org/miktim/json/ParserJSON.java:116-118 | The elements loop collects parsed values only. Its errors are located. |
| ParserJSON.ParseScalarFacts | src/org/miktim/json/ParserJSON.java:125-159 | A scalar branch gives a String, a literal or a number, or a located ParseException. |
| ParserJSON.RunOccurs | src/org/miktim/json/ParserJSON.java:72-79 | nextChars over the literal or number table returns a non-empty lexeme found in the input where the run began, and the offset moves past it. |
| JSONparser.CharError | src/org/miktim/json/JSONparser.java:166-168 | "Unexpected char" is given offset + 1 and a one-character lexeme, so newParseException points at the character itself. |
| JSONparser.ParseValue | src/org/miktim/json/JSONparser.java:101-172 | parseObject only moves forward, and on success leaves the cursor on a non-whitespace character. |
| JSONparser.ParseObjectBody | src/org/miktim/json/JSONparser.java:104-119 | The object branch only moves forward. |
| JSONparser.ParseArrayBody | src/org/miktim/json/JSONparser.java:120-131 | The array branch only moves forward. |
| JSONparser.ParseMembers | src/org/miktim/json/JSONparser.java:107-115 | The members loop only moves forward. |
| JSONparser.ParseElements | src/org/miktim/json/JSONparser.java:123-125 | The elements loop only moves forward. |
| JSONparser.ParseScalar | src/org/miktim/json/JSONparser.java:132-170 | The string, literal and number branches only move forward and skip the trailing whitespace. |
| JSONparser.Parser.constructor | src/org/miktim/json/JSONparser.java:31-48 | A new parser reads the given text from lastChar 0x20 and offset -1. |
| JSONparser.Parser.ParseObject | src/org/miktim/json/JSONparser.java:101-172 | The recursive method returns what ParseValue gives and leaves the reader in the state it gives. |
| JSONparser.Parser.ReadMembers | src/org/miktim/json/JSONparser.java:107-118 | The do-while over the members returns what ParseMembers gives. |
| JSONparser.Parser.ReadElements | src/org/miktim/json/JSONparser.java:123-129 | The do-while over the elements returns what ParseElements gives. |
| JSONparser.Parser.ReadScalar | src/org/miktim/json/JSONparser.java:132-169 | The string, literal, number and error branches return what ParseScalar gives. |
| JSONparser.Parser.ReadString | src/org/miktim/json/JSONparser.java:133-139 | The StringBuilder loop returns what the string scan gives. |
| JSONparser.LenientErrors | src/org/miktim/json/JSONparser.java:140 | On scanned text the lenient unescapeString fails only on a bad `\u` escape, at its backslash inside the string. |
| JSONparser.ParseValueFacts | src/org/miktim/json/JSONparser.java:101-172 | parseObject returns Longs, Doubles, Strings, Booleans, null, Object[] arrays and Json maps with distinct String names. Otherwise it throws a ParseException that newParseException moved back to the start of the lexeme or token. |
| JSONparser.ObjectBodyFacts | src/org/miktim/json/JSONparser.java:104-119 | The object branch gives such a map or a located error. |
| JSONparser.ArrayBodyFacts | src/org/miktim/json/JSONparser.java:120-131 | The array branch gives such an array or a located error. |
| JSONparser.ParseMembersFacts | src/org/miktim/json/JSONparser.java:107-115 | Json.set keeps member names distinct Strings, and errors are located. |
| JSONparser.ParseElementsFacts | src/org/miktim/json/JSONparser.java:123-125 | The elements loop collects parsed values only, and its errors are located. |
| JSONparser.ParseScalarFacts | src/org/miktim/json/JSONparser.java:132-169 | A scalar branch gives a String, a literal or a number, or a located ParseException. |
| JSONGenerator.Break | src/org/miktim/json/JSONGenerator.java:39-49 | write(obj, level) adds nothing when intend is not positive. Otherwise it adds a newline and then exactly intend*level spaces (none at level 0 or below). |
| JSONGenerator.CompactGenerated | src/org/miktim/json/JSONGenerator.java:53-93 | Without indentation generateObject writes exactly what JSON.stringifyObject returns, at any level. |
| JSONGenerator.CompactItems | src/org/miktim/json/JSONGenerator.java:65-69 | Without indentation the array loop's first n turns write the first n elements as stringifyObject joins them. |
| JSONGenerator.CompactEntries | src/org/miktim/json/JSONGenerator.java:76-83 | Without indentation the map loop's first n turns write the first n members as stringifyObject joins them. |
| JSONGenerator.CompactMember | src/org/miktim/json/JSONGenerator.java:77-81 | Without indentation one turn of the map loop writes the separator and the member as stringifyObject does. |
| JSONGenerator.CompactEntry | src/org/miktim/json/JSONGenerator.java:79-81 | Without indentation a member is written as stringifyObject writes it. |
| JSONGenerator.StringifyItemsSnoc | src/org/miktim/json/JSON.java:303-306 | stringifyObject's array loop, one element more: the text so far, the separator, and the element. |
| JSONGenerator.StringifyEntriesSnoc | src/org/miktim/json/JSON.java:311-318 | stringifyObject's map loop, one member more: the text so far, the separator, and the member. |
| JSONGenerator.ScalarTokens | src/org/miktim/json/JSONGenerator.java:55-61 | null, Numbers and Booleans are written by String.valueOf. A String is written quoted and escaped with no character below a space, and the strict unescapeString reads it back. |
| JSONGenerator.IndentedArray | src/org/miktim/json/JSONGenerator.java:62-72 | With indentation each element goes on its own line, indented one level deeper than the call, and the `]` goes on a new line at the call's level. |
| JSONGenerator.IndentedMap | src/org/miktim/json/JSONGenerator.java:73-86 | With indentation each member goes on its own line, indented one level deeper, and the `}` goes on a new line at the call's level. |
| JSONGenerator.NamedKeys | src/org/miktim/json/JSONGenerator.java:79 | Writing every key through String.valueOf gives String keys with the same values, in the same order. |
| JSONGenerator.NamedKeysWritten | src/org/miktim/json/JSONGenerator.java:78-79 | A map and the same map with its keys made Strings by String.valueOf are written alike: a null key is written as "null". |
| JSONGenerator.NamedEntriesTo | src/org/miktim/json/JSONGenerator.java:76-83 | The same for the first n turns of the map loop. |
| JSONGenerator.NamedMember | src/org/miktim/json/JSONGenerator.java:77-82 | The same for one turn of the map loop. |
| JSONGenerator.OtherObjects | src/org/miktim/json/JSONGenerator.java:87-92 | A Collection is written as its toArray() one level deeper. Any other object is written as its quoted String.valueOf. |
| JSONGenerator.Generator.constructor | src/org/miktim/json/JSONGenerator.java:29-33 | A new generator over an empty stream with the given indentation. |
| JSONGenerator.Generator.Write | src/org/miktim/json/JSONGenerator.java:35-37 | write(obj) appends the text. |
| JSONGenerator.Generator.WriteAt | src/org/miktim/json/JSONGenerator.java:39-49 | write(obj, level) appends the text and its Break. |
| JSONGenerator.Generator.WriteString | src/org/miktim/json/JSONGenerator.java:59-61 | The String branch appends the quoted escapeString. |
| JSONGenerator.Generator.GenerateObject | src/org/miktim/json/JSONGenerator.java:53-93 | generateObject appends exactly Generated(v, level). |
| JSONGenerator.Generator.GenerateArray | src/org/miktim/json/JSONGenerator.java:62-72 | The array branch appends exactly the array's text. |
| JSONGenerator.Generator.WriteEntry | src/org/miktim/json/JSONGenerator.java:79-81 | The body of the map loop appends the member's text. |
| JSONGenerator.Generator.GenerateMap | src/org/miktim/json/JSONGenerator.java:73-86 | The map branch appends exactly the map's text. |
| JSONgenerator.Generator.constructor | src/org/miktim/json/JSONgenerator.java:31-35 | A new generator over an empty stream with the given indentation. |
| JSONgenerator.Generator.Write | src/org/miktim/json/JSONgenerator.java:37-39 | write(obj) appends the text. |
| JSONgenerator.Generator.WriteAt | src/org/miktim/json/JSONgenerator.java:41-51 | write(obj, level) appends the text, then the newline and intend*level spaces when intend is positive. |
| JSONgenerator.Generator.WriteString | src/org/miktim/json/JSONgenerator.java:60-62 | The String branch appends the quoted JSON.escapeString. |
| JSONgenerator.Generator.GenerateObject | src/org/miktim/json/JSONgenerator.java:55-93 | generateObject appends exactly the text JSONGenerator writes for the same value. |
| JSONgenerator.Generator.GenerateArray | src/org/miktim/json/JSONgenerator.java:63-73 | The array branch appends exactly the array's text. |
| JSONgenerator.Generator.WriteEntry | src/org/miktim/json/JSONgenerator.java:80-82 | The body of the map loop appends the member's text. |
| JSONgenerator.Generator.GenerateMap | src/org/miktim/json/JSONgenerator.java:74-87 | The map branch appends exactly the map's text. |
| JSONgenerator.CompactReadsBack | src/org/miktim/json/JSONgenerator.java:55-93 | Without indentation the generated text of a value parse can return is stringifyObject's, and JSON.parse reads it back. |
| JSONgenerator.SingletonNesting | src/org/miktim/json/JSONgenerator.java:63-73 | A one-element array is its element between two Breaks: one level deeper before it, the call's level after it. |
| JSONgenerator.SingletonItems | src/org/miktim/json/JSONgenerator.java:66-70 | The loop over one element writes its Break and then the element. |
| JSONgenerator.DeeperBreak | src/org/miktim/json/JSONgenerator.java:45-48 | Each level deeper indents by intend more spaces. |
| JSONgenerator.ItemsInOrder | src/org/miktim/json/JSONgenerator.java:66-70 | The array loop writes in index order: what the first n turns write is a prefix of what more turns write, and depends only on the first n elements. |
| JSONgenerator.PrefixItems | src/org/miktim/json/JSONgenerator.java:66-70 | The first n turns of the array loop depend only on the first n elements. |
| HostReflect.DoneCollected | src/org/miktim/json/AbstractObject.java:117-139 | After the classes before k, the walk has kept, in walk order, exactly one admitted field for every name that an admitted field met so far carries: the first such field. |
| HostReflect.WithinCollected | src/org/miktim/json/AbstractObject.java:120-135 | The same holds part-way through a class's declared fields. |
| HostReflect.StepCollected | src/org/miktim/json/AbstractObject.java:129-134 | One field of the inner loop keeps that property: it is put only when it is admitted and its name is new. |
| HostReflect.NextClass | src/org/miktim/json/AbstractObject.java:137-138 | Moving to the superclass keeps that property. |
| HostReflect.AccessibleExactly | src/org/miktim/json/AbstractObject.java:111-141 | A declared field is returned exactly when it is admitted and no admitted field of the same name comes before it in the walk. |
| HostReflect.AccessibleNames | src/org/miktim/json/AbstractObject.java:111-141 | The returned fields are in walk order (runtime class first, declaration order within a class) and have distinct names. |
| HostReflect.SlotAfterSet | src/org/miktim/json/AbstractObject.java:99-102 | Once FieldSet has taken a value, storing it changes that field's value and no other. |
| HostReflect.Widened | src/org/miktim/json/AbstractObject.java:102 | Field.set on a primitive field widens a narrower box to the field's type: the result is a box of that type, a box already of that type is kept, an integral or char value keeps its number, and a float keeps its decimal text as a double. |
| HostReflect.FieldSet | src/org/miktim/json/AbstractObject.java:99-102 | Field.set stores only a value of the field's declared type and otherwise throws IllegalArgumentException. A reference field takes a value exactly when it is assignable, and stores it as is. A primitive field takes a box exactly when the box's type widens to the field's type. It takes its own box unchanged and never takes null. |
| HostReflect.LongIntoBooleanField | src/org/miktim/json/AbstractObject.java:102 | A Long 1 revived into a boolean field passes the cast by the field's Boolean value unchanged, and Field.set then throws IllegalArgumentException. |
| HostReflect.ArrayIntoListField | src/org/miktim/json/AbstractObject.java:102 | An Object[] stored into a field declared as java.util.List throws IllegalArgumentException. |
| HostReflect.IntIntoLongField | src/org/miktim/json/AbstractObject.java:102 | An Integer 7 stored into a long field is widened to Long 7. |
| AbstractObject.GetAccessibleFields | src/org/miktim/json/AbstractObject.java:111-141 | The two loops return the fields the walk specification keeps. |
| AbstractObject.AccessibleFieldsExactly | src/org/miktim/json/AbstractObject.java:111-141 | A field is accessible exactly when it passes the modifier, package and synthetic tests and is not shadowed by an earlier field of its name. |
| AbstractObject.AccessibleFieldFacts | src/org/miktim/json/AbstractObject.java:115-137 | An accessible field is not synthetic, not an enum constant, not final, transient or native. It is private only in the runtime class, and public or protected when its class is in another package. |
| AbstractObject.Unload | src/org/miktim/json/AbstractObject.java:59-83 | unload returns what the Unloaded specification gives. |
| AbstractObject.UnloadFields | src/org/miktim/json/AbstractObject.java:67-80 | The field loop returns what UnloadFrom gives. |
| AbstractObject.UnloadFromNext | src/org/miktim/json/AbstractObject.java:68-79 | One turn of the loop skips an ignored name and a field the replacer answers IGNORED for. Otherwise it unloads a nested JsonObject and sets the member. |
| AbstractObject.UnloadFromKeys | src/org/miktim/json/AbstractObject.java:68-79 | From any turn on, the member names are those so far followed by the kept fields' names, in field order. |
| AbstractObject.UnloadStep | src/org/miktim/json/AbstractObject.java:68-79 | One turn keeps the names unique and adds the next kept name. |
| AbstractObject.UnloadKeys | src/org/miktim/json/AbstractObject.java:59-83 | When the replacer keeps the object, unload's member names are the names of the accessible fields that are neither ignored nor answered IGNORED, in order. |
| AbstractObject.UnloadValues | src/org/miktim/json/AbstractObject.java:67-80 | When the replacer keeps the object, each accessible field that is neither ignored nor answered IGNORED is stored under its name with the replacer's value, and a nested JsonObject is stored as its own unload. |
| AbstractObject.UnloadOmitsIgnored | src/org/miktim/json/AbstractObject.java:70 | An ignored name never becomes a member. |
| AbstractObject.UnloadOmitsReplaced | src/org/miktim/json/AbstractObject.java:72-73 | A field the replacer answers IGNORED for never becomes a member. |
| AbstractObject.KeptOmits | src/org/miktim/json/AbstractObject.java:70-73 | A name whose every field is ignored or answered IGNORED is not kept. |
| AbstractObject.Load | src/org/miktim/json/AbstractObject.java:85-109 | load returns what the Loaded specification gives, including the IllegalArgumentException of a field that does not take its revived value. |
| AbstractObject.LoadFields | src/org/miktim/json/AbstractObject.java:90-106 | The field loop returns what LoadFrom gives. That is the first IllegalArgumentException of Field.set, or otherwise the object with every loaded field holding a value of its declared type. |
| AbstractObject.LoadMember | src/org/miktim/json/AbstractObject.java:93-104 | One field takes its revived member, loaded into a nested JsonObject or cast by the field's current value as sample, and then stored by Field.set. A value of the wrong type throws IllegalArgumentException. |
| AbstractObject.NewSlot | src/org/miktim/json/AbstractObject.java:91-104 | A field is written only when it is writable, its name is not ignored and the Json has the name. What is written is always assignable to the field's declared type. |
| AbstractObject.FieldOutcome | src/org/miktim/json/AbstractObject.java:93-104 | Whatever load writes into a field is a value of that field's declared type. |
| AbstractObject.LoadFromSlots | src/org/miktim/json/AbstractObject.java:90-106 | The loop changes only the listed fields, each to its own outcome, and keeps the object's shape. |
| AbstractObject.LoadedFields | src/org/miktim/json/AbstractObject.java:85-109 | A reviver answer that is not a Json leaves the target unchanged. Otherwise only accessible fields change, each to its own outcome. |
| AbstractObject.LoadChanges | src/org/miktim/json/AbstractObject.java:89-104 | A field load changes is accessible, not ignored, named by a member, and not answered IGNORED by the reviver. |
| AbstractObject.LoadKeepsNull | src/org/miktim/json/AbstractObject.java:96-102 | A field holding null stays null: JsonAdapter.cast by a null sample gives null. |
| AbstractObject.MemberCast | src/org/miktim/json/AbstractObject.java:24-29 | castMember returns the sample for an absent name, and null for a null sample. |
| AbstractObject.CastMember | src/org/miktim/json/AbstractObject.java:24-29 | The method returns what MemberCast gives. |
| AbstractObject.MemberCastConforming | src/org/miktim/json/AbstractObject.java:24-29 | A present member that already has the sample's class comes back unchanged. |
| AbstractObject.Converter.constructor | src/org/miktim/json/AbstractObject.java:40 | A new converter ignores nothing. |
| AbstractObject.Converter.SetIgnored | src/org/miktim/json/AbstractObject.java:42-49 | setIgnored replaces the ignore set by the given names, and isIgnored answers exactly for them. |
| AbstractObject.Converter.AddIgnored | src/org/miktim/json/AbstractObject.java:51-53 | addIgnored adds the names to the set. |
| AbstractObject.Converter.GetIgnored | src/org/miktim/json/AbstractObject.java:55-57 | getIgnored lists the set, each name once. |
| ObjectConverter.GetAccessibleFields | src/org/miktim/json/ObjectConverter.java:126-157 | The two loops return the fields the walk specification keeps, judged from the converter's own package. |
| ObjectConverter.AccessibleFieldsExactly | src/org/miktim/json/ObjectConverter.java:126-157 | A field is accessible exactly when it passes the modifier, package and synthetic tests and no earlier admitted field has its name. |
| ObjectConverter.AccessibleFieldFacts | src/org/miktim/json/ObjectConverter.java:130-153 | An accessible field is not synthetic, not an enum constant, not transient or native. It is private only in the runtime class, and public or protected when its class is outside the converter's package. |
| ObjectConverter.RuntimeFieldAccessible | src/org/miktim/json/ObjectConverter.java:130-149 | A final field of the runtime class, in the converter's package and first of its name, is accessible: this walk has no FINAL in its mask. |
| ObjectConverter.JsonObjectRefused | src/org/miktim/json/ObjectConverter.java:69-71 | unload and load of a JsonObject target fail with ClassCastException, since a JsonObject is not an ObjectConverter. |
| ObjectConverter.UnloadKeys | src/org/miktim/json/ObjectConverter.java:67-94 | When the replacer keeps the object, unload's member names are the names of the accessible fields that are neither ignored nor answered IGNORED, in order. |
| ObjectConverter.UnloadValues | src/org/miktim/json/ObjectConverter.java:78-91 | When the replacer keeps the object, each accessible field that is neither ignored nor answered IGNORED is stored under its name with the replacer's value, and a nested JsonObject is stored as its own unload. |
| ObjectConverter.LoadedFields | src/org/miktim/json/ObjectConverter.java:96-124 | A reviver answer that is not a Json leaves the target unchanged. Otherwise only accessible non-final fields change, each to its own outcome. |
| ObjectConverter.LoadChanges | src/org/miktim/json/ObjectConverter.java:107-119 | A field load changes is accessible, not final, not ignored, named by a member, and not answered IGNORED by the reviver. |
| ObjectConverter.MemberCast | src/org/miktim/json/ObjectConverter.java:25-30 | castMember returns the sample when the member is absent or null. |
| ObjectConverter.Converter.constructor | src/org/miktim/json/ObjectConverter.java:48 | A new converter ignores nothing. |
| ObjectConverter.Converter.SetIgnored | src/org/miktim/json/ObjectConverter.java:50-57 | setIgnored replaces the ignore set by the given names, and isIgnored answers exactly for them. |
| ObjectConverter.Converter.AddIgnored | src/org/miktim/json/ObjectConverter.java:59-61 | addIgnored adds the names to the set. |
| ObjectConverter.Converter.GetIgnored | src/org/miktim/json/ObjectConverter.java:63-65 | getIgnored lists the set, each name once. |
| ObjectConverter.Converter.Unload | src/org/miktim/json/ObjectConverter.java:67-94 | The method returns what the Unloaded specification gives. |
| ObjectConverter.Converter.Load | src/org/miktim/json/ObjectConverter.java:96-124 | The method returns what the Loaded specification gives, including Field.set's IllegalArgumentException on a value of the wrong type. |
| ObjectConverter.Converter.CastMember | src/org/miktim/json/ObjectConverter.java:25-30 | The method returns what MemberCast gives. |
| JSONObject.CompareToSign | src/org/miktim/json/JSONObject.java:60-65 | String.compareTo, which Arrays.sort and Arrays.binarySearch use, is zero exactly on equal strings and flips its sign when the arguments are swapped. |
| JSONObject.LeTotal | src/org/miktim/json/JSONObject.java:65 | compareTo orders any two strings one way or the other. |
| JSONObject.LeTransitive | src/org/miktim/json/JSONObject.java:65 | compareTo's order is transitive. |
| JSONObject.LeAntisymmetric | src/org/miktim/json/JSONObject.java:65 | Strings ordered both ways by compareTo are equal. |
| JSONObject.SearchFindsMember | src/org/miktim/json/JSONObject.java:59-61 | binarySearch answers a hit only for a name the array holds. |
| JSONObject.SearchFindsSorted | src/org/miktim/json/JSONObject.java:59-61 | On a sorted array, binarySearch over a range holding the name finds it. |
| JSONObject.FoundSorted | src/org/miktim/json/JSONObject.java:59-61 | On a sorted array, isIgnored's binary search succeeds exactly for the names the array holds. |
| JSONObject.UnsortedMisses | src/org/miktim/json/JSONObject.java:59-65 | On the unsorted array ["b", "a"] the binary search misses "a", which is why setIgnored sorts. |
| JSONObject.IgnoredSet | src/org/miktim/json/JSONObject.java:59-61 | The names isIgnored answers true for are names the array holds, and binarySearch finds them. |
| JSONObject.Sort | src/org/miktim/json/JSONObject.java:65 | Arrays.sort leaves the ignore array sorted and a permutation of what it held. |
| JSONObject.Insert | src/org/miktim/json/JSONObject.java:65 | One insertion step extends the sorted prefix by one and keeps a permutation. |
| JSONObject.IgnoredSetSorted | src/org/miktim/json/JSONObject.java:59-66 | Once the array is sorted, the ignored names are exactly the names it holds. |
| JSONObject.Converter.constructor | src/org/miktim/json/JSONObject.java:57 | A new JSONObject has an empty ignore array. |
| JSONObject.Converter.IsIgnored | src/org/miktim/json/JSONObject.java:59-61 | The binary-search loop answers what binarySearch answers. A hit is a held name, and on a sorted array every held name is a hit. |
| JSONObject.Converter.SetIgnored | src/org/miktim/json/JSONObject.java:63-66 | setIgnored stores a fresh sorted clone of the names, a permutation of them. Afterwards the ignored names are exactly the given ones. |
| JSONObject.Converter.GetIgnored | src/org/miktim/json/JSONObject.java:68-70 | getIgnored returns the converter's own array, not a copy. |
| JSONObject.Converter.ToJSON | src/org/miktim/json/JSONObject.java:22-25 | toJSON() converts this object under its own ignore list, as Converted says. |
| JSONObject.Converter.FromJSON | src/org/miktim/json/JSONObject.java:31-34 | fromJSON(json) loads this object under its own ignore list, as Revived says, and fails where Field.set refuses a value. |
| JSONObject.Converter.CastMember | src/org/miktim/json/JSONObject.java:37-42 | castMember gives the member cast by the sample when the JSON has it, the sample otherwise. |
| JSONObject.GetAccessibleFields | src/org/miktim/json/JSONObject.java:132-154 | The two loops return the accessible fields as AccessibleFields specifies: first field of each name along the class chain, filtered by the modifier mask. |
| JSONObject.RuntimeFieldAccessible | src/org/miktim/json/JSONObject.java:136-147 | A field of the runtime class that is first of its name is accessible exactly when it is not final, transient, strict, interface or abstract. |
| JSONObject.AccessibleFieldFacts | src/org/miktim/json/JSONObject.java:136-150 | An accessible field is never final, transient, strict, interface or abstract. It is private only in the runtime class, and native only in a class of the runtime class's package. |
| JSONObject.ToJSONOf | src/org/miktim/json/JSONObject.java:72-95 | The method returns what Converted gives: the replacer's answer for a fresh JSON, with the fields walked into it when that answer is a JSON. |
| JSONObject.ToJSONFields | src/org/miktim/json/JSONObject.java:79-92 | The field loop returns what ConvertFrom gives for the fields from the first. |
| JSONObject.ConvertNext | src/org/miktim/json/JSONObject.java:79-91 | One turn of the loop skips an ignored name and a field the replacer answers IGNORED for. Otherwise it converts a nested JSONObject and sets the member. |
| JSONObject.ConvertFromKeys | src/org/miktim/json/JSONObject.java:79-92 | With distinct field names, the loop's JSON has the keys it started with followed by the kept field names, in field order. |
| JSONObject.ConvertStep | src/org/miktim/json/JSONObject.java:79-92 | One loop step keeps the keys unique and the key list it will end with. |
| JSONObject.ConvertedKeys | src/org/miktim/json/JSONObject.java:72-95 | When the replacer keeps the fresh JSON, toJSON's member names are the accessible fields that are neither ignored nor replaced by IGNORED, in order. |
| JSONObject.ConvertedValues | src/org/miktim/json/JSONObject.java:78-92 | When the replacer keeps the fresh JSON, each accessible field that is neither ignored nor replaced by IGNORED is stored under its name with the replacer's value, and a nested JSONObject is stored as its own toJSON. |
| JSONObject.ConvertedOmitsIgnored | src/org/miktim/json/JSONObject.java:82 | An ignored field name is never a member of toJSON's result. |
| JSONObject.FromJSONOf | src/org/miktim/json/JSONObject.java:97-123 | The method returns what Revived gives: the object unchanged unless the reviver's answer is a JSON, and otherwise each field's outcome. |
| JSONObject.FromJSONMember | src/org/miktim/json/JSONObject.java:105-118 | One field of fromJSON: nothing when ignored, absent or revived to IGNORED. Otherwise the nested object revived, or the member cast by the field's value, stored by Field.set, which throws IllegalArgumentException on a value of the wrong type. |
| JSONObject.FieldOutcome | src/org/miktim/json/JSONObject.java:107-118 | A field is written only when its name is not ignored and the JSON has it, and only with a value assignable to the field's declared type. |
| JSONObject.ReviveFromSlots | src/org/miktim/json/JSONObject.java:104-120 | With distinct fields, the loop changes only the walked fields, each to its own outcome, and keeps the object's shape. |
| JSONObject.RevivedFields | src/org/miktim/json/JSONObject.java:97-123 | A non-JSON answer leaves the object as it was. Fields that are not accessible never change, and an accessible field ends with its own outcome. |
| JSONObject.RevivedChanges | src/org/miktim/json/JSONObject.java:104-119 | A field fromJSON changes is accessible, not ignored, named by a member, and not revived to IGNORED. |
| JsonClass.TextMembers | src/org/miktim/json/Json.java:31-34 | The members putAll copies from a parsed text: an error of the parse, NullPointerException for null, ClassCastException for a value that is not a Json. A success is a named member list. |
| JsonClass.ExistsIn | src/org/miktim/json/Json.java:74-82 | exists is true exactly when the name is present and the index path reaches a value. It is false exactly when the name is absent or an index is out of range. |
| JsonClass.Member | src/org/miktim/json/Json.java:101-102 | get(name) is the value stored under the name, or null for an absent name. |
| JsonClass.ObjectArrayElements | src/org/miktim/json/Json.java:125-134 | getArray fails with NullPointerException on null and ClassCastException on a non-array. Any array gives an Object[] of the same elements. |
| JsonClass.Json.constructor | src/org/miktim/json/Json.java:37-42 | A Json without pairs is empty. |
| JsonClass.Json.FromPairs | src/org/miktim/json/Json.java:37-42 | The pairs constructor succeeds exactly for an even count of arguments, and then holds what setting each pair in turn gives. |
| JsonClass.Json.FromText | src/org/miktim/json/Json.java:31-34 | new Json(text) holds exactly the parsed members, or fails with the parse's error. |
| JsonClass.Json.SuperPut | src/org/miktim/json/Json.java:86-88 | superPut stores the value under the key as given and returns the previous value. Other keys keep their values, and a new key goes last. |
| JsonClass.Json.PutMember | src/org/miktim/json/Json.java:90-93 | put stores the value under the key, with a null key stored as "null", and returns the previous value. Other keys are unchanged. |
| JsonClass.Json.Set | src/org/miktim/json/Json.java:95-98 | set stores the value under String.valueOf(name) and changes no other member. |
| JsonClass.Json.ListNames | src/org/miktim/json/Json.java:70-72 | listNames returns the member names in insertion order. |
| JsonClass.Json.Get | src/org/miktim/json/Json.java:101-107 | get(name, indices) is the member, then Array.get with each index in turn. It fails with the first failing step's exception. |
| JsonClass.Json.Exists | src/org/miktim/json/Json.java:74-82 | The method answers what ExistsIn specifies. |
| JsonClass.Json.GetArray | src/org/miktim/json/Json.java:125-134 | getArray fails as get fails, and otherwise gives the value read as an Object[]. |
| JsonClass.Json.CastMemberBySample | src/org/miktim/json/Json.java:137-139 | castMember by sample is get followed by the cast by that sample. |
| JsonClass.Json.CastMemberByClass | src/org/miktim/json/Json.java:141-143 | castMember by class is get followed by the cast to that class. |
| JsonClass.Normalized | src/org/miktim/json/Json.java:92 | put's stored name is a String, the key itself when it is one. |
| JsonClass.SetIsPut | src/org/miktim/json/Json.java:92-96 | On a String name, set and put store under the same name. A null name is stored as "null", not as null. |
| ParsersExamples.FalsenOffsets | src/org/miktim/json/ParserJSON.java:148 | ParserJSON reports the unknown literal `falsen` at offset 6. JSONparser reports it at offset 0 (src/org/miktim/json/JSONparser.java:155-156). |
| ParsersExamples.HashUnexpected | src/org/miktim/json/ParserJSON.java:158 | `#` cannot start a value. ParserJSON names the character by its code and JSONparser by the character itself (src/org/miktim/json/JSONparser.java:167-168). Both report offset 0. |
| ParsersExamples.EmptyArray | src/org/miktim/json/ParserJSON.java:113-124 | Both parsers read `[]` as an empty Object[]. |
| ParsersExamples.UnknownEscape | src/org/miktim/json/ParserJSON.java:173-174 | ParserJSON refuses the unknown escape `\q`, while JSONparser's lenient unescape keeps the `q`. |
| SamplesExamples.EmptyNameRefused | srcs/JSON.java:81-84 | Parsing `{"":1}` fails with IllegalArgumentException, because set refuses the empty name. |
| SamplesExamples.EmptyNameMembers | srcs/JSON.java:160-170 | The member loop of `{"":1}` reads the empty name, the colon and the value, and then fails in set. |
| SamplesExamples.EmptyNameValue | srcs/JSON.java:211-219 | The value of `{"":1}` is the number 1, read up to the closing brace. |
| SamplesExamples.FalsenUnknown | srcs/JSON.java:207-210 | `falsen` is an unknown literal, reported at the count of code units read less the lexeme's length: 1. |
| SamplesExamples.TrailingValue | srcs/JSON.java:228-235 | `1 2` fails with "EOT expected" at offset 3. |
| JSONExamples.NestedObjectName | src/org/miktim/json/JSON.java:214-218 | In `{{}}` the first member name parses as an object, so the parser reports "Name expected". |
| JSONExamples.FalsenUnknown | src/org/miktim/json/JSON.java:258-261 | `falsen` is an unknown literal, reported at its first code unit. |
| JSONExamples.TrailingValue | src/org/miktim/json/JSON.java:283-286 | `1 2` fails with "EOT expected" at the offset of the second value. |
| JSONExamples.ArabicIndicUEscape | src/org/miktim/json/JSON.java:344-355 | unescapeString reads a backslash and `u` followed by the Arabic-Indic digits 0, 0, 4, 1 as U+0041, because Integer.parseInt(_, 16) accepts the digits of any script. |
| JSONExamples.UnterminatedString | src/org/miktim/json/JSON.java:163-166 | In `"a` the string loop reads past the end of the text and fails with "Unexpected EOT". |
| SamplesJSON.UnescapeStep | srcs/JSON.java:293-306 | One turn of unescapeString's loop consumes at least one code unit and stays within the text. Its `\u` digits are read as `Character.digit(_, 16)` reads them. |
| SamplesJSON.UnescapeAgrees | srcs/JSON.java:289-309 | This unescapeString succeeds exactly where the one of src/org/miktim/json/JSON.java does, with the same text. |
| SamplesJSON.UnescapeEscape | srcs/JSON.java:289-333 | unescapeString(escapeString(s)) == s for every string. |
| SamplesJSON.UnescapeString | srcs/JSON.java:289-309 | The loop over the char array returns what Unescape specifies, including the index and number-format failures. |
| SamplesJSON.CheckObjectType | srcs/JSON.java:270-284 | checkObjectType returns the object exactly when it is null, a String, Number, Boolean, JSON, or an Object[] of such values. Otherwise it throws IllegalArgumentException. |
| SamplesJSON.CheckItems | srcs/JSON.java:277-281 | The element loop succeeds exactly when every element is storable, and fails only with IllegalArgumentException. |
| SamplesJSON.ParseValue | srcs/JSON.java:156-226 | A parsed value moves the cursor forward, keeps it valid and leaves it on a non-whitespace code unit. |
| SamplesJSON.ParseObjectBody | srcs/JSON.java:159-174 | The object branch moves the cursor forward and leaves it after the whitespace. |
| SamplesJSON.ParseArrayBody | srcs/JSON.java:175-185 | The array branch moves the cursor forward and leaves it after the whitespace. |
| SamplesJSON.ParseMembers | srcs/JSON.java:162-170 | The property loop moves the cursor forward. |
| SamplesJSON.ParseElements | srcs/JSON.java:178-180 | The element loop moves the cursor forward. |
| SamplesJSON.ScanString | srcs/JSON.java:188-193 | The string loop moves the cursor forward and stops on the closing quote. |
| SamplesJSON.ParseScalar | srcs/JSON.java:186-225 | The string, literal and number branches move the cursor forward and leave it on a non-whitespace code unit. A number lexeme is taken only as `new BigDecimal` takes it, with exponent and scale in the int range. |
| SamplesJSON.Parser.constructor | srcs/JSON.java:97-111 | A new Parser has no reader yet. |
| SamplesJSON.Parser.ParseObject | srcs/JSON.java:156-226 | The recursive parseObject returns what ParseValue gives and leaves the cursor where ParseValue says. |
| SamplesJSON.Parser.ReadMembers | srcs/JSON.java:162-170 | The property loop returns what ParseMembers gives and leaves the cursor where it says. |
| SamplesJSON.Parser.ReadElements | srcs/JSON.java:178-180 | The element loop returns what ParseElements gives and leaves the cursor where it says. |
| SamplesJSON.Parser.ReadScalar | srcs/JSON.java:186-223 | The scalar branches return what ParseScalar gives and leave the cursor where it says. |
| SamplesJSON.Parser.ReadString | srcs/JSON.java:188-193 | The string loop returns what ScanString gives and stops on the closing quote. |
| SamplesJSON.Parser.Parse | srcs/JSON.java:228-237 | parse returns what Parsed gives: one value, then "EOT expected" unless only whitespace follows. |
| SamplesJSON.DocumentStorable | srcs/JSON.java:270-284 | Everything parse returns passes checkObjectType. |
| SamplesJSON.ParsedFacts | srcs/JSON.java:30-36 | JSON.parse returns only null, Booleans, Strings, BigDecimals, Object[] and JSON objects whose property names are distinct and non-empty. |
| SamplesJSON.ParseValueFacts | srcs/JSON.java:156-226 | A value parseObject returns is such a document. |
| SamplesJSON.ObjectBodyFacts | srcs/JSON.java:159-174 | An object parseObject returns holds distinct non-empty names and document values. |
| SamplesJSON.ArrayBodyFacts | srcs/JSON.java:175-185 | An array parseObject returns is an Object[] of documents. |
| SamplesJSON.ParseMembersFacts | srcs/JSON.java:162-170 | The property loop keeps the names distinct and non-empty. |
| SamplesJSON.PutMembers | srcs/JSON.java:81-87 | set of a non-empty name keeps the names distinct and non-empty. |
| SamplesJSON.ParseElementsFacts | srcs/JSON.java:178-180 | Every element the element loop collects is a document. |
| SamplesJSON.ParseScalarFacts | srcs/JSON.java:186-225 | A string, literal or number parseObject returns is a document. |
| SamplesJSON.StringifyChecked | srcs/JSON.java:38-40 | JSON.stringify succeeds exactly on a storable object, and then writes stringifyObject's text. |
| SamplesJSON.StringifyParsed | srcs/JSON.java:156-264 | parse(stringifyObject(v)) == v for every value parse can return: the compact `,` and `:` text, read from offset 0, gives back the same value, BigDecimal lexemes and property order included. |
| SamplesJSON.JSON.constructor | srcs/JSON.java:42-45 | A new JSON has no properties. |
| SamplesJSON.JSON.List | srcs/JSON.java:66-68 | list() returns the property names in insertion order. |
| SamplesJSON.JSON.Get | srcs/JSON.java:74-79 | get succeeds exactly for a non-empty name that is present, and returns its value. Otherwise it throws IllegalArgumentException. |
| SamplesJSON.JSON.Set | srcs/JSON.java:81-87 | set succeeds exactly for a non-empty name and a storable value, and then puts the value and changes nothing else. On failure it throws IllegalArgumentException and the properties are unchanged. |
| SamplesJSON.JSON.Remove | srcs/JSON.java:89-91 | remove leaves the name absent, the other properties unchanged, and returns the removed value or null. |
| SamplesJSON.JSON.Clone | srcs/JSON.java:56-64 | clone is the parse of this object's stringify. It gives a fresh JSON with the parsed properties, null for null, and CloneNotSupportedException for any other outcome. When every property value is one parse returns, clone succeeds with the same properties in the same order. |
| SamplesJSON.CloneRoundTrip | srcs/JSON.java:57-64 | The text of a JSON whose properties are values parse returns parses back to a JSON with the same properties, which is what clone returns. |

## Left out

- Readers, InputStreams, OutputStreams and charsets. A parser reads an in-memory sequence of UTF-16 code units, and a generator appends to an in-memory sequence. IOException never arises.
- Floating point and decimal arithmetic. A Double, Float or BigDecimal keeps its lexeme. `Double.parseDouble` accepts exactly the lexemes whose decimal form parses, with no binary rounding. `floatValue`, `doubleValue` and the printing of a Double use the lexeme.
- Java reflection. Classes, declared fields, modifiers and field values are the values of `HostReflect`. `Field.set` on a nested object is modelled as returning the updated object, so aliasing, identity and cyclic object graphs are not captured.
- AbstractObject.Load, ObjectConverter.Converter.Load, JSONObject.Converter.FromJSON: the Java code writes the target's fields in place, one `Field.set` at a time (`src/org/miktim/json/AbstractObject.java` lines 99-102, `src/org/miktim/json/ObjectConverter.java` lines 114-117, `src/org/miktim/json/JSONObject.java` lines 113-116). A field written before a later field throws (IllegalArgumentException, ClassCastException, StackOverflowError) keeps its new value in Java. The model's `AbstractObject.Loaded`, `ObjectConverter.Loaded` and `JSONObject.Revived` return the error alone and the caller keeps its value unchanged, so the partly loaded object left behind by a failed load is not captured.
- JavaLang.HexValue: follows the Unicode 6.2 digit runs of Java 8's `Character.digit`; later JDKs add runs such as U+0DE6-0DEF and U+A9F0-A9F9.
- JSONAdapter.InstanceOf: interfaces of host classes and supertypes of classes known only by name are not modelled. An array of host objects is covariant only to its own class and to Object.
- AbstractObject.Revived: `src/org/miktim/json/AbstractObject.java` lines 26 and 102 call `JsonAdapter.cast`, a method that neither `JsonAdapter.java` nor its superclass `ObjectConverter.java` defines. The model puts the cast by sample of `JSONAdapter.cast(Object, Object)` (`JSONAdapter.CastBySample`) in its place, as the JSONObject twin does.
- AbstractObject.MemberCast: the same stand-in for `JsonAdapter.cast` on line 26.
- A null name inside the arrays given to `setIgnored` and `addIgnored` is not modelled. Names are Strings.
- The ignore lists of nested converters are read from the host object (`HostReflect` keeps them with the object), not from a separate converter instance.
- `JSON.cast`, `JSON.fromJSON`, `JSON.toJSON` and `JSON.toNumber` are not in `src/org/miktim/json/JSON.java`. `JSONAdapter.cast` stands in for `JSON.cast`, the ParserJSON parse stands in for `JSON.fromJSON`, and `ParserJSON.toNumber` stands in for `JSON.toNumber`.
- `Json.normalize`, `Json.toJSON` and `Json.toString` depend on `JSON.fromJSON` and `JSON.toJSON`, which are not part of this model.
- Thin wrappers that only cast or delegate (`getJson`, `getNumber`, `getString`, `getBoolean`, `toString`, `stringify()`) and `isClassName`, which needs `Class.forName`.
- `src/org/miktim/json/JsonAdapter.java`, `JsonConverter.java`, `JsonConvertible.java`, `JsonObject.java` and `ObjectAdapter.java` are not part of this model. They only delegate to `unload` and `load`, and the `JsonObject` type is kept only as the class ObjectConverter refuses.
- The Java call stack. The converters carry a depth bound, and running out of it gives StackOverflowError. The recursive parsers and generators are not bounded.
- `JSONObject.Sort`: `Arrays.sort` is modelled by an insertion sort with the same outcome, a sorted permutation. The merge sort Java uses is not modelled.
- The replacer and reviver hooks are pure functions of the class name, member name and value. Side effects of overridden hooks are not modelled.
- `Values.ValueOf`: `String.valueOf` of an array, map, collection or host object is its class name followed by `@`. The identity hash code and overridden `toString` methods are not modelled.
- `JSONGenerator.Break`: `intend * level` is an unbounded integer. The 32-bit overflow of that product in Java is not modelled.
- `JSONAdapter.CastToClass`: its own contract states only the null class. What a cast to a class keeps is stated by `CastConforming`, `CastItemsShape`, `CastArrayShape`, `CastNonArray` and the scalar adapter lemmas.
- `JSONAdapter.CastBySample`: its own contract states only the null sample. `SampleConforming` states that a sample of the value's own class gives the value back.
- The repository's test harnesses are not modelled. They read files, measure time and draw random inputs.
