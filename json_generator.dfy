/** org.miktim.json.JSONGenerator (src/org/miktim/json/JSONGenerator.java): writes a
    value as JSON text to a stream, piece by piece, optionally indented. The stream
    is the text appended so far; charset encoding is not modelled. */
module JSONGenerator {
  import opened JavaLang
  import opened Values
  import opened Escape
  import JSON
  import PJ = ParserJSON

  // ---------------------------------------------------------------- write(obj, level)

  /** The padding `write(obj, level)` puts after its newline. */
  function Indent(intend: int, level: int): nat {
    if intend > 0 && level > 0 then intend * level else 0
  }

  /** What `write(obj, level)` adds after obj: nothing unless intend is positive;
      otherwise a newline, then intend*level spaces when level is positive. */
  function Break(intend: int, level: int): (t: Text)
    ensures intend <= 0 <==> t == []
    ensures intend > 0 ==> t[0] == NEWLINE && |t| == 1 + Indent(intend, level)
    ensures forall k | 1 <= k < |t| :: t[k] == SPACE
  {
    if intend <= 0 then []
    else [NEWLINE] + Spaces(Indent(intend, level))
  }

  // ---------------------------------------------------------------- generateObject

  /** The text `generateObject(v, level)` writes. The level is raised on entry, so
      the elements of an array or a map sit one level deeper than the call, and the
      closing bracket is padded to the level of the call. A Collection is handed on
      as its toArray() with the raised level, and so sits one level deeper still. A
      Map key is written through String.valueOf (null as "null"); any other object
      as its quoted String.valueOf. */
  function Generated(v: JVal, level: int, intend: int): Text
    decreases v, 2
  {
    match v
    case Null => ValueOf(v)
    case Bool(_) => ValueOf(v)
    case Num(_) => ValueOf(v)
    case Str(s) => JSON.Quoted(s)
    case Arr(_, items) => ArrayText(items, level + 1, intend)
    case Map(_, entries) =>
      if IsUtilMap(v) then MapText(entries, level + 1, intend)
      else JSON.Quoted(ValueOf(v))
    case Coll(items) => ArrayText(items, level + 2, intend)
    case _ => JSON.Quoted(ValueOf(v))
  }

  /** The array branch of generateObject at the raised level. */
  function ArrayText(items: seq<JVal>, level: int, intend: int): Text
    decreases items, 1
  {
    [LBRACKET] + ItemsTo(items, |items|, level, intend) + Break(intend, level - 1) + [RBRACKET]
  }

  /** The map branch of generateObject at the raised level. */
  function MapText(entries: seq<Entry>, level: int, intend: int): Text
    decreases entries, 1
  {
    [LBRACE] + EntriesTo(entries, |entries|, level, intend) + Break(intend, level - 1) + [RBRACE]
  }

  /** The separator written before element or member i: none before the first. */
  function Separator(i: nat): Text {
    if i == 0 then [] else JSON.SEPARATOR
  }

  /** One turn of the array loop: `write(separator, level)`, then the element. */
  function Item(items: seq<JVal>, i: nat, level: int, intend: int): Text
    requires i < |items|
    decreases items, 0, 0
  {
    Separator(i) + Break(intend, level) + Generated(items[i], level, intend)
  }

  /** The first n turns of the array loop. */
  function ItemsTo(items: seq<JVal>, n: nat, level: int, intend: int): Text
    requires n <= |items|
    decreases items, 0, n + 1
  {
    if n == 0 then [] else ItemsTo(items, n - 1, level, intend) + Item(items, n - 1, level, intend)
  }

  /** A member as the map loop writes it: the name through String.valueOf, quoted,
      then `: ` and the value. */
  function EntryText(e: Entry, level: int, intend: int): Text
    decreases e, 0
  {
    JSON.Quoted(ValueOf(e.key)) + [COLON, SPACE] + Generated(e.value, level, intend)
  }

  /** One turn of the map loop: `write(separator, level)`, then the member. */
  function Member(entries: seq<Entry>, i: nat, level: int, intend: int): Text
    requires i < |entries|
    decreases entries, 0, 0
  {
    Separator(i) + Break(intend, level) + EntryText(entries[i], level, intend)
  }

  /** The first n turns of the map loop. */
  function EntriesTo(entries: seq<Entry>, n: nat, level: int, intend: int): Text
    requires n <= |entries|
    decreases entries, 0, n + 1
  {
    if n == 0 then [] else EntriesTo(entries, n - 1, level, intend) + Member(entries, n - 1, level, intend)
  }

  // ---------------------------------------------------------------- properties

  /** `n` spaces. */
  function Spaces(n: nat): Text {
    seq(n, _ => SPACE)
  }

  /** Without indentation generateObject writes exactly what JSON.stringifyObject
      returns, whatever the level. */
  lemma {:induction false} CompactGenerated(v: JVal, level: int, intend: int)
    requires intend <= 0
    ensures Generated(v, level, intend) == JSON.Stringify(v)
    decreases v, 2
  {
    match v
    case Arr(_, items) =>
      CompactItems(items, |items|, level + 1, intend);
      assert items[..|items|] == items;
    case Coll(items) =>
      CompactItems(items, |items|, level + 2, intend);
      assert items[..|items|] == items;
    case Map(_, entries) =>
      if IsUtilMap(v) {
        CompactEntries(entries, |entries|, level + 1, intend);
        assert entries[..|entries|] == entries;
      }
    case _ =>
  }

  lemma {:induction false} CompactItems(items: seq<JVal>, n: nat, level: int, intend: int)
    requires intend <= 0 && n <= |items|
    ensures ItemsTo(items, n, level, intend) == JSON.StringifyItems(items[..n])
    decreases items, 0, n
  {
    if n > 0 {
      CompactItems(items, n - 1, level, intend);
      CompactGenerated(items[n - 1], level, intend);
      assert items[..n] == items[..n - 1] + [items[n - 1]];
      StringifyItemsSnoc(items[..n - 1], items[n - 1]);
    }
  }

  lemma {:induction false} CompactEntries(entries: seq<Entry>, n: nat, level: int, intend: int)
    requires intend <= 0 && n <= |entries|
    ensures EntriesTo(entries, n, level, intend) == JSON.StringifyEntries(entries[..n])
    decreases entries, 0, n
  {
    if n > 0 {
      CompactEntries(entries, n - 1, level, intend);
      CompactMember(entries, n - 1, level, intend);
      EntriesToUnfold(entries, n, level, intend);
      StringifyEntriesPrefix(entries, n);
    }
  }

  /** The map loop's text after n turns is that after n - 1 turns and member n - 1. */
  lemma EntriesToUnfold(entries: seq<Entry>, n: nat, level: int, intend: int)
    requires 0 < n <= |entries|
    ensures EntriesTo(entries, n, level, intend) == EntriesTo(entries, n - 1, level, intend) + Member(entries, n - 1, level, intend)
  {
  }

  /** stringifyObject's text of the first n members is that of the first n - 1, the
      separator and member n - 1. */
  lemma StringifyEntriesPrefix(entries: seq<Entry>, n: nat)
    requires 0 < n <= |entries|
    ensures JSON.StringifyEntries(entries[..n])
      == JSON.StringifyEntries(entries[..n - 1]) + (Separator(n - 1) + JSON.StringifyEntry(entries[n - 1]))
  {
    var pre, e := entries[..n - 1], entries[n - 1];
    assert entries[..n] == pre + [e];
    StringifyEntriesSnoc(pre, e);
  }

  lemma CompactMember(entries: seq<Entry>, i: nat, level: int, intend: int)
    requires intend <= 0 && i < |entries|
    ensures Member(entries, i, level, intend) == Separator(i) + JSON.StringifyEntry(entries[i])
    decreases entries, 0, 0
  {
    CompactEntry(entries[i], level, intend);
    assert Break(intend, level) == [];
  }

  lemma CompactEntry(e: Entry, level: int, intend: int)
    requires intend <= 0
    ensures EntryText(e, level, intend) == JSON.StringifyEntry(e)
    decreases e, 0
  {
    CompactGenerated(e.value, level, intend);
  }

  /** stringifyObject's element list, grown by one element at the end. */
  lemma {:induction false} StringifyItemsSnoc(items: seq<JVal>, x: JVal)
    ensures JSON.StringifyItems(items + [x]) == JSON.StringifyItems(items) + Separator(|items|) + JSON.Stringify(x)
    decreases |items|
  {
    if items != [] {
      StringifyItemsSnoc(items[1..], x);
      assert (items + [x])[1..] == items[1..] + [x];
    }
  }

  /** stringifyObject's member list, grown by one member at the end. */
  lemma {:induction false} StringifyEntriesSnoc(entries: seq<Entry>, e: Entry)
    ensures JSON.StringifyEntries(entries + [e]) == JSON.StringifyEntries(entries) + Separator(|entries|) + JSON.StringifyEntry(e)
    decreases |entries|
  {
    var l := entries + [e];
    if entries == [] {
      assert l == [e];
    } else {
      var h, rest := entries[0], entries[1..];
      var tail := JSON.StringifyEntries(rest + [e]);
      assert JSON.StringifyEntries(l) == JSON.StringifyEntry(h) + JSON.SEPARATOR + tail by {
        assert l[0] == h && l[1..] == rest + [e];
      }
      StringifyEntriesSnoc(rest, e);
      if rest == [] {
        assert entries == [h];
        assert tail == JSON.StringifyEntry(e);
      } else {
        assert JSON.StringifyEntries(entries) == JSON.StringifyEntry(h) + JSON.SEPARATOR + JSON.StringifyEntries(rest);
        Concat5(JSON.StringifyEntry(h), JSON.SEPARATOR, JSON.StringifyEntries(rest), JSON.SEPARATOR, JSON.StringifyEntry(e));
      }
    }
  }

  /** Regrouping a concatenation of five texts. */
  lemma Concat5(a: Text, b: Text, c: Text, d: Text, e: Text)
    ensures a + b + (c + d + e) == a + b + c + d + e
  {
  }

  /** null, Numbers and Booleans are written as String.valueOf gives them, at any
      level and indentation; a String is quoted, and its escaped text holds no raw
      control character and unescapes back to the string under ParserJSON's strict
      unescapeString. */
  lemma ScalarTokens(v: JVal, level: int, intend: int)
    ensures v.Null? || v.Bool? || v.Num? ==> Generated(v, level, intend) == ValueOf(v)
    ensures v.Null? ==> Generated(v, level, intend) == Ascii("null")
    ensures v.Str? ==>
      && Generated(v, level, intend) == [QUOTE] + Escaped(v.s) + [QUOTE]
      && PJ.StrictUnescape(Escaped(v.s)) == Ok(v.s)
      && forall k | 0 <= k < |Escaped(v.s)| :: Escaped(v.s)[k] >= SPACE
  {
    if v.Str? {
      PJ.StrictUnescapeEscape(v.s);
      EscapedNoControl(v.s);
    }
  }

  /** With indentation, every element of an array starts on a new line padded to
      the raised level (after `, ` from the second on), and the closing bracket on
      a new line padded to the level of the call. */
  lemma IndentedArray(c: JType, items: seq<JVal>, level: int, intend: int)
    requires intend > 0
    ensures Generated(Arr(c, items), level, intend)
      == [LBRACKET] + ItemsTo(items, |items|, level + 1, intend) + [NEWLINE] + Spaces(Indent(intend, level)) + [RBRACKET]
    ensures forall i | 0 <= i < |items| ::
      Item(items, i, level + 1, intend)
        == Separator(i) + [NEWLINE] + Spaces(Indent(intend, level + 1)) + Generated(items[i], level + 1, intend)
  {
    assert Generated(Arr(c, items), level, intend) == ArrayText(items, level + 1, intend);
    assert Break(intend, level + 1 - 1) == [NEWLINE] + Spaces(Indent(intend, level));
    var sp := Spaces(Indent(intend, level + 1));
    assert Break(intend, level + 1) == [NEWLINE] + sp;
    forall i | 0 <= i < |items|
      ensures Item(items, i, level + 1, intend) == Separator(i) + [NEWLINE] + sp + Generated(items[i], level + 1, intend)
    {
      assert Separator(i) + ([NEWLINE] + sp) == Separator(i) + [NEWLINE] + sp;
    }
  }

  /** The same for the members of a map. */
  lemma IndentedMap(cls: MapClass, entries: seq<Entry>, level: int, intend: int)
    requires intend > 0 && cls != SamplesMap
    ensures Generated(Map(cls, entries), level, intend)
      == [LBRACE] + EntriesTo(entries, |entries|, level + 1, intend) + [NEWLINE] + Spaces(Indent(intend, level)) + [RBRACE]
    ensures forall i | 0 <= i < |entries| ::
      Member(entries, i, level + 1, intend)
        == Separator(i) + [NEWLINE] + Spaces(Indent(intend, level + 1)) + EntryText(entries[i], level + 1, intend)
  {
    var v := Map(cls, entries);
    assert IsUtilMap(v);
    assert Generated(v, level, intend) == MapText(entries, level + 1, intend);
    var sp := Spaces(Indent(intend, level + 1));
    assert Break(intend, level + 1) == [NEWLINE] + sp;
    forall i | 0 <= i < |entries|
      ensures Member(entries, i, level + 1, intend) == Separator(i) + [NEWLINE] + sp + EntryText(entries[i], level + 1, intend)
    {
      assert Separator(i) + ([NEWLINE] + sp) == Separator(i) + [NEWLINE] + sp;
    }
  }

  /** The map with every name replaced by its String.valueOf. */
  function NamedKeys(entries: seq<Entry>): (r: seq<Entry>)
    ensures |r| == |entries|
    ensures forall i | 0 <= i < |r| :: r[i].key.Str? && r[i].value == entries[i].value
  {
    seq(|entries|, i requires 0 <= i < |entries| => Entry(Str(ValueOf(entries[i].key)), entries[i].value))
  }

  /** A name is written through String.valueOf: a null key is written as the
      member name "null", and a map writes as the map of its names. */
  lemma NamedKeysWritten(cls: MapClass, entries: seq<Entry>, level: int, intend: int)
    requires cls != SamplesMap
    ensures Generated(Map(cls, entries), level, intend) == Generated(Map(cls, NamedKeys(entries)), level, intend)
  {
    NamedEntriesTo(entries, |entries|, level + 1, intend);
  }

  lemma {:induction false} NamedEntriesTo(entries: seq<Entry>, n: nat, level: int, intend: int)
    requires n <= |entries|
    ensures EntriesTo(entries, n, level, intend) == EntriesTo(NamedKeys(entries), n, level, intend)
    decreases n
  {
    if n > 0 {
      NamedEntriesTo(entries, n - 1, level, intend);
      NamedMember(entries, n - 1, level, intend);
      EntriesToUnfold(entries, n, level, intend);
      EntriesToUnfold(NamedKeys(entries), n, level, intend);
    }
  }

  /** A member is written the same with its name replaced by its String.valueOf. */
  lemma NamedMember(entries: seq<Entry>, i: nat, level: int, intend: int)
    requires i < |entries|
    ensures Member(NamedKeys(entries), i, level, intend) == Member(entries, i, level, intend)
  {
    var e := entries[i];
    var named := NamedKeys(entries);
    assert named[i] == Entry(Str(ValueOf(e.key)), e.value);
    assert ValueOf(Str(ValueOf(e.key))) == ValueOf(e.key);
    assert EntryText(named[i], level, intend) == EntryText(e, level, intend);
  }

  /** A Collection is written as the Object[] of its toArray() at a level one
      deeper; any other object (a Character, a map that is not a java.util.Map, a
      host object) as the String of its String.valueOf. No value is refused. */
  lemma OtherObjects(v: JVal, level: int, intend: int)
    ensures v.Coll? ==> Generated(v, level, intend) == Generated(Arr(OBJECT, v.items), level + 1, intend)
    ensures v.Char? || v.Inst? || v.Other? || (v.Map? && !IsUtilMap(v)) ==>
      Generated(v, level, intend) == Generated(Str(ValueOf(v)), level, intend)
  {
  }

  /** One turn of a loop appends its piece to what the loop has written. */
  lemma AppendTurn(pre: Text, done: Text, sep: Text, brk: Text, x: Text)
    ensures pre + done + sep + brk + x == pre + (done + (sep + brk + x))
  {
  }

  /** Three pieces appended one by one are their concatenation appended. */
  lemma AppendThree(s: Text, a: Text, b: Text, c: Text)
    ensures s + a + b + c == s + (a + b + c)
  {
  }

  /** Four pieces appended one by one are their concatenation appended. */
  lemma AppendFour(s: Text, a: Text, b: Text, c: Text, d: Text)
    ensures s + a + b + c + d == s + (a + b + c + d)
  {
  }

  // ---------------------------------------------------------------- the generator object

  /** A JSONGenerator over the stream `out`, with `intend` spaces per level. */
  class Generator {
    const intend: int
    var out: Text

    /** `new JSONGenerator(stream, space, charsetName)` over an empty stream. */
    constructor (space: int)
      ensures intend == space && out == []
    {
      intend := space;
      out := [];
    }

    /** `write(obj)`: the text of obj, appended. */
    method Write(t: Text)
      modifies this
      ensures out == old(out) + t
    {
      out := out + t;
    }

    /** `write(obj, level)`: the text, then the newline and padding. */
    method WriteAt(t: Text, level: int)
      modifies this
      ensures out == old(out) + t + Break(intend, level)
    {
      Write(t);
      if intend > 0 {
        Write([NEWLINE]);
        if level > 0 {
          Write(seq(intend * level, _ => SPACE));
        }
      }
    }

    /** The String branch of generateObject: the quoted escapeString of s. */
    method WriteString(s: Text)
      modifies this
      ensures out == old(out) + JSON.Quoted(s)
    {
      var escaped := EscapeString(s);
      Write([QUOTE] + escaped + [QUOTE]);
    }

    /** `generateObject(value, level)`. */
    method GenerateObject(v: JVal, level: int)
      modifies this
      ensures out == old(out) + Generated(v, level, intend)
      decreases v, 2
    {
      var inner := level + 1;
      if v.Null? || v.Num? || v.Bool? {
        Write(ValueOf(v));
      } else if v.Str? {
        WriteString(v.s);
      } else if v.Arr? {
        GenerateArray(v.items, inner);
      } else if IsUtilMap(v) {
        GenerateMap(v.entries, inner);
      } else if v.Coll? {
        // generateObject(toArray(), level) raises the level once more
        GenerateArray(v.items, inner + 1);
      } else {
        // generateObject(String.valueOf(value), level) takes the String branch
        WriteString(ValueOf(v));
      }
    }

    /** The array branch of generateObject, at the raised level. */
    method GenerateArray(items: seq<JVal>, level: int)
      modifies this
      ensures out == old(out) + ArrayText(items, level, intend)
      decreases items, 1
    {
      Write([LBRACKET]);
      ghost var pre := out;
      var separator: Text := [];
      for i := 0 to |items|
        invariant separator == Separator(i)
        invariant out == pre + ItemsTo(items, i, level, intend)
      {
        ghost var done := ItemsTo(items, i, level, intend);
        WriteAt(separator, level);
        GenerateObject(items[i], level);
        AppendTurn(pre, done, Separator(i), Break(intend, level), Generated(items[i], level, intend));
        separator := JSON.SEPARATOR;
      }
      WriteAt([], level - 1);
      Write([RBRACKET]);
      AppendFour(old(out), [LBRACKET], ItemsTo(items, |items|, level, intend), Break(intend, level - 1), [RBRACKET]);
    }

    /** The body of the map loop after its separator: the name through
        String.valueOf, which generateObject writes by its String branch, then
        `: ` and the value. */
    method WriteEntry(e: Entry, level: int)
      modifies this
      ensures out == old(out) + EntryText(e, level, intend)
      decreases e, 0
    {
      WriteString(ValueOf(e.key));
      Write([COLON, SPACE]);
      GenerateObject(e.value, level);
      AppendThree(old(out), JSON.Quoted(ValueOf(e.key)), [COLON, SPACE], Generated(e.value, level, intend));
    }

    /** The map branch of generateObject, at the raised level. */
    method GenerateMap(entries: seq<Entry>, level: int)
      modifies this
      ensures out == old(out) + MapText(entries, level, intend)
      decreases entries, 1
    {
      Write([LBRACE]);
      ghost var pre := out;
      var separator: Text := [];
      for i := 0 to |entries|
        invariant separator == Separator(i)
        invariant out == pre + EntriesTo(entries, i, level, intend)
      {
        ghost var done := EntriesTo(entries, i, level, intend);
        WriteAt(separator, level);
        WriteEntry(entries[i], level);
        AppendTurn(pre, done, Separator(i), Break(intend, level), EntryText(entries[i], level, intend));
        separator := JSON.SEPARATOR;
      }
      WriteAt([], level - 1);
      Write([RBRACE]);
      AppendFour(old(out), [LBRACE], EntriesTo(entries, |entries|, level, intend), Break(intend, level - 1), [RBRACE]);
    }
  }
}
