/** org.miktim.json.JSONgenerator (src/org/miktim/json/JSONgenerator.java): the same
    stream writer as JSONGenerator, line for line, except that it escapes Strings
    with JSON.escapeString. It writes the text JSONGenerator.Generated describes;
    the lemmas here tie that text to JSON's parser and give its layout. */
module JSONgenerator {
  import opened JavaLang
  import opened Values
  import opened Escape
  import JSON
  import G = JSONGenerator

  /** A JSONgenerator over the stream `out`, with `intend` spaces per level. */
  class Generator {
    const intend: int
    var out: Text

    /** `new JSONgenerator(stream, space, charsetName)` over an empty stream. */
    constructor (space: int)
      ensures intend == space && out == []
    {
      intend := space;
      out := [];
    }

    /** `write(obj)`: the text of obj, appended. */
    method Write(t: Text)
      modifies this
      ensures out == old(out) + t
    {
      out := out + t;
    }

    /** `write(obj, level)`: the text, then the newline and padding. */
    method WriteAt(t: Text, level: int)
      modifies this
      ensures out == old(out) + t + G.Break(intend, level)
    {
      Write(t);
      if intend > 0 {
        Write([NEWLINE]);
        if level > 0 {
          Write(seq(intend * level, _ => SPACE));
        }
      }
    }

    /** The String branch of generateObject: the quoted JSON.escapeString of s. */
    method WriteString(s: Text)
      modifies this
      ensures out == old(out) + JSON.Quoted(s)
    {
      var escaped := EscapeString(s);
      Write([QUOTE] + escaped + [QUOTE]);
    }

    /** `generateObject(value, level)`. */
    method GenerateObject(v: JVal, level: int)
      modifies this
      ensures out == old(out) + G.Generated(v, level, intend)
      decreases v, 2
    {
      var inner := level + 1;
      if v.Null? || v.Num? || v.Bool? {
        Write(ValueOf(v));
      } else if v.Str? {
        WriteString(v.s);
      } else if v.Arr? {
        GenerateArray(v.items, inner);
      } else if IsUtilMap(v) {
        GenerateMap(v.entries, inner);
      } else if v.Coll? {
        // generateObject(toArray(), level) raises the level once more
        GenerateArray(v.items, inner + 1);
      } else {
        // generateObject(String.valueOf(value), level) takes the String branch
        WriteString(ValueOf(v));
      }
    }

    /** The array branch of generateObject, at the raised level. */
    method GenerateArray(items: seq<JVal>, level: int)
      modifies this
      ensures out == old(out) + G.ArrayText(items, level, intend)
      decreases items, 1
    {
      Write([LBRACKET]);
      ghost var pre := out;
      var separator: Text := [];
      for i := 0 to |items|
        invariant separator == G.Separator(i)
        invariant out == pre + G.ItemsTo(items, i, level, intend)
      {
        ghost var done := G.ItemsTo(items, i, level, intend);
        WriteAt(separator, level);
        GenerateObject(items[i], level);
        G.AppendTurn(pre, done, G.Separator(i), G.Break(intend, level), G.Generated(items[i], level, intend));
        separator := JSON.SEPARATOR;
      }
      WriteAt([], level - 1);
      Write([RBRACKET]);
      G.AppendFour(old(out), [LBRACKET], G.ItemsTo(items, |items|, level, intend), G.Break(intend, level - 1), [RBRACKET]);
    }

    /** The body of the map loop after its separator: the name through
        String.valueOf, which generateObject writes by its String branch, then
        `: ` and the value. */
    method WriteEntry(e: Entry, level: int)
      modifies this
      ensures out == old(out) + G.EntryText(e, level, intend)
      decreases e, 0
    {
      WriteString(ValueOf(e.key));
      Write([COLON, SPACE]);
      GenerateObject(e.value, level);
      G.AppendThree(old(out), JSON.Quoted(ValueOf(e.key)), [COLON, SPACE], G.Generated(e.value, level, intend));
    }

    /** The map branch of generateObject, at the raised level. */
    method GenerateMap(entries: seq<Entry>, level: int)
      modifies this
      ensures out == old(out) + G.MapText(entries, level, intend)
      decreases entries, 1
    {
      Write([LBRACE]);
      ghost var pre := out;
      var separator: Text := [];
      for i := 0 to |entries|
        invariant separator == G.Separator(i)
        invariant out == pre + G.EntriesTo(entries, i, level, intend)
      {
        ghost var done := G.EntriesTo(entries, i, level, intend);
        WriteAt(separator, level);
        WriteEntry(entries[i], level);
        G.AppendTurn(pre, done, G.Separator(i), G.Break(intend, level), G.EntryText(entries[i], level, intend));
        separator := JSON.SEPARATOR;
      }
      WriteAt([], level - 1);
      Write([RBRACE]);
      G.AppendFour(old(out), [LBRACE], G.EntriesTo(entries, |entries|, level, intend), G.Break(intend, level - 1), [RBRACE]);
    }
  }

  // ---------------------------------------------------------------- properties

  /** Without indentation nothing but the token text is written, and JSON.parse
      reads it back as the value it was written from. */
  lemma CompactReadsBack(v: JVal, level: int, intend: int)
    requires intend <= 0 && JSON.Document(v)
    ensures G.Generated(v, level, intend) == JSON.Stringify(v)
    ensures JSON.Parsed(G.Generated(v, level, intend)) == Ok(v)
  {
    G.CompactGenerated(v, level, intend);
    JSON.StringifyParsed(v);
  }

  /** Each nesting level writes its element one level deeper: an array of one
      element puts it after a break at the raised level and closes after a break
      at the level of the call. */
  lemma SingletonNesting(c: JType, x: JVal, level: int, intend: int)
    ensures G.Generated(Arr(c, [x]), level, intend)
      == [LBRACKET] + G.Break(intend, level + 1) + G.Generated(x, level + 1, intend) + G.Break(intend, level) + [RBRACKET]
  {
    var open, close := G.Break(intend, level + 1), G.Break(intend, level);
    var inner := G.Generated(x, level + 1, intend);
    assert G.Generated(Arr(c, [x]), level, intend) == G.ArrayText([x], level + 1, intend);
    SingletonItems(x, level + 1, intend);
    assert G.ArrayText([x], level + 1, intend) == [LBRACKET] + (open + inner) + close + [RBRACKET];
    Regroup([LBRACKET], open, inner, close, [RBRACKET]);
  }

  /** Regrouping a concatenation of five texts. */
  lemma Regroup(a: Text, b: Text, c: Text, d: Text, e: Text)
    ensures a + (b + c) + d + e == a + b + c + d + e
  {
  }

  /** The loop over a single element writes a break and the element. */
  lemma SingletonItems(x: JVal, level: int, intend: int)
    ensures G.ItemsTo([x], 1, level, intend) == G.Break(intend, level) + G.Generated(x, level, intend)
  {
    assert G.ItemsTo([x], 1, level, intend) == [] + G.Item([x], 0, level, intend);
  }

  /** One level deeper is intend more spaces of padding. */
  lemma DeeperBreak(level: nat, intend: int)
    requires intend > 0
    ensures |G.Break(intend, level + 1)| == |G.Break(intend, level)| + intend
  {
  }

  /** Elements are written in index order: the text of the first n elements does
      not depend on the later ones and begins the text of all of them. */
  lemma {:induction false} ItemsInOrder(items: seq<JVal>, n: nat, m: nat, level: int, intend: int)
    requires n <= m <= |items|
    ensures G.ItemsTo(items, n, level, intend) == G.ItemsTo(items[..n], n, level, intend)
    ensures G.ItemsTo(items, n, level, intend) <= G.ItemsTo(items, m, level, intend)
    decreases m
  {
    if n < m {
      ItemsInOrder(items, n, m - 1, level, intend);
    } else {
      PrefixItems(items, n, level, intend);
    }
  }

  lemma {:induction false} PrefixItems(items: seq<JVal>, n: nat, level: int, intend: int)
    requires n <= |items|
    ensures G.ItemsTo(items, n, level, intend) == G.ItemsTo(items[..n], n, level, intend)
    decreases n
  {
    if n > 0 {
      PrefixItems(items, n - 1, level, intend);
      PrefixItems(items[..n], n - 1, level, intend);
      assert items[..n][..n - 1] == items[..n - 1];
      assert items[..n][n - 1] == items[n - 1];
    }
  }
}
