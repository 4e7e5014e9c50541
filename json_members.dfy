/** The member operations of org.miktim.json.JSON (src/org/miktim/json/JSON.java): the
    class is a LinkedHashMap from member names to values, built from name/value
    pairs or from JSON text, read by name and array indices, and normalized by a
    round trip through its own text. */
module JSONMembers {
  import opened JavaLang
  import opened Values
  import P = JSON

  /** What the pair constructor builds from `args[i..]` onto `acc`: each name is
      written through String.valueOf and stored with `put`. An odd count runs off
      the array at its last name. */
  function Pairs(args: seq<JVal>, i: nat, acc: seq<Entry>): (r: Result<seq<Entry>>)
    requires i <= |args|
    decreases |args| - i
  {
    if i == |args| then Ok(acc)
    else if i + 1 == |args| then Err(IndexOutOfBoundsException)
    else Pairs(args, i + 2, Put(acc, Str(ValueOf(args[i])), args[i + 1]))
  }

  /** The pair constructor fails exactly on an odd count; otherwise every name it
      was given is a member, and every member is one of the pairs it was given. */
  lemma PairsMembers(args: seq<JVal>)
    ensures Pairs(args, 0, []).Ok? <==> |args| % 2 == 0
    ensures Pairs(args, 0, []).Ok? ==> NamedMembers(Pairs(args, 0, []).value)
    ensures Pairs(args, 0, []).Ok? ==> forall p | p in PairList(args, 0) :: HasKey(Pairs(args, 0, []).value, p.key)
    ensures Pairs(args, 0, []).Ok? ==> forall e | e in Pairs(args, 0, []).value :: e in PairList(args, 0)
  {
    PairsOutcome(args, 0, []);
    if Pairs(args, 0, []).Ok? {
      PairsNames(args, 0, []);
      PairsFrom(args, 0, []);
    }
  }

  /** The outcome from `args[i..]` on: a failure exactly on an odd count, and
      distinct String names otherwise. */
  lemma {:induction false} PairsOutcome(args: seq<JVal>, i: nat, acc: seq<Entry>)
    requires i <= |args| && NamedMembers(acc)
    ensures Pairs(args, i, acc).Ok? <==> (|args| - i) % 2 == 0
    ensures Pairs(args, i, acc).Ok? ==> NamedMembers(Pairs(args, i, acc).value)
    decreases |args| - i
  {
    if i + 1 < |args| {
      var k0 := Str(ValueOf(args[i]));
      var next := Put(acc, k0, args[i + 1]);
      PutNamed(acc, k0, args[i + 1]);
      PairsOutcome(args, i + 2, next);
      assert Pairs(args, i, acc) == Pairs(args, i + 2, next);
      TwoFewer(|args|, i);
    }
  }

  /** Two fewer arguments leave the parity of the count unchanged. */
  lemma TwoFewer(n: int, i: int)
    ensures (n - i) % 2 == (n - (i + 2)) % 2
  {
  }

  /** Every name given from `args[i..]` on is a member of the result. */
  lemma {:induction false} PairsNames(args: seq<JVal>, i: nat, acc: seq<Entry>)
    requires i <= |args| && NamedMembers(acc) && Pairs(args, i, acc).Ok?
    ensures forall p | p in PairList(args, i) :: HasKey(Pairs(args, i, acc).value, p.key)
    decreases |args| - i
  {
    if i < |args| {
      var k0 := Str(ValueOf(args[i]));
      var next := Put(acc, k0, args[i + 1]);
      PutNamed(acc, k0, args[i + 1]);
      PutSemantics(acc, k0, args[i + 1]);
      PairsNames(args, i + 2, next);
      LookupHasKey(next, k0);
      PairsKeep(args, i + 2, next, k0);
      assert PairList(args, i) == [Entry(k0, args[i + 1])] + PairList(args, i + 2);
    }
  }

  /** Every member of the result was in `acc` or is a pair given from `args[i..]` on. */
  lemma {:induction false} PairsFrom(args: seq<JVal>, i: nat, acc: seq<Entry>)
    requires i <= |args| && Pairs(args, i, acc).Ok?
    ensures forall e | e in Pairs(args, i, acc).value :: e in acc || e in PairList(args, i)
    decreases |args| - i
  {
    if i < |args| {
      var k0 := Str(ValueOf(args[i]));
      var next := Put(acc, k0, args[i + 1]);
      PutEntries(acc, k0, args[i + 1]);
      PairsFrom(args, i + 2, next);
      assert PairList(args, i) == [Entry(k0, args[i + 1])] + PairList(args, i + 2);
    }
  }

  /** The name/value pairs given from `args[i..]` on, names through String.valueOf. */
  function PairList(args: seq<JVal>, i: nat): (ps: seq<Entry>)
    requires i <= |args|
    decreases |args| - i
  {
    if i + 1 >= |args| then [] else [Entry(Str(ValueOf(args[i])), args[i + 1])] + PairList(args, i + 2)
  }

  /** A name, once a member, stays one while more pairs are put. */
  lemma {:induction false} PairsKeep(args: seq<JVal>, i: nat, acc: seq<Entry>, name: JVal)
    requires i <= |args| && NamedMembers(acc) && HasKey(acc, name)
    requires Pairs(args, i, acc).Ok?
    ensures HasKey(Pairs(args, i, acc).value, name)
    decreases |args| - i
  {
    if i < |args| {
      var k0 := Str(ValueOf(args[i]));
      var next := Put(acc, k0, args[i + 1]);
      PutSemantics(acc, k0, args[i + 1]);
      PutEntries(acc, k0, args[i + 1]);
      if name != k0 {
        assert Lookup(next, name) == Lookup(acc, name);
        LookupHasKey(acc, name);
        LookupHasKey(next, name);
      }
      PairsKeep(args, i + 2, next, name);
    }
  }

  /** `(JSON) JSON.parse(text)` poured into a new map by putAll: the members of the
      parsed object, in their order. Any other top-level value fails the cast, and a
      null one fails putAll. */
  function TextMembers(text: Text): (r: Result<seq<Entry>>)
    ensures r.Ok? ==> P.Members(r.value)
  {
    match P.Parsed(text)
    case Err(e) => Err(e)
    case Ok(Null) => Err(NullPointerException)
    case Ok(Map(JSONMap, entries)) =>
      P.ParsedFacts(text);
      Ok(entries)
    case Ok(_) => Err(ClassCastException)
  }

  /** A JSON text written from members parse can produce gives those members back. */
  lemma TextMembersStringified(members: seq<Entry>)
    requires P.Members(members)
    ensures TextMembers(P.Stringify(Map(JSONMap, members))) == Ok(members)
  {
    P.StringifyParsed(Map(JSONMap, members));
  }

  /** org.miktim.json.JSON: its LinkedHashMap as the ordered member list. */
  class JSON {
    var members: seq<Entry>

    predicate Valid()
      reads this
    {
      NamedMembers(members)
    }

    /** `new JSON()`: no members. */
    constructor ()
      ensures Valid() && members == []
    {
      members := [];
    }

    /** `new JSON(Object... members)`: put each pair in turn. */
    static method FromPairs(args: seq<JVal>) returns (r: Result<JSON>)
      ensures r.Ok? <==> |args| % 2 == 0
      ensures r.Ok? ==> fresh(r.value) && r.value.Valid() && Pairs(args, 0, []) == Ok(r.value.members)
    {
      var json := new JSON();
      ghost var spec := Pairs(args, 0, []);
      PairsOutcome(args, 0, []);
      var i := 0;
      while i < |args|
        invariant 0 <= i <= |args| && i % 2 == 0
        invariant json.Valid() && Pairs(args, i, json.members) == spec
        decreases |args| - i
      {
        if i + 1 == |args| {
          return Err(IndexOutOfBoundsException);
        }
        json.Set(Str(ValueOf(args[i])), args[i + 1]);
        i := i + 2;
      }
      return Ok(json);
    }

    /** `new JSON(String jsonText)`. */
    static method FromText(text: Text) returns (r: Result<JSON>)
      ensures match TextMembers(text)
        case Ok(ms) => r.Ok? && fresh(r.value) && r.value.Valid() && r.value.members == ms
        case Err(e) => r == Err(e)
    {
      var parser := new P.Parser();
      var top :- parser.Parse(text);
      if top.Null? {
        return Err(NullPointerException);
      }
      if !(top.Map? && top.cls == JSONMap) {
        return Err(ClassCastException);
      }
      var json := new JSON();
      json.members := top.entries;
      return Ok(json);
    }

    /** `listNames()`: the names in insertion order. */
    method ListNames() returns (names: seq<JVal>)
      ensures |names| == |members|
      ensures forall i | 0 <= i < |names| :: names[i] == members[i].key
    {
      names := [];
      for i := 0 to |members|
        invariant |names| == i
        invariant forall j | 0 <= j < i :: names[j] == members[j].key
      {
        names := names + [members[i].key];
      }
    }

    /** `exists(memberName)`: containsKey. */
    predicate Exists(name: JVal)
      reads this
    {
      HasKey(members, name)
    }

    /** `set(memberName, value)`: LinkedHashMap.put. A new name goes last; a name
        already present keeps its position and takes the new value. */
    method Set(name: JVal, value: JVal)
      requires Valid() && (name.Str? || name.Null?)
      modifies this
      ensures Valid()
      ensures members == Put(old(members), name, value)
      ensures Lookup(members, name) == Some(value)
      ensures forall k | k != name :: Lookup(members, k) == Lookup(old(members), k)
      ensures Keys(members) == if HasKey(old(members), name) then Keys(old(members)) else Keys(old(members)) + [name]
    {
      PutSemantics(members, name, value);
      PutNamed(members, name, value);
      members := Put(members, name, value);
    }

    /** `get(memberName)`: the value, or null for an absent name. */
    function Member(name: JVal): (v: JVal)
      reads this
      ensures HasKey(members, name) ==> Entry(name, v) in members
      ensures !HasKey(members, name) ==> v == Null
    {
      match Lookup(members, name)
      case Some(v) => IndexOfAt(members, name); v
      case None => Null
    }

    /** `get(memberName, indices...)`: the member, then Array.get with each index
        in turn. */
    method Get(name: JVal, indices: seq<int>) returns (r: Result<JVal>)
      ensures r == ArrayPath(Member(name), indices)
    {
      var obj := Member(name);
      for i := 0 to |indices|
        invariant ArrayPath(Member(name), indices[..i]) == Ok(obj)
      {
        ArrayPathConcat(Member(name), indices[..i], [indices[i]]);
        assert indices[..i] + [indices[i]] == indices[..i + 1];
        var next := ArrayGet(obj, indices[i]);
        if next.Err? {
          ArrayPathConcat(Member(name), indices[..i + 1], indices[i + 1..]);
          assert indices[..i + 1] + indices[i + 1..] == indices;
          return Err(next.error);
        }
        obj := next.value;
      }
      assert indices[..|indices|] == indices;
      return Ok(obj);
    }

    /** `stringify()` and `toString()`. */
    function ToText(): Text
      reads this
    {
      P.Stringify(Map(JSONMap, members))
    }

    /** `normalize()`: `(JSON) JSON.parse(toString())`. Members parse could have
        produced come back unchanged. */
    method Normalize() returns (r: Result<JSON>)
      ensures match TextMembers(ToText())
        case Ok(ms) => r.Ok? && fresh(r.value) && r.value.members == ms
        case Err(e) => r == Err(e)
      ensures P.Members(members) ==> r.Ok? && r.value.members == members
    {
      if P.Members(members) {
        TextMembersStringified(members);
      }
      r := FromText(ToText());
    }
  }

  /** The entry a successful lookup finds. */
  lemma IndexOfAt(es: seq<Entry>, k: JVal)
    requires Lookup(es, k).Some?
    ensures Entry(k, Lookup(es, k).value) in es
  {
    var i := IndexOf(es, k).value;
    assert es[i] == Entry(k, Lookup(es, k).value);
  }
}
