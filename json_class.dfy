/** org.miktim.json.Json (src/org/miktim/json/Json.java): a LinkedHashMap from
    member names to values, with setters that normalise the name, a raw put for
    the parsers, reads by name and array indices, and casts of what it reads. */
module JsonClass {
  import opened JavaLang
  import opened Values
  import JSONMembers
  import JSONAdapter
  import Cursor
  import PJ = ParserJSON

  /** What `(Json) JSON.fromJSON(text)` gives to putAll. JSON.fromJSON is not part of
      this model; the parse of ParserJSON, which builds Json objects, stands in for
      it. A null value fails putAll, any other non-Json value the cast. */
  function TextMembers(text: Text): (r: Result<seq<Entry>>)
    ensures r.Ok? ==> PJ.Members(r.value)
  {
    match PJ.FirstValue(text)
    case Err(e) => Err(e)
    case Ok(Null) => Err(NullPointerException)
    case Ok(Map(JsonMap, entries)) =>
      PJ.ParseValueFacts(text, Cursor.Start(PJ.ORIGIN));
      Ok(entries)
    case Ok(_) => Err(ClassCastException)
  }

  /** `exists(memberName, indices)`: false for an absent name and for an index out
      of range; any other exception of get goes to the caller. */
  function ExistsIn(members: seq<Entry>, name: JVal, indices: seq<int>): (r: Result<bool>)
    ensures r == Ok(true) <==> HasKey(members, name) && ArrayPath(Member(members, name), indices).Ok?
    ensures r == Ok(false) <==>
      !HasKey(members, name) || ArrayPath(Member(members, name), indices) == Err(IndexOutOfBoundsException)
  {
    if !HasKey(members, name) then Ok(false)
    else match ArrayPath(Member(members, name), indices)
      case Ok(_) => Ok(true)
      case Err(IndexOutOfBoundsException) => Ok(false)
      case Err(e) => Err(e)
  }

  /** `get(memberName)`: the value, or null for an absent name. */
  function Member(members: seq<Entry>, name: JVal): (v: JVal)
    ensures HasKey(members, name) ==> Entry(name, v) in members
    ensures !HasKey(members, name) ==> v == Null
  {
    match Lookup(members, name)
    case Some(v) => JSONMembers.IndexOfAt(members, name); v
    case None => LookupHasKey(members, name); Null
  }

  /** `getArray(...)` of the value read: an Object[] as it is; any other array cast
      to Object[] by JSONAdapter (JSON.cast is not part of this model); null fails
      `getClass()`, any other value the cast to Object[]. */
  function ObjectArray(obj: JVal): (r: Result<JVal>)
  {
    if obj.Null? then Err(NullPointerException)
    else if obj.Arr? && obj.component == OBJECT then Ok(obj)
    else if obj.Arr? then JSONAdapter.CastToClass(obj, Some(ArrayOf(OBJECT)))
    else Err(ClassCastException)
  }

  /** getArray fails exactly on null and on a value that is not an array, and
      otherwise gives an Object[] of the same elements, primitives boxed as Array.get
      boxes them. */
  lemma ObjectArrayElements(obj: JVal)
    ensures ObjectArray(obj).Ok? <==> obj.Arr?
    ensures obj.Arr? ==> ObjectArray(obj) == Ok(Arr(OBJECT, obj.items))
    ensures obj.Null? ==> ObjectArray(obj) == Err(NullPointerException)
    ensures !obj.Null? && !obj.Arr? ==> ObjectArray(obj) == Err(ClassCastException)
  {
    if obj.Arr? && obj.component != OBJECT {
      var cls := ArrayOf(OBJECT);
      assert JSONAdapter.ElementClass(cls) == OBJECT;
      var a := JSONAdapter.GetAdapter(OBJECT);
      assert a == JSONAdapter.DefaultAdapter;
      var items := JSONAdapter.CastItems(obj.items, OBJECT, a, 0);
      JSONAdapter.CastItemsObjects(obj.items, 0);
      assert obj.items[0..] == obj.items;
    }
  }

  /** org.miktim.json.Json: its LinkedHashMap as the ordered member list. */
  class Json {
    var members: seq<Entry>

    predicate Valid()
      reads this
    {
      NamedMembers(members)
    }

    /** `new Json()`. */
    constructor ()
      ensures Valid() && members == []
    {
      members := [];
    }

    /** `new Json(Object... members)`: `set` each name/value pair in turn; an odd
        count runs off the array. */
    static method FromPairs(args: seq<JVal>) returns (r: Result<Json>)
      ensures r.Ok? <==> |args| % 2 == 0
      ensures r.Ok? ==> fresh(r.value) && r.value.Valid() && JSONMembers.Pairs(args, 0, []) == Ok(r.value.members)
    {
      var json := new Json();
      ghost var spec := JSONMembers.Pairs(args, 0, []);
      JSONMembers.PairsOutcome(args, 0, []);
      var i := 0;
      while i < |args|
        invariant 0 <= i <= |args| && i % 2 == 0
        invariant json.Valid() && JSONMembers.Pairs(args, i, json.members) == spec
        decreases |args| - i
      {
        if i + 1 == |args| {
          return Err(IndexOutOfBoundsException);
        }
        json.Set(args[i], args[i + 1]);
        i := i + 2;
      }
      return Ok(json);
    }

    /** `new Json(String jsonText)`: putAll of the parsed object. */
    static method FromText(text: Text) returns (r: Result<Json>)
      ensures match TextMembers(text)
        case Ok(ms) => r.Ok? && fresh(r.value) && r.value.Valid() && r.value.members == ms
        case Err(e) => r == Err(e)
    {
      var parser := new PJ.Parser(text);
      var top :- parser.ParseObject();
      if top.Null? {
        return Err(NullPointerException);
      }
      if !(top.Map? && top.cls == JsonMap) {
        return Err(ClassCastException);
      }
      var json := new Json();
      json.members := top.entries;
      return Ok(json);
    }

    /** `superPut(key, value)`: LinkedHashMap.put with the key as given, null
        included; the previous value, or null. */
    method SuperPut(key: JVal, value: JVal) returns (previous: JVal)
      requires Valid() && (key.Str? || key.Null?)
      modifies this
      ensures Valid()
      ensures members == Put(old(members), key, value)
      ensures previous == Member(old(members), key)
      ensures Lookup(members, key) == Some(value)
      ensures forall k | k != key :: Lookup(members, k) == Lookup(old(members), k)
      ensures Keys(members) == if HasKey(old(members), key) then Keys(old(members)) else Keys(old(members)) + [key]
    {
      previous := Member(members, key);
      PutSemantics(members, key, value);
      PutNamed(members, key, value);
      members := Put(members, key, value);
    }

    /** `put(key, value)`: a null key is stored as the name "null". */
    method PutMember(key: JVal, value: JVal) returns (previous: JVal)
      requires Valid() && (key.Str? || key.Null?)
      modifies this
      ensures Valid()
      ensures members == Put(old(members), Normalized(key), value)
      ensures previous == Member(old(members), Normalized(key))
      ensures Lookup(members, Normalized(key)) == Some(value)
      ensures forall k | k != Normalized(key) :: Lookup(members, k) == Lookup(old(members), k)
    {
      previous := SuperPut(Normalized(key), value);
    }

    /** `set(memberName, value)`: put under `String.valueOf(memberName)`. */
    method Set(name: JVal, value: JVal)
      requires Valid()
      modifies this
      ensures Valid()
      ensures members == Put(old(members), Str(ValueOf(name)), value)
      ensures Lookup(members, Str(ValueOf(name))) == Some(value)
      ensures forall k | k != Str(ValueOf(name)) :: Lookup(members, k) == Lookup(old(members), k)
    {
      var _ := PutMember(Str(ValueOf(name)), value);
    }

    /** `listNames()`: the names in insertion order. */
    method ListNames() returns (names: seq<JVal>)
      ensures names == Keys(members)
    {
      names := [];
      for i := 0 to |members|
        invariant names == Keys(members[..i])
      {
        KeysSnoc(members[..i], members[i]);
        assert members[..i + 1] == members[..i] + [members[i]];
        names := names + [members[i].key];
      }
      assert members[..|members|] == members;
    }

    /** `get(memberName, indices...)`: the member, then `Array.get` with each index
        in turn. */
    method Get(name: JVal, indices: seq<int>) returns (r: Result<JVal>)
      ensures r == ArrayPath(Member(members, name), indices)
    {
      var obj := Member(members, name);
      for i := 0 to |indices|
        invariant ArrayPath(Member(members, name), indices[..i]) == Ok(obj)
      {
        ArrayPathConcat(Member(members, name), indices[..i], [indices[i]]);
        assert indices[..i] + [indices[i]] == indices[..i + 1];
        var next := ArrayGet(obj, indices[i]);
        if next.Err? {
          ArrayPathConcat(Member(members, name), indices[..i + 1], indices[i + 1..]);
          assert indices[..i + 1] + indices[i + 1..] == indices;
          return Err(next.error);
        }
        obj := next.value;
      }
      assert indices[..|indices|] == indices;
      return Ok(obj);
    }

    /** `exists(memberName, indices...)`. */
    method Exists(name: JVal, indices: seq<int>) returns (r: Result<bool>)
      ensures r == ExistsIn(members, name, indices)
    {
      LookupHasKey(members, name);
      if Lookup(members, name).None? {
        return Ok(false);
      }
      var got := Get(name, indices);
      if got.Err? {
        if got.error == IndexOutOfBoundsException {
          return Ok(false);
        }
        return Err(got.error);
      }
      return Ok(true);
    }

    /** `getArray(memberName, indices...)`. */
    method GetArray(name: JVal, indices: seq<int>) returns (r: Result<JVal>)
      ensures match ArrayPath(Member(members, name), indices)
        case Err(e) => r == Err(e)
        case Ok(obj) => r == ObjectArray(obj)
    {
      var obj :- Get(name, indices);
      if obj.Null? {
        return Err(NullPointerException);
      }
      if obj.Arr? && obj.component == OBJECT {
        return Ok(obj);
      }
      if obj.Arr? {
        r := JSONAdapter.CastByClass(obj, Some(ArrayOf(OBJECT)));
        return;
      }
      return Err(ClassCastException);
    }

    /** `castMember(sample, memberName, indices...)`: JSON.cast by sample, for which
        JSONAdapter.cast stands in. */
    method CastMemberBySample(sample: JVal, name: JVal, indices: seq<int>) returns (r: Result<JVal>)
      ensures match ArrayPath(Member(members, name), indices)
        case Err(e) => r == Err(e)
        case Ok(obj) => r == JSONAdapter.CastBySample(obj, sample)
    {
      var obj :- Get(name, indices);
      if sample.Null? {
        return Ok(Null);
      }
      r := JSONAdapter.CastByClass(obj, Some(JSONAdapter.ClassOf(sample)));
    }

    /** `castMember(cls, memberName, indices...)`. */
    method CastMemberByClass(cls: Option<JType>, name: JVal, indices: seq<int>) returns (r: Result<JVal>)
      ensures match ArrayPath(Member(members, name), indices)
        case Err(e) => r == Err(e)
        case Ok(obj) => r == JSONAdapter.CastToClass(obj, cls)
    {
      var obj :- Get(name, indices);
      r := JSONAdapter.CastByClass(obj, cls);
    }
  }

  /** The name put stores: null becomes "null". */
  function Normalized(key: JVal): (k: JVal)
    requires key.Str? || key.Null?
    ensures k.Str?
    ensures key.Str? ==> k == key
  {
    if key.Null? then Str(Ascii("null")) else key
  }

  /** set and put agree on String names; put and superPut differ only on null. */
  lemma SetIsPut(name: JVal)
    ensures name.Str? ==> Str(ValueOf(name)) == Normalized(name)
    ensures name.Null? ==> Str(ValueOf(name)) == Normalized(name) && Normalized(name) != name
  {
  }

  lemma KeysSnoc(es: seq<Entry>, e: Entry)
    ensures Keys(es + [e]) == Keys(es) + [e.key]
  {
  }
}
