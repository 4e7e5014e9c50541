/** org.miktim.json.JSONObject (src/org/miktim/json/JSONObject.java), the older
    self-converting base class: its ignore list is a sorted array searched by
    binary search, its accessible fields follow their own mask, and toJSON /
    fromJSON walk an object's fields into and out of an org.miktim.json.JSON. */
module JSONObject {
  import opened JavaLang
  import opened Values
  import opened HostReflect
  import AO = AbstractObject
  import JSONMembers
  import JsonClass
  import JSONAdapter

  // ---------------------------------------------------------------- String.compareTo

  /** `a.compareTo(b)`: the difference of the first differing code units, or
      of the lengths when one is a prefix of the other. */
  function CompareTo(a: Text, b: Text): int
    decreases |a|
  {
    if a == [] || b == [] then |a| - |b|
    else if a[0] != b[0] then a[0] as int - b[0] as int
    else CompareTo(a[1..], b[1..])
  }

  /** `a.compareTo(b) <= 0`. */
  predicate Le(a: Text, b: Text) {
    CompareTo(a, b) <= 0
  }

  /** compareTo is zero exactly on equal strings, and swapping the arguments
      flips its sign. */
  lemma {:induction false} CompareToSign(a: Text, b: Text)
    ensures CompareTo(a, b) == 0 <==> a == b
    ensures CompareTo(b, a) < 0 <==> CompareTo(a, b) > 0
    decreases |a|
  {
    if a != [] && b != [] && a[0] == b[0] {
      CompareToSign(a[1..], b[1..]);
      assert a == [a[0]] + a[1..] && b == [b[0]] + b[1..];
    }
  }

  /** Le is a total order. */
  lemma LeTotal(a: Text, b: Text)
    ensures Le(a, b) || Le(b, a)
  {
    CompareToSign(a, b);
  }

  lemma {:induction false} LeTransitive(a: Text, b: Text, c: Text)
    requires Le(a, b) && Le(b, c)
    ensures Le(a, c)
    decreases |a|
  {
    if a != [] && b != [] && c != [] && a[0] == b[0] && b[0] == c[0] {
      LeTransitive(a[1..], b[1..], c[1..]);
    }
  }

  lemma LeAntisymmetric(a: Text, b: Text)
    requires Le(a, b) && Le(b, a)
    ensures a == b
  {
    CompareToSign(a, b);
    CompareToSign(b, a);
  }

  predicate Sorted(s: seq<Text>) {
    forall p, q | 0 <= p < q < |s| :: Le(s[p], s[q])
  }

  // ---------------------------------------------------------------- Arrays.binarySearch

  /** `Arrays.binarySearch(a, key) >= 0` on the range low..high (inclusive),
      probing the middle `(low + high) >>> 1`. */
  function Search(a: seq<Text>, key: Text, low: int, high: int): bool
    requires 0 <= low && high < |a|
    decreases high - low + 1
  {
    if low > high then false
    else
      var mid := (low + high) / 2;
      var cmp := CompareTo(a[mid], key);
      if cmp < 0 then Search(a, key, mid + 1, high)
      else if cmp > 0 then Search(a, key, low, mid - 1)
      else true
  }

  /** The search finds only names the array holds. */
  lemma {:induction false} SearchFindsMember(a: seq<Text>, key: Text, low: int, high: int)
    requires 0 <= low && high < |a| && Search(a, key, low, high)
    ensures key in a
    decreases high - low + 1
  {
    var mid := (low + high) / 2;
    var cmp := CompareTo(a[mid], key);
    CompareToSign(a[mid], key);
    if cmp < 0 {
      SearchFindsMember(a, key, mid + 1, high);
    } else if cmp > 0 {
      SearchFindsMember(a, key, low, mid - 1);
    }
  }

  /** On a sorted array the search finds a name the range holds at k. */
  lemma {:induction false} SearchFindsSorted(a: seq<Text>, key: Text, low: int, high: int, k: int)
    requires Sorted(a) && 0 <= low <= k <= high < |a| && a[k] == key
    ensures Search(a, key, low, high)
    decreases high - low + 1
  {
    var mid := (low + high) / 2;
    var probe := a[mid];
    var cmp := CompareTo(probe, key);
    CompareToSign(probe, key);
    CompareToSign(key, key);
    if cmp < 0 {
      CompareToSign(key, probe);
      assert k < mid ==> Le(key, probe);
      assert mid < k;
      assert Search(a, key, low, high) == Search(a, key, mid + 1, high);
      SearchFindsSorted(a, key, mid + 1, high, k);
    } else if cmp > 0 {
      assert mid < k ==> Le(probe, key);
      assert k < mid;
      assert Search(a, key, low, high) == Search(a, key, low, mid - 1);
      SearchFindsSorted(a, key, low, mid - 1, k);
    }
  }

  /** `isIgnored` on an array of names: found by the binary search. */
  function Found(a: seq<Text>, key: Text): bool {
    |a| > 0 && Search(a, key, 0, |a| - 1)
  }

  /** On a sorted array, isIgnored is membership. */
  lemma FoundSorted(a: seq<Text>, key: Text)
    requires Sorted(a)
    ensures Found(a, key) <==> key in a
  {
    if key in a {
      var k :| 0 <= k < |a| && a[k] == key;
      SearchFindsSorted(a, key, 0, |a| - 1, k);
    }
    if Found(a, key) {
      SearchFindsMember(a, key, 0, |a| - 1);
    }
  }

  /** An array changed through the reference getIgnored hands out need not be
      sorted, and then a name it holds can be missed. */
  lemma UnsortedMisses()
    ensures var a := [Ascii("b"), Ascii("a")];
      Ascii("a") in a && !Found(a, Ascii("a"))
  {
    var a := [Ascii("b"), Ascii("a")];
    assert CompareTo(a[0], Ascii("a")) == 1;
    assert !Search(a, Ascii("a"), 0, -1);
  }

  /** The names the binary search finds in the array: the ignore list as the
      walks see it. */
  function IgnoredSet(a: seq<Text>): (s: set<Text>)
    ensures forall n :: n in s <==> n in a && Found(a, n)
  {
    set n | n in a && Found(a, n)
  }

  // ---------------------------------------------------------------- Arrays.sort

  /** The first n elements of the array are in order. */
  predicate SortedTo(a: array<Text>, n: int)
    reads a
  {
    forall p, q | 0 <= p < q < n && q < a.Length :: Le(a[p], a[q])
  }

  /** `Arrays.sort(a)` on an array of names, as an insertion sort: afterwards
      sorted by compareTo and a permutation of what it held. */
  method Sort(a: array<Text>)
    modifies a
    ensures Sorted(a[..])
    ensures multiset(a[..]) == multiset(old(a[..]))
  {
    for i := 0 to a.Length
      invariant SortedTo(a, i)
      invariant multiset(a[..]) == multiset(old(a[..]))
    {
      Insert(a, i);
    }
  }

  /** Moves a[i] down into the sorted prefix a[..i]. */
  method Insert(a: array<Text>, i: int)
    requires 0 <= i < a.Length && SortedTo(a, i)
    modifies a
    ensures SortedTo(a, i + 1)
    ensures multiset(a[..]) == multiset(old(a[..]))
  {
    var j := i;
    while j > 0 && !Le(a[j - 1], a[j])
      invariant 0 <= j <= i
      invariant multiset(a[..]) == multiset(old(a[..]))
      invariant forall p, q | 0 <= p < q <= i && q != j :: Le(a[p], a[q])
      invariant 0 < j < i ==> Le(a[j - 1], a[j + 1])
    {
      LeTotal(a[j - 1], a[j]);
      Swap(a, j - 1, j);
      j := j - 1;
    }
    forall p, q | 0 <= p < q <= i ensures Le(a[p], a[q]) {
      if q == j && p < j - 1 {
        LeTransitive(a[p], a[j - 1], a[j]);
      }
    }
  }

  method Swap(a: array<Text>, p: int, q: int)
    requires 0 <= p < q < a.Length
    modifies a
    ensures a[..] == old(a[..])[p := old(a[q])][q := old(a[p])]
    ensures multiset(a[..]) == multiset(old(a[..]))
  {
    a[p], a[q] := a[q], a[p];
  }

  /** On a sorted array the ignore list is exactly the names it holds. */
  lemma IgnoredSetSorted(a: seq<Text>)
    requires Sorted(a)
    ensures IgnoredSet(a) == set n | n in a
  {
    forall n | n in a ensures Found(a, n) {
      FoundSorted(a, n);
    }
  }

  // ---------------------------------------------------------------- the ignore list

  /** A JSONObject's own state: its ignore list, a String[]. */
  class Converter {
    var ignoredFields: array<Text>

    constructor ()
      ensures fresh(ignoredFields) && ignoredFields.Length == 0
    {
      ignoredFields := new Text[0];
    }

    /** The ignore list as the walks see it. */
    function Ignored(): set<Text>
      reads this, ignoredFields
    {
      IgnoredSet(ignoredFields[..])
    }

    /** `isIgnored(fldName)`: `Arrays.binarySearch(ignoredFields, fldName) >= 0`. */
    method IsIgnored(name: Text) returns (b: bool)
      ensures b == Found(ignoredFields[..], name)
      ensures b ==> name in ignoredFields[..]
      ensures Sorted(ignoredFields[..]) ==> (b <==> name in ignoredFields[..])
    {
      var a := ignoredFields;
      var low, high := 0, a.Length - 1;
      b := false;
      while low <= high
        invariant 0 <= low && high < a.Length
        invariant Search(a[..], name, low, high) == Found(a[..], name)
        decreases high - low + 1
      {
        var mid := (low + high) / 2;
        var cmp := CompareTo(a[mid], name);
        if cmp < 0 {
          low := mid + 1;
        } else if cmp > 0 {
          high := mid - 1;
        } else {
          assert Search(a[..], name, low, high);
          b := true;
          break;
        }
      }
      if b {
        assert Found(a[..], name);
        SearchFindsMember(a[..], name, 0, a.Length - 1);
      }
      if Sorted(a[..]) {
        FoundSorted(a[..], name);
      }
    }

    /** `setIgnored(fldNames)`: a sorted clone of the caller's array, which the
        converter never shares. */
    method SetIgnored(names: array<Text>)
      modifies this
      ensures fresh(ignoredFields)
      ensures Sorted(ignoredFields[..])
      ensures multiset(ignoredFields[..]) == multiset(names[..])
      ensures Ignored() == set n | n in names[..]
    {
      var copy := new Text[names.Length](i requires 0 <= i < names.Length reads names => names[i]);
      assert copy[..] == names[..];
      Sort(copy);
      ignoredFields := copy;
      IgnoredSetSorted(copy[..]);
      forall n ensures n in copy[..] <==> n in names[..] {
        assert n in copy[..] <==> n in multiset(copy[..]);
      }
    }

    /** `getIgnored()`: the array itself, not a copy. */
    method GetIgnored() returns (a: array<Text>)
      ensures a == ignoredFields
    {
      a := ignoredFields;
    }

    /** `toJSON()`: this object, seen through reflection as `self`, converted
        under its own ignore list. */
    method ToJSON(h: Hooks, self: HostObject, depth: nat) returns (r: Result<JVal>)
      ensures r == Converted(h, Conv(ClassName(Inst(self)), Ignored()), self, depth)
    {
      r := ToJSONOf(h, Conv(ClassName(Inst(self)), IgnoredSet(ignoredFields[..])), self, depth);
    }

    /** `fromJSON(json)`: the fields of this object, seen through reflection as
        `self`, loaded from json; the result is the object after the loads. */
    method FromJSON(h: Hooks, self: HostObject, json: JVal, depth: nat) returns (r: Result<HostObject>)
      ensures r == Revived(h, Conv(ClassName(Inst(self)), Ignored()), self, json, depth)
    {
      r := FromJSONOf(h, Conv(ClassName(Inst(self)), IgnoredSet(ignoredFields[..])), self, json, depth);
    }

    /** `castMember(memberName, jsonObj, sample)`: the member cast by the
        sample when the JSON has it, the sample otherwise. */
    method CastMember(name: Text, json: JSONMembers.JSON, sample: JVal) returns (r: Result<JVal>)
      ensures r == AO.MemberCast(json.members, name, sample)
    {
      if !json.Exists(Str(name)) {
        return Ok(sample);
      }
      var member := json.Member(Str(name));
      assert member == JsonClass.Member(json.members, Str(name));
      if sample.Null? {
        return Ok(Null);
      }
      r := JSONAdapter.CastByClass(member, Some(JSONAdapter.ClassOf(sample)));
    }
  }

  // ---------------------------------------------------------------- accessible fields

  /** The mask for class k of the chain: NATIVE joins for a class outside the
      package of the object's runtime class, PRIVATE after the runtime class. */
  function Mask(k: nat, samePackage: bool): set<Modifier> {
    {Final, Transient, Strict, Interface, Abstract}
      + (if samePackage then {} else {Native})
      + (if k == 0 then {} else {Private})
  }

  /** A field the walk admits: only its modifiers count. */
  predicate Admissible(pkg: nat, k: nat, c: ClassDesc, f: FieldDesc) {
    f.modifiers !! Mask(k, c.pkg == pkg)
  }

  function Admits(pkg: nat): Admit {
    (k: nat, c: ClassDesc, f: FieldDesc) => Admissible(pkg, k, c, f)
  }

  function AccessibleFields(o: HostObject): (fields: seq<FieldRef>)
    ensures ValidRefs(o.chain, fields)
  {
    Accessible(o.chain, Admits(AO.Package(o)))
  }

  /** `getAccessibleFields(obj)`. */
  method GetAccessibleFields(o: HostObject) returns (fields: seq<FieldRef>)
    ensures fields == AccessibleFields(o)
  {
    var chain := o.chain;
    var pkg := AO.Package(o);
    var ignore := {Final, Transient, Strict, Interface, Abstract};
    fields := [];
    var k := 0;
    while k < |chain|
      invariant k <= |chain|
      invariant ignore == Mask(k, true)
      invariant fields == Done(chain, Admits(pkg), k)
    {
      var declared := chain[k].fields;
      var ignored := ignore + (if pkg != chain[k].pkg then {Native} else {});
      assert ignored == Mask(k, chain[k].pkg == pkg);
      for j := 0 to |declared|
        invariant fields == Within(chain, Admits(pkg), k, j)
      {
        var field := declared[j];
        if !Named(chain, fields, field.name) && field.modifiers !! ignored {
          fields := fields + [FieldRef(k, j)];
        }
      }
      ignore := ignore + {Private};
      k := k + 1;
    }
  }

  /** A field of the runtime class whose name no earlier field of that class
      has is accessible exactly when it is neither final, transient, strict,
      an interface nor abstract: static, native, synthetic and enum-constant
      fields are all serialised. */
  lemma RuntimeFieldAccessible(o: HostObject, r: FieldRef)
    requires ValidRef(o.chain, r) && r.k == 0
    requires forall j | 0 <= j < r.j :: o.chain[0].fields[j].name != FieldAt(o.chain, r).name
    ensures r in AccessibleFields(o) <==>
      FieldAt(o.chain, r).modifiers !! {Final, Transient, Strict, Interface, Abstract}
  {
    forall q | ValidRef(o.chain, q) && Earlier(q, r) ensures FieldAt(o.chain, q).name != FieldAt(o.chain, r).name {
      assert q.k == 0 && q.j < r.j;
    }
    assert !Shadowed(o.chain, Admits(AO.Package(o)), r);
    AccessibleExactly(o.chain, Admits(AO.Package(o)), r);
  }

  /** An accessible field is never final, transient, strict, an interface or
      abstract; private only in the runtime class; native only in a class of
      the runtime class's package. */
  lemma AccessibleFieldFacts(o: HostObject, r: FieldRef)
    requires ValidRef(o.chain, r) && r in AccessibleFields(o)
    ensures var m := FieldAt(o.chain, r).modifiers;
      && m !! {Final, Transient, Strict, Interface, Abstract}
      && (Private in m ==> r.k == 0)
      && (Native in m ==> o.chain[r.k].pkg == AO.Package(o))
  {
    AccessibleExactly(o.chain, Admits(AO.Package(o)), r);
  }

  // ---------------------------------------------------------------- toJSON

  /** `org.miktim.json.JSONObject`. */
  const JSON_OBJECT: Text := Ascii("org.miktim.json.JSONObject")

  /** The `IGNORED` sentinel, a plain java.lang.Object. */
  const IGNORED: JVal := Other(Ascii("java.lang.Object"), Ascii("IGNORED"))

  /** `json instanceof JSON`. */
  predicate IsJSON(v: JVal) {
    v.Map? && v.cls == JSONMap && NamedMembers(v.entries)
  }

  /** `toJSON(jsonObj)` with `depth` stack frames left: the replacer's answer
      for a fresh JSON; a JSON answer gets the fields walked into it, any other
      answer (IGNORED included) is the result as it is. */
  function Converted(h: Hooks, conv: Conv, target: HostObject, depth: nat): Result<JVal>
    decreases depth, 1
  {
    if depth == 0 then Err(StackOverflowError)
    else match h.replacer(conv.cls, ClassName(Inst(target)), Map(JSONMap, []))
      case Ignored => Ok(IGNORED)
      case Keep(v) =>
        if IsJSON(v) then ConvertFrom(h, conv, target, AccessibleFields(target), 0, v.entries, depth)
        else Ok(v)
  }

  /** The loop of toJSON from field i on, with `acc` the JSON's members so far. */
  function ConvertFrom(h: Hooks, conv: Conv, target: HostObject, fields: seq<FieldRef>, i: nat,
                       acc: seq<Entry>, depth: nat): Result<JVal>
    requires depth > 0 && i <= |fields|
    decreases depth, 0, |fields| - i
  {
    if i == |fields| then Ok(Map(JSONMap, acc))
    else
      var name := FieldName(target.chain, fields[i]);
      if name in conv.ignored then ConvertFrom(h, conv, target, fields, i + 1, acc, depth)
      else match h.replacer(conv.cls, name, Slot(target, fields[i]))
        case Ignored => ConvertFrom(h, conv, target, fields, i + 1, acc, depth)
        case Keep(v) =>
          var value :- Converting(h, v, depth);
          ConvertFrom(h, conv, target, fields, i + 1, Put(acc, Str(name), value), depth)
  }

  /** The member value for a replacer answer v: a JSONObject converts itself. */
  function Converting(h: Hooks, v: JVal, depth: nat): Result<JVal>
    requires depth > 0
    decreases depth, 0, 0
  {
    if v.Inst? && InstanceOf(v.obj, JSON_OBJECT) then Converted(h, ConvOf(v.obj), v.obj, depth - 1)
    else Ok(v)
  }

  /** `toJSON(jsonObj)`, the method. */
  method ToJSONOf(h: Hooks, conv: Conv, target: HostObject, depth: nat) returns (r: Result<JVal>)
    ensures r == Converted(h, conv, target, depth)
    decreases depth, 1
  {
    if depth == 0 {
      return Err(StackOverflowError);
    }
    var answer := h.replacer(conv.cls, ClassName(Inst(target)), Map(JSONMap, []));
    if answer.Ignored? {
      return Ok(IGNORED);
    }
    if !IsJSON(answer.v) {
      return Ok(answer.v);
    }
    var fields := GetAccessibleFields(target);
    r := ToJSONFields(h, conv, target, fields, answer.v.entries, depth);
  }

  /** The loop of toJSON over the given fields, into a JSON holding `members`. */
  method ToJSONFields(h: Hooks, conv: Conv, target: HostObject, fields: seq<FieldRef>,
                      members: seq<Entry>, depth: nat) returns (r: Result<JVal>)
    requires depth > 0 && NamedMembers(members)
    ensures r == ConvertFrom(h, conv, target, fields, 0, members, depth)
    decreases depth, 0
  {
    var json := new JSONMembers.JSON();
    json.members := members;
    ghost var spec := ConvertFrom(h, conv, target, fields, 0, members, depth);
    for i := 0 to |fields|
      invariant json.Valid()
      invariant ConvertFrom(h, conv, target, fields, i, json.members, depth) == spec
    {
      var name := FieldName(target.chain, fields[i]);
      if name !in conv.ignored {
        var reply := h.replacer(conv.cls, name, Slot(target, fields[i]));
        if reply.Keep? {
          var value := reply.v;
          if value.Inst? && InstanceOf(value.obj, JSON_OBJECT) {
            var nested := ToJSONOf(h, ConvOf(value.obj), value.obj, depth - 1);
            if nested.Err? {
              return nested;
            }
            value := nested.value;
          }
          json.Set(Str(name), value);
        }
      }
    }
    return Ok(Map(JSONMap, json.members));
  }

  lemma {:induction false} ConvertFromKeys(h: Hooks, conv: Conv, target: HostObject, fields: seq<FieldRef>,
                                           i: nat, acc: seq<Entry>, depth: nat)
    requires depth > 0 && i <= |fields| && ConvertFrom(h, conv, target, fields, i, acc, depth).Ok?
    requires UniqueKeys(acc)
    requires forall m | i <= m < |fields| :: !HasKey(acc, Str(FieldName(target.chain, fields[m])))
    requires forall m, m' | i <= m < m' < |fields| ::
      FieldName(target.chain, fields[m]) != FieldName(target.chain, fields[m'])
    ensures var r := ConvertFrom(h, conv, target, fields, i, acc, depth).value;
      r.Map? && r.cls == JSONMap && Keys(r.entries) == Keys(acc) + AO.Kept(h, conv, target, fields[i..])
    decreases |fields| - i
  {
    if i == |fields| {
      assert fields[i..] == [];
    } else {
      var acc' := ConvertStep(h, conv, target, fields, i, acc, depth);
      ConvertFromKeys(h, conv, target, fields, i + 1, acc', depth);
    }
  }

  /** One turn of the toJSON loop: an ignored name or an IGNORED answer moves on,
      anything else is converted and put under the field's name. */
  lemma ConvertNext(h: Hooks, conv: Conv, target: HostObject, fields: seq<FieldRef>, i: nat,
                    acc: seq<Entry>, depth: nat)
    requires depth > 0 && i < |fields|
    ensures var name := FieldName(target.chain, fields[i]);
      var reply := h.replacer(conv.cls, name, Slot(target, fields[i]));
      ConvertFrom(h, conv, target, fields, i, acc, depth) ==
        if name in conv.ignored || reply.Ignored? then ConvertFrom(h, conv, target, fields, i + 1, acc, depth)
        else match Converting(h, reply.v, depth)
          case Err(e) => Err(e)
          case Ok(value) => ConvertFrom(h, conv, target, fields, i + 1, Put(acc, Str(name), value), depth)
  {
  }

  /** One field of toJSON: the members after it, and the names it adds. */
  lemma ConvertStep(h: Hooks, conv: Conv, target: HostObject, fields: seq<FieldRef>,
                    i: nat, acc: seq<Entry>, depth: nat) returns (acc': seq<Entry>)
    requires depth > 0 && i < |fields| && ConvertFrom(h, conv, target, fields, i, acc, depth).Ok?
    requires UniqueKeys(acc)
    requires forall m | i <= m < |fields| :: !HasKey(acc, Str(FieldName(target.chain, fields[m])))
    requires forall m, m' | i <= m < m' < |fields| ::
      FieldName(target.chain, fields[m]) != FieldName(target.chain, fields[m'])
    ensures ConvertFrom(h, conv, target, fields, i, acc, depth) == ConvertFrom(h, conv, target, fields, i + 1, acc', depth)
    ensures Keys(acc) + AO.Kept(h, conv, target, fields[i..]) == Keys(acc') + AO.Kept(h, conv, target, fields[i + 1..])
    ensures UniqueKeys(acc')
    ensures forall m | i + 1 <= m < |fields| :: !HasKey(acc', Str(FieldName(target.chain, fields[m])))
  {
    var name := FieldName(target.chain, fields[i]);
    var reply := h.replacer(conv.cls, name, Slot(target, fields[i]));
    AO.KeptStep(h, conv, target, fields, i);
    ConvertNext(h, conv, target, fields, i, acc, depth);
    if name in conv.ignored || reply.Ignored? {
      acc' := acc;
    } else {
      var value := Converting(h, reply.v, depth).value;
      acc' := Put(acc, Str(name), value);
      AO.PutField(acc, value, target.chain, fields, i, AO.Kept(h, conv, target, fields[i + 1..]));
    }
  }

  /** With the class-level replacer handing back the fresh JSON, toJSON writes
      exactly the accessible fields that are neither ignored nor replaced by
      IGNORED, in walk order, under their own names. */
  lemma ConvertedKeys(h: Hooks, conv: Conv, target: HostObject, depth: nat)
    requires Converted(h, conv, target, depth).Ok?
    requires h.replacer(conv.cls, ClassName(Inst(target)), Map(JSONMap, [])) == Keep(Map(JSONMap, []))
    ensures var r := Converted(h, conv, target, depth).value;
      r.Map? && r.cls == JSONMap && Keys(r.entries) == AO.Kept(h, conv, target, AccessibleFields(target))
  {
    var fields := AccessibleFields(target);
    AccessibleNames(target.chain, Admits(AO.Package(target)));
    ConvertFromKeys(h, conv, target, fields, 0, [], depth);
    assert fields[0..] == fields;
  }

  /** With the class-level replacer handing back the fresh JSON, toJSON stores,
      under the name of each accessible field that is not ignored and whose
      replacer answer v is not IGNORED, the member value v converts to: a
      nested JSONObject's own toJSON, or v itself. */
  lemma ConvertedValues(h: Hooks, conv: Conv, target: HostObject, depth: nat, m: nat)
    requires Converted(h, conv, target, depth).Ok?
    requires h.replacer(conv.cls, ClassName(Inst(target)), Map(JSONMap, [])) == Keep(Map(JSONMap, []))
    requires m < |AccessibleFields(target)|
    requires var f := AccessibleFields(target)[m]; var name := FieldName(target.chain, f);
      name !in conv.ignored && h.replacer(conv.cls, name, Slot(target, f)).Keep?
    ensures var f := AccessibleFields(target)[m]; var name := FieldName(target.chain, f);
      var v := h.replacer(conv.cls, name, Slot(target, f)).v;
      var r := Converted(h, conv, target, depth).value;
      depth > 0 && Converting(h, v, depth).Ok? && r.Map?
      && Lookup(r.entries, Str(name)) == Some(Converting(h, v, depth).value)
  {
    var fields := AccessibleFields(target);
    AccessibleNames(target.chain, Admits(AO.Package(target)));
    ConvertFromValue(h, conv, target, fields, 0, [], depth, m);
  }

  /** The walk from field i on stores field m's converted value under its name,
      when the names of fields i.. are distinct and none is in `acc` yet. */
  lemma {:induction false} ConvertFromValue(h: Hooks, conv: Conv, target: HostObject, fields: seq<FieldRef>,
                                            i: nat, acc: seq<Entry>, depth: nat, m: nat)
    requires depth > 0 && i <= m < |fields| && ConvertFrom(h, conv, target, fields, i, acc, depth).Ok?
    requires UniqueKeys(acc)
    requires forall n | i <= n < |fields| :: !HasKey(acc, Str(FieldName(target.chain, fields[n])))
    requires forall n, n' | i <= n < n' < |fields| ::
      FieldName(target.chain, fields[n]) != FieldName(target.chain, fields[n'])
    requires var name := FieldName(target.chain, fields[m]);
      name !in conv.ignored && h.replacer(conv.cls, name, Slot(target, fields[m])).Keep?
    ensures var name := FieldName(target.chain, fields[m]);
      var v := h.replacer(conv.cls, name, Slot(target, fields[m])).v;
      var r := ConvertFrom(h, conv, target, fields, i, acc, depth).value;
      Converting(h, v, depth).Ok? && r.Map? && Lookup(r.entries, Str(name)) == Some(Converting(h, v, depth).value)
    decreases m - i
  {
    if i == m {
      var name := FieldName(target.chain, fields[i]);
      var v := h.replacer(conv.cls, name, Slot(target, fields[i])).v;
      ConvertNext(h, conv, target, fields, i, acc, depth);
      var value := Converting(h, v, depth).value;
      var acc' := Put(acc, Str(name), value);
      AO.PutField(acc, value, target.chain, fields, i, []);
      PutAbsent(acc, Str(name), value);
      ConvertFromKeeps(h, conv, target, fields, i + 1, acc', depth, Str(name));
    } else {
      var acc' := ConvertStep(h, conv, target, fields, i, acc, depth);
      ConvertFromValue(h, conv, target, fields, i + 1, acc', depth, m);
    }
  }

  /** The walk from field i on leaves alone a member no later field is named after. */
  lemma {:induction false} ConvertFromKeeps(h: Hooks, conv: Conv, target: HostObject, fields: seq<FieldRef>,
                                            i: nat, acc: seq<Entry>, depth: nat, k: JVal)
    requires depth > 0 && i <= |fields| && ConvertFrom(h, conv, target, fields, i, acc, depth).Ok?
    requires UniqueKeys(acc)
    requires forall n | i <= n < |fields| :: Str(FieldName(target.chain, fields[n])) != k
    ensures var r := ConvertFrom(h, conv, target, fields, i, acc, depth).value;
      r.Map? && Lookup(r.entries, k) == Lookup(acc, k)
    decreases |fields| - i
  {
    if i < |fields| {
      var name := FieldName(target.chain, fields[i]);
      var reply := h.replacer(conv.cls, name, Slot(target, fields[i]));
      ConvertNext(h, conv, target, fields, i, acc, depth);
      if name in conv.ignored || reply.Ignored? {
        ConvertFromKeeps(h, conv, target, fields, i + 1, acc, depth, k);
      } else {
        var value := Converting(h, reply.v, depth).value;
        PutSemantics(acc, Str(name), value);
        ConvertFromKeeps(h, conv, target, fields, i + 1, Put(acc, Str(name), value), depth, k);
      }
    }
  }

  /** A name on the ignore list never appears in what toJSON writes. */
  lemma ConvertedOmitsIgnored(h: Hooks, conv: Conv, target: HostObject, depth: nat, name: Text)
    requires Converted(h, conv, target, depth).Ok?
    requires h.replacer(conv.cls, ClassName(Inst(target)), Map(JSONMap, [])) == Keep(Map(JSONMap, []))
    requires name in conv.ignored
    ensures var u := Converted(h, conv, target, depth).value; u.Map? && !HasKey(u.entries, Str(name))
  {
    ConvertedKeys(h, conv, target, depth);
    AO.KeptOmits(h, conv, target, AccessibleFields(target), name);
    AO.KeysHasKey(Converted(h, conv, target, depth).value.entries, Str(name));
  }

  // ---------------------------------------------------------------- fromJSON

  /** `fromJSON(jsonObj, json)` with `depth` stack frames left: the reviver's
      answer for the class; a JSON answer is walked over the accessible
      fields, any other answer leaves the object as it is. */
  function Revived(h: Hooks, conv: Conv, target: HostObject, json: JVal, depth: nat): Result<HostObject>
    decreases depth, 1
  {
    if depth == 0 then Err(StackOverflowError)
    else match h.reviver(conv.cls, ClassName(Inst(target)), json)
      case Keep(v) =>
        if IsJSON(v) then ReviveFrom(h, conv, target, AccessibleFields(target), 0, v.entries, depth)
        else Ok(target)
      case Ignored => Ok(target)
  }

  /** The loop of fromJSON from field i on, over the members `es` of the JSON. */
  function ReviveFrom(h: Hooks, conv: Conv, obj: HostObject, fields: seq<FieldRef>, i: nat,
                      es: seq<Entry>, depth: nat): Result<HostObject>
    requires depth > 0 && i <= |fields|
    decreases depth, 0, |fields| - i + 2
  {
    if i == |fields| then Ok(obj)
    else
      var f := fields[i];
      var slot :- FieldOutcome(h, conv, obj, f, es, depth);
      var obj' := if slot.Some? then SetSlot(obj, f, slot.value) else obj;
      ReviveFrom(h, conv, obj', fields, i + 1, es, depth)
  }

  /** What fromJSON writes into field f of obj: nothing (None) when the name is
      ignored, absent from the JSON or revived to IGNORED; otherwise what
      `field.set` stores of the revived member, a value of the field's declared
      type, or its IllegalArgumentException. */
  function FieldOutcome(h: Hooks, conv: Conv, obj: HostObject, f: FieldRef, es: seq<Entry>, depth: nat)
    : (r: Result<Option<JVal>>)
    requires depth > 0
    ensures r.Ok? && r.value.Some? ==> JSONAdapter.Assignable(r.value.value, FieldType(obj.chain, f))
    ensures r.Ok? && r.value.Some? ==> !(FieldName(obj.chain, f) in conv.ignored) && HasKey(es, Str(FieldName(obj.chain, f)))
    decreases depth, 0, 1
  {
    var name := FieldName(obj.chain, f);
    if name in conv.ignored || !HasKey(es, Str(name)) then Ok(None)
    else match h.reviver(conv.cls, name, JsonClass.Member(es, Str(name)))
      case Ignored => Ok(None)
      case Keep(nv) =>
        var v :- Reviving(h, Slot(obj, f), nv, depth);
        var stored :- FieldSet(FieldType(obj.chain, f), v);
        Ok(Some(stored))
  }

  /** The new value of a field holding `value`: a JSONObject revives itself
      (and stays the same object), anything else is `JSONAdapter.cast(nv, value)`. */
  function Reviving(h: Hooks, value: JVal, nv: JVal, depth: nat): Result<JVal>
    requires depth > 0
    decreases depth, 0, 0
  {
    if value.Inst? && InstanceOf(value.obj, JSON_OBJECT) then
      var o :- Revived(h, ConvOf(value.obj), value.obj, nv, depth - 1);
      Ok(Inst(o))
    else JSONAdapter.CastBySample(nv, value)
  }

  /** `fromJSON(jsonObj, json)`, the method. */
  method FromJSONOf(h: Hooks, conv: Conv, target: HostObject, json: JVal, depth: nat) returns (r: Result<HostObject>)
    ensures r == Revived(h, conv, target, json, depth)
    decreases depth, 1
  {
    if depth == 0 {
      return Err(StackOverflowError);
    }
    var answer := h.reviver(conv.cls, ClassName(Inst(target)), json);
    if !answer.Keep? || !IsJSON(answer.v) {
      return Ok(target);
    }
    var fields := GetAccessibleFields(target);
    var source := new JSONMembers.JSON();
    source.members := answer.v.entries;
    ghost var spec := ReviveFrom(h, conv, target, fields, 0, source.members, depth);
    var obj := target;
    for i := 0 to |fields|
      invariant source.members == answer.v.entries
      invariant ReviveFrom(h, conv, obj, fields, i, source.members, depth) == spec
    {
      var slot := FromJSONMember(h, conv, obj, fields[i], source, depth);
      if slot.Err? {
        return Err(slot.error);
      }
      if slot.value.Some? {
        obj := SetSlot(obj, fields[i], slot.value.value);
      }
    }
    return Ok(obj);
  }

  /** One field of the fromJSON loop. */
  method FromJSONMember(h: Hooks, conv: Conv, obj: HostObject, f: FieldRef, json: JSONMembers.JSON, depth: nat)
    returns (r: Result<Option<JVal>>)
    requires depth > 0
    ensures r == FieldOutcome(h, conv, obj, f, json.members, depth)
    decreases depth, 0, 1
  {
    var name := FieldName(obj.chain, f);
    if name in conv.ignored || !json.Exists(Str(name)) {
      return Ok(None);
    }
    var newValue := h.reviver(conv.cls, name, json.Member(Str(name)));
    assert json.Member(Str(name)) == JsonClass.Member(json.members, Str(name));
    if newValue.Ignored? {
      return Ok(None);
    }
    var value := Slot(obj, f);
    if value.Inst? && InstanceOf(value.obj, JSON_OBJECT) {
      var revived := FromJSONOf(h, ConvOf(value.obj), value.obj, newValue.v, depth - 1);
      if revived.Err? {
        return Err(revived.error);
      }
      var stored := FieldSet(FieldType(obj.chain, f), Inst(revived.value));
      if stored.Err? {
        return Err(stored.error);
      }
      return Ok(Some(stored.value));
    }
    var cast: Result<JVal>;
    if value.Null? {
      cast := Ok(Null);
    } else {
      cast := JSONAdapter.CastByClass(newValue.v, Some(JSONAdapter.ClassOf(value)));
    }
    if cast.Err? {
      return Err(cast.error);
    }
    var stored := FieldSet(FieldType(obj.chain, f), cast.value);
    if stored.Err? {
      return Err(stored.error);
    }
    return Ok(Some(stored.value));
  }

  /** What the fromJSON loop from field i on does to the object. */
  lemma {:induction false} ReviveFromSlots(h: Hooks, conv: Conv, obj: HostObject, fields: seq<FieldRef>, i: nat,
                                           es: seq<Entry>, depth: nat)
    requires depth > 0 && i <= |fields| && ReviveFrom(h, conv, obj, fields, i, es, depth).Ok?
    requires WellShaped(obj) && ValidRefs(obj.chain, fields)
    requires forall m, m' | i <= m < m' < |fields| :: fields[m] != fields[m']
    ensures var r := ReviveFrom(h, conv, obj, fields, i, es, depth).value;
      && r.chain == obj.chain && r.ignored == obj.ignored && WellShaped(r)
      && (forall q | q !in fields[i..] :: Slot(r, q) == Slot(obj, q))
      && (forall m | i <= m < |fields| ::
            var s := FieldOutcome(h, conv, obj, fields[m], es, depth);
            s.Ok? && Slot(r, fields[m]) == if s.value.Some? then s.value.value else Slot(obj, fields[m]))
    decreases |fields| - i
  {
    if i < |fields| {
      var f := fields[i];
      var slot := FieldOutcome(h, conv, obj, f, es, depth).value;
      var obj' := if slot.Some? then SetSlot(obj, f, slot.value) else obj;
      forall q ensures Slot(obj', q) == if q == f && slot.Some? then slot.value else Slot(obj, q) {
        if slot.Some? {
          SlotAfterSet(obj, f, slot.value, q);
        }
      }
      forall m | i < m < |fields|
        ensures FieldOutcome(h, conv, obj', fields[m], es, depth) == FieldOutcome(h, conv, obj, fields[m], es, depth)
      {
        assert Slot(obj', fields[m]) == Slot(obj, fields[m]);
      }
      ReviveFromSlots(h, conv, obj', fields, i + 1, es, depth);
      assert fields[i..] == [f] + fields[i + 1..];
    }
  }

  /** What a successful fromJSON does to each field: a reviver answer for the
      class that is not a JSON leaves the object as it is; otherwise a field
      outside the accessible ones keeps its value and an accessible one gets
      what FieldOutcome computes. */
  lemma RevivedFields(h: Hooks, conv: Conv, target: HostObject, json: JVal, depth: nat, q: FieldRef)
    requires WellShaped(target) && Revived(h, conv, target, json, depth).Ok?
    ensures var r := Revived(h, conv, target, json, depth).value;
      var answer := h.reviver(conv.cls, ClassName(Inst(target)), json);
      && r.chain == target.chain && r.ignored == target.ignored && WellShaped(r)
      && (!(answer.Keep? && IsJSON(answer.v)) ==> r == target)
      && (q !in AccessibleFields(target) ==> Slot(r, q) == Slot(target, q))
      && (answer.Keep? && IsJSON(answer.v) && q in AccessibleFields(target) ==>
            var s := FieldOutcome(h, conv, target, q, answer.v.entries, depth);
            s.Ok? && Slot(r, q) == if s.value.Some? then s.value.value else Slot(target, q))
  {
    var answer := h.reviver(conv.cls, ClassName(Inst(target)), json);
    if answer.Keep? && IsJSON(answer.v) {
      var fields := AccessibleFields(target);
      AccessibleNames(target.chain, Admits(AO.Package(target)));
      forall m, m' | 0 <= m < m' < |fields| ensures fields[m] != fields[m'] {
        assert Earlier(fields[m], fields[m']);
      }
      ReviveFromSlots(h, conv, target, fields, 0, answer.v.entries, depth);
      assert fields[0..] == fields;
      if q in fields {
        var m :| 0 <= m < |fields| && fields[m] == q;
      }
    }
  }

  /** fromJSON changes a field only when the reviver's answer for the class is
      a JSON, the field is accessible, its name is neither ignored nor absent
      from that JSON, and the reviver keeps the member. */
  lemma RevivedChanges(h: Hooks, conv: Conv, target: HostObject, json: JVal, depth: nat, q: FieldRef)
    requires WellShaped(target) && Revived(h, conv, target, json, depth).Ok?
    requires Slot(Revived(h, conv, target, json, depth).value, q) != Slot(target, q)
    ensures var answer := h.reviver(conv.cls, ClassName(Inst(target)), json);
      var name := FieldName(target.chain, q);
      && answer.Keep? && IsJSON(answer.v) && q in AccessibleFields(target)
      && name !in conv.ignored && HasKey(answer.v.entries, Str(name))
      && h.reviver(conv.cls, name, JsonClass.Member(answer.v.entries, Str(name))).Keep?
  {
    RevivedFields(h, conv, target, json, depth, q);
  }
}
