/** The Java objects the library reads and writes, as values: the parsers' results
    (null, Boolean, Number, String, Object[] and the library's own map classes), the
    extra inputs the generators accept (primitive arrays, maps, collections and any
    other object) and the host objects the object converters walk.
    Values are finite trees: the library does not support cyclic object graphs. */
module Values {
  import opened JavaLang

  // ---------------------------------------------------------------- numbers

  datatype IntegralKind = JByte | JShort | JInt | JLong
  datatype DecimalKind = JFloat | JDouble | JBigDecimal

  /** A `java.lang.Number`: an integral box with its exact value, or a floating or
      decimal number kept as the decimal lexeme it was read from. */
  datatype Number =
    | Integral(ikind: IntegralKind, value: int)
    | Decimal(dkind: DecimalKind, lexeme: Text)

  // ---------------------------------------------------------------- classes

  datatype Prim = PBoolean | PChar | PByte | PShort | PInt | PLong | PFloat | PDouble

  /** A `java.lang.Class` as far as the adapter distinguishes classes. */
  datatype JType =
    | Primitive(p: Prim)        // int.class, char.class, ...
    | Boxed(p: Prim)            // Integer.class, Character.class, ...
    | StringClass               // String.class
    | ArrayOf(component: JType) // T[].class
    | OtherClass(name: Text)    // any other class, by name

  /** `Object.class`, the component type of the arrays the parsers build. */
  const OBJECT: JType := OtherClass(Ascii("java.lang.Object"))

  const NUMBER_CLASS: Text := Ascii("java.lang.Number")

  /** The name of the box class of a primitive type. */
  function BoxClassName(p: Prim): Text {
    match p
    case PBoolean => Ascii("java.lang.Boolean")
    case PChar => Ascii("java.lang.Character")
    case PByte => Ascii("java.lang.Byte")
    case PShort => Ascii("java.lang.Short")
    case PInt => Ascii("java.lang.Integer")
    case PLong => Ascii("java.lang.Long")
    case PFloat => Ascii("java.lang.Float")
    case PDouble => Ascii("java.lang.Double")
  }

  /** The names of a reference class, its superclasses and the interfaces it
      implements, for the classes the library's values come in: the boxes, String,
      BigDecimal, arrays, the two LinkedHashMap classes, the samples JSON class and
      Collection. Any other class is known by its own name and Object only. */
  function Supertypes(t: JType): (names: set<Text>)
    ensures !t.Primitive? ==> OBJECT.name in names
    ensures t.OtherClass? ==> t.name in names
  {
    var obj := OBJECT.name;
    var serializable := Ascii("java.io.Serializable");
    var cloneable := Ascii("java.lang.Cloneable");
    var valueSupers := {obj, serializable, Ascii("java.lang.Comparable")};
    match t
    case Primitive(_) => {}
    case Boxed(p) => {BoxClassName(p)} + valueSupers + (if p == PBoolean || p == PChar then {} else {NUMBER_CLASS})
    case StringClass => {Ascii("java.lang.String"), Ascii("java.lang.CharSequence")} + valueSupers
    case ArrayOf(_) => {obj, cloneable, serializable}
    case OtherClass(n) =>
      if n == Ascii("java.math.BigDecimal") then {n, NUMBER_CLASS} + valueSupers
      else if n == Ascii("org.miktim.json.JSON") || n == Ascii("org.miktim.json.Json") then
        {n, Ascii("java.util.LinkedHashMap"), Ascii("java.util.HashMap"), Ascii("java.util.AbstractMap"),
         Ascii("java.util.Map"), cloneable, serializable, obj}
      else if n == Ascii("org.samples.java.JSON") then {n, cloneable, obj}
      else if n == Ascii("java.util.Collection") then {n, Ascii("java.lang.Iterable"), obj}
      else {n, obj}
  }

  /** `java.lang.reflect.Modifier` flags. */
  datatype Modifier =
    | Public | Private | Protected | Static | Final | Synchronized | Volatile
    | Transient | Native | Interface | Abstract | Strict

  /** A declared field, as `Class.getDeclaredFields` reports it, with its declared
      type (`field.getType()`). */
  datatype FieldDesc = FieldDesc(name: Text, ftype: JType, modifiers: set<Modifier>, synthetic: bool, enumConstant: bool)

  /** A class: its name, its package (by identity) and its declared fields. */
  datatype ClassDesc = ClassDesc(name: Text, pkg: nat, fields: seq<FieldDesc>)

  /** The library's map classes: JSONMap is org.miktim.json.JSON and JsonMap is
      org.miktim.json.Json, both LinkedHashMaps; SamplesMap is org.samples.java.JSON,
      which keeps a private LinkedHashMap and is not a java.util.Map; OtherMap is any
      other java.util.Map, in its iteration order. */
  datatype MapClass = JSONMap | JsonMap | SamplesMap | OtherMap

  /** A Java object. */
  datatype JVal =
    | Null
    | Bool(b: bool)
    | Num(n: Number)
    | Char(c: CodeUnit)
    | Str(s: Text)
    | Arr(component: JType, items: seq<JVal>)   // a Java array
    | Map(cls: MapClass, entries: seq<Entry>)   // an ordered map
    | Coll(items: seq<JVal>)                    // a java.util.Collection, as toArray() lists it
    | Inst(obj: HostObject)                     // an object the object converters walk
    | Other(className: Text, text: Text)        // any other object and its toString()

  datatype Entry = Entry(key: JVal, value: JVal)

  /** An instance of a host class. `chain` lists its runtime class first and then each
      superclass up to the root; `slots[k][j]` holds the value of field j declared by
      `chain[k]`; `ignored` is the ignore list of an instance that is itself a converter. */
  datatype HostObject = HostObject(chain: seq<ClassDesc>, slots: seq<seq<JVal>>, ignored: set<Text>)

  /** The slots match the declared fields of every class in the chain. */
  predicate WellShaped(o: HostObject) {
    && |o.slots| == |o.chain|
    && forall k | 0 <= k < |o.chain| :: |o.slots[k]| == |o.chain[k].fields|
  }

  // ---------------------------------------------------------------- ordered maps

  function Keys(es: seq<Entry>): (ks: seq<JVal>)
    ensures |ks| == |es|
    ensures forall i | 0 <= i < |es| :: ks[i] == es[i].key
  {
    if es == [] then [] else [es[0].key] + Keys(es[1..])
  }

  /** No key occurs twice: the shape a java.util.Map's entry set has. */
  predicate UniqueKeys(es: seq<Entry>) {
    forall i, j | 0 <= i < j < |es| :: es[i].key != es[j].key
  }

  predicate HasKey(es: seq<Entry>, k: JVal) {
    exists i | 0 <= i < |es| :: es[i].key == k
  }

  /** The position of key k, when present. */
  function IndexOf(es: seq<Entry>, k: JVal): (r: Option<nat>)
    ensures r.Some? ==> r.value < |es| && es[r.value].key == k
    ensures r.Some? ==> forall i | 0 <= i < r.value :: es[i].key != k
    ensures r.None? <==> !HasKey(es, k)
  {
    if es == [] then None
    else if es[0].key == k then Some(0)
    else match IndexOf(es[1..], k)
      case None => None
      case Some(i) => Some(i + 1)
  }

  /** `Map.get` of a present key; `Map.containsKey` is HasKey. */
  function Lookup(es: seq<Entry>, k: JVal): Option<JVal> {
    match IndexOf(es, k)
    case None => None
    case Some(i) => Some(es[i].value)
  }

  /** `LinkedHashMap.put`: a present key keeps its position and takes the new value;
      a new key is appended. */
  function Put(es: seq<Entry>, k: JVal, v: JVal): (r: seq<Entry>)
  {
    match IndexOf(es, k)
    case Some(i) => es[i := Entry(k, v)]
    case None => es + [Entry(k, v)]
  }

  /** `LinkedHashMap.remove`: the entry of k goes, the others keep their order. */
  function Remove(es: seq<Entry>, k: JVal): (r: seq<Entry>)
  {
    match IndexOf(es, k)
    case Some(i) => es[..i] + es[i + 1..]
    case None => es
  }

  /** In a map without duplicate keys, the entry at position j is the one a
      lookup of its key finds. */
  lemma IndexOfUnique(es: seq<Entry>, j: nat)
    requires UniqueKeys(es) && j < |es|
    ensures IndexOf(es, es[j].key) == Some(j)
  {
    var r := IndexOf(es, es[j].key);
    assert r.Some?;
  }

  /** A name is a member exactly when looking it up finds a value. */
  lemma LookupHasKey(es: seq<Entry>, k: JVal)
    ensures HasKey(es, k) <==> Lookup(es, k).Some?
  {
    if HasKey(es, k) {
      assert IndexOf(es, k).Some?;
    }
  }

  /** The entries of a LinkedHashMap<String, Object>: distinct keys, each a String
      or null. */
  predicate NamedMembers(es: seq<Entry>) {
    UniqueKeys(es) && forall e | e in es :: e.key.Str? || e.key.Null?
  }

  /** `put` of a String or null key keeps the entries those of a
      LinkedHashMap<String, Object>. */
  lemma PutNamed(es: seq<Entry>, k: JVal, v: JVal)
    requires NamedMembers(es) && (k.Str? || k.Null?)
    ensures NamedMembers(Put(es, k, v))
  {
    PutSemantics(es, k, v);
    PutEntries(es, k, v);
  }

  /** `put` of a key already present: same key order, new value, nothing else changes. */
  lemma PutPresent(es: seq<Entry>, k: JVal, v: JVal)
    requires UniqueKeys(es) && HasKey(es, k)
    ensures UniqueKeys(Put(es, k, v))
    ensures Keys(Put(es, k, v)) == Keys(es)
    ensures Lookup(Put(es, k, v), k) == Some(v)
    ensures forall k' | k' != k :: Lookup(Put(es, k, v), k') == Lookup(es, k')
  {
    var i := IndexOf(es, k).value;
    var r := es[i := Entry(k, v)];
    assert Put(es, k, v) == r;
    assert forall j | 0 <= j < |r| :: r[j].key == es[j].key;
    assert UniqueKeys(r);
    IndexOfUnique(r, i);
    forall k' | k' != k ensures Lookup(r, k') == Lookup(es, k') {
      if HasKey(es, k') {
        var j := IndexOf(es, k').value;
        IndexOfUnique(r, j);
      } else {
        assert !HasKey(r, k');
      }
    }
  }

  /** `put` of a new key: it is appended, nothing else changes. */
  lemma PutAbsent(es: seq<Entry>, k: JVal, v: JVal)
    requires UniqueKeys(es) && !HasKey(es, k)
    ensures UniqueKeys(Put(es, k, v))
    ensures Keys(Put(es, k, v)) == Keys(es) + [k]
    ensures Lookup(Put(es, k, v), k) == Some(v)
    ensures forall k' | k' != k :: Lookup(Put(es, k, v), k') == Lookup(es, k')
  {
    var r := es + [Entry(k, v)];
    assert IndexOf(es, k).None?;
    assert Put(es, k, v) == r;
    assert UniqueKeys(r) by {
      forall i, j | 0 <= i < j < |r| ensures r[i].key != r[j].key {
        if j == |es| { assert r[i] == es[i]; }
      }
    }
    assert Keys(r) == Keys(es) + [k];
    IndexOfUnique(r, |es|);
    forall k' | k' != k ensures Lookup(r, k') == Lookup(es, k') {
      if HasKey(es, k') {
        var j := IndexOf(es, k').value;
        IndexOfUnique(r, j);
      } else {
        assert !HasKey(r, k');
      }
    }
  }

  lemma PutSemantics(es: seq<Entry>, k: JVal, v: JVal)
    requires UniqueKeys(es)
    ensures UniqueKeys(Put(es, k, v))
    ensures Lookup(Put(es, k, v), k) == Some(v)
    ensures forall k' | k' != k :: Lookup(Put(es, k, v), k') == Lookup(es, k')
    ensures HasKey(es, k) ==> Keys(Put(es, k, v)) == Keys(es)
    ensures !HasKey(es, k) ==> Keys(Put(es, k, v)) == Keys(es) + [k]
  {
    if HasKey(es, k) { PutPresent(es, k, v); } else { PutAbsent(es, k, v); }
  }

  /** Every entry after `put` was there before or is the new one. */
  lemma PutEntries(es: seq<Entry>, k: JVal, v: JVal)
    ensures forall e | e in Put(es, k, v) :: e in es || e == Entry(k, v)
  {
    match IndexOf(es, k)
    case Some(i) =>
      forall e | e in es[i := Entry(k, v)] ensures e in es || e == Entry(k, v) {
        var j :| 0 <= j < |es| && es[i := Entry(k, v)][j] == e;
        if j != i { assert es[j] == e; }
      }
    case None =>
  }

  /** Every entry left after `remove` was there before. */
  lemma RemoveEntries(es: seq<Entry>, k: JVal)
    ensures forall e | e in Remove(es, k) :: e in es
  {
    match IndexOf(es, k)
    case Some(i) =>
      assert forall e | e in es[..i] + es[i + 1..] :: e in es[..i] || e in es[i + 1..];
    case None =>
  }

  lemma RemoveSemantics(es: seq<Entry>, k: JVal)
    requires UniqueKeys(es)
    ensures UniqueKeys(Remove(es, k))
    ensures !HasKey(Remove(es, k), k)
    ensures forall k' | k' != k :: Lookup(Remove(es, k), k') == Lookup(es, k')
  {
    var r := Remove(es, k);
    if HasKey(es, k) {
      var i := IndexOf(es, k).value;
      assert r == es[..i] + es[i + 1..];
      assert forall j | 0 <= j < |r| :: r[j] == if j < i then es[j] else es[j + 1];
      assert UniqueKeys(r);
      forall k' | k' != k ensures Lookup(r, k') == Lookup(es, k') {
        if HasKey(es, k') {
          var j := IndexOf(es, k').value;
          var j' := if j < i then j else j - 1;
          assert r[j'] == es[j];
          IndexOfUnique(r, j');
        } else {
          assert !HasKey(r, k');
        }
      }
    }
  }

  // ---------------------------------------------------------------- String.valueOf

  function BoolText(b: bool): Text {
    if b then Ascii("true") else Ascii("false")
  }

  /** `Number.toString()`: exact for the integral boxes; a floating or decimal
      number is rendered by the lexeme it was read from. */
  function NumberText(n: Number): Text {
    match n
    case Integral(_, v) => IntText(v)
    case Decimal(_, lexeme) => lexeme
  }

  /** `getClass().getName()` of a reference value. */
  function ClassName(v: JVal): Text {
    match v
    case Null => Ascii("null")
    case Bool(_) => Ascii("java.lang.Boolean")
    case Num(Integral(JByte, _)) => Ascii("java.lang.Byte")
    case Num(Integral(JShort, _)) => Ascii("java.lang.Short")
    case Num(Integral(JInt, _)) => Ascii("java.lang.Integer")
    case Num(Integral(JLong, _)) => Ascii("java.lang.Long")
    case Num(Decimal(JFloat, _)) => Ascii("java.lang.Float")
    case Num(Decimal(JDouble, _)) => Ascii("java.lang.Double")
    case Num(Decimal(JBigDecimal, _)) => Ascii("java.math.BigDecimal")
    case Char(_) => Ascii("java.lang.Character")
    case Str(_) => Ascii("java.lang.String")
    case Arr(_, _) => Ascii("[")
    case Map(JSONMap, _) => Ascii("org.miktim.json.JSON")
    case Map(JsonMap, _) => Ascii("org.miktim.json.Json")
    case Map(SamplesMap, _) => Ascii("org.samples.java.JSON")
    case Map(OtherMap, _) => Ascii("java.util.Map")
    case Coll(_) => Ascii("java.util.Collection")
    case Inst(o) => if o.chain == [] then Ascii("java.lang.Object") else o.chain[0].name
    case Other(name, _) => name
  }

  /** `String.valueOf(Object)`. Scalars and strings are exact; for arrays, maps,
      collections and host objects the model writes the class name and "@" (their
      own toString() is not modelled). */
  function ValueOf(v: JVal): (t: Text)
    ensures v.Null? ==> t == Ascii("null")
    ensures v.Str? ==> t == v.s
  {
    match v
    case Null => Ascii("null")
    case Bool(b) => BoolText(b)
    case Num(n) => NumberText(n)
    case Char(c) => [c]
    case Str(s) => s
    case Other(_, text) => text
    case _ => ClassName(v) + Ascii("@")
  }

  // ---------------------------------------------------------------- java.lang.reflect.Array

  /** `Array.get(v, i)`: null throws NullPointerException, a non-array
      IllegalArgumentException, an index outside the array
      ArrayIndexOutOfBoundsException. */
  function ArrayGet(v: JVal, i: int): (r: Result<JVal>)
    ensures r.Ok? <==> v.Arr? && 0 <= i < |v.items|
    ensures r.Ok? ==> r.value == v.items[i]
  {
    match v
    case Null => Err(NullPointerException)
    case Arr(_, items) => if 0 <= i < |items| then Ok(items[i]) else Err(IndexOutOfBoundsException)
    case _ => Err(IllegalArgumentException)
  }

  /** `Array.get` applied with each index in turn. */
  function ArrayPath(v: JVal, indices: seq<int>): Result<JVal>
    decreases |indices|
  {
    if indices == [] then Ok(v)
    else match ArrayGet(v, indices[0])
      case Err(e) => Err(e)
      case Ok(x) => ArrayPath(x, indices[1..])
  }

  /** Indexing by a longer path is indexing by its first part, then by the rest. */
  lemma {:induction false} ArrayPathConcat(v: JVal, a: seq<int>, b: seq<int>)
    ensures ArrayPath(v, a + b) == match ArrayPath(v, a) case Err(e) => Err(e) case Ok(x) => ArrayPath(x, b)
    decreases |a|
  {
    if a == [] {
      assert a + b == b;
    } else {
      assert (a + b)[0] == a[0] && (a + b)[1..] == a[1..] + b;
      match ArrayGet(v, a[0])
      case Err(_) =>
      case Ok(x) => ArrayPathConcat(x, a[1..], b);
    }
  }

  // ---------------------------------------------------------------- instanceof

  /** `v instanceof Number || v instanceof Boolean`, or null: what the generators
      write with String.valueOf. */
  predicate IsScalar(v: JVal) {
    v.Null? || v.Bool? || v.Num?
  }

  /** `v instanceof java.util.Map`. */
  predicate IsUtilMap(v: JVal) {
    v.Map? && v.cls != SamplesMap
  }

  /** `v instanceof Object[]`: an array whose component type is a reference type. */
  predicate IsObjectArray(v: JVal) {
    v.Arr? && !v.component.Primitive?
  }
}
