/** org.miktim.json.JSONAdapter (src/org/miktim/json/JSONAdapter.java): casts a
    value read from JSON text to a Java class, given by a sample or by the class
    itself. An array class is cast dimension by dimension into a new array; every
    element at the innermost level goes through one adapter, chosen by the element
    class with its array dimensions stripped and a primitive boxed. */
module JSONAdapter {
  import opened JavaLang
  import opened Values
  import Numbers

  // ---------------------------------------------------------------- getElementClass

  /** The class with every array dimension stripped. */
  function Innermost(cls: JType): (e: JType)
    ensures !e.ArrayOf?
    decreases cls
  {
    if cls.ArrayOf? then Innermost(cls.component) else cls
  }

  /** `Array.get(Array.newInstance(cls, 1), 0).getClass()` where that element is not
      null: a primitive class becomes its box, a reference class stays. */
  function BoxOf(cls: JType): (b: JType)
    ensures !b.Primitive?
    ensures b.ArrayOf? == cls.ArrayOf?
  {
    if cls.Primitive? then Boxed(cls.p) else cls
  }

  /** What getElementClass returns. */
  function ElementClass(cls: JType): JType {
    BoxOf(Innermost(cls))
  }

  /** The element class is neither an array nor a primitive class, and an array
      class has the element class of its component. */
  lemma ElementClassFacts(cls: JType)
    ensures !ElementClass(cls).ArrayOf? && !ElementClass(cls).Primitive?
    ensures cls.ArrayOf? ==> ElementClass(cls) == ElementClass(cls.component)
    ensures !cls.ArrayOf? && !cls.Primitive? ==> ElementClass(cls) == cls
    ensures cls.Primitive? ==> ElementClass(cls) == Boxed(cls.p)
  {
  }

  /** `getElementClass(cls)`: the loop strips the dimensions, then the primitive is
      boxed. */
  method GetElementClass(cls: JType) returns (e: JType)
    ensures e == ElementClass(cls)
  {
    var c := cls;
    while c.ArrayOf?
      invariant Innermost(c) == Innermost(cls)
      decreases c
    {
      c := c.component;
    }
    e := BoxOf(c);
  }

  // ---------------------------------------------------------------- the adapters

  datatype Adapter =
    | IntAdapter | LongAdapter | DoubleAdapter | FloatAdapter | ByteAdapter
    | ShortAdapter | CharAdapter | BooleanAdapter | StringAdapter | DefaultAdapter

  /** The adapters that read their argument as a java.lang.Number. */
  predicate Numeric(a: Adapter) {
    a in {IntAdapter, LongAdapter, DoubleAdapter, FloatAdapter, ByteAdapter, ShortAdapter}
  }

  /** `getAdapter(cls)`: one adapter for each of the nine known element classes,
      the identity for every other class. */
  function GetAdapter(cls: JType): Adapter {
    match cls
    case Boxed(PInt) => IntAdapter
    case Boxed(PLong) => LongAdapter
    case Boxed(PDouble) => DoubleAdapter
    case Boxed(PFloat) => FloatAdapter
    case Boxed(PByte) => ByteAdapter
    case Boxed(PShort) => ShortAdapter
    case Boxed(PChar) => CharAdapter
    case Boxed(PBoolean) => BooleanAdapter
    case StringClass => StringAdapter
    case _ => DefaultAdapter
  }

  /** A numeric adapter's conversion of a Number: intValue, longValue and the
      narrowing byteValue and shortValue keep the low bits, floatValue and
      doubleValue keep the decimal text. */
  function Converted(a: Adapter, n: Number): (m: Number)
    requires Numeric(a)
  {
    match a
    case IntAdapter => Integral(JInt, Numbers.IntValue(n))
    case LongAdapter => Integral(JLong, Numbers.LongValue(n))
    case ByteAdapter => Integral(JByte, Numbers.NarrowValue(n, BYTE_MODULUS))
    case ShortAdapter => Integral(JShort, Numbers.NarrowValue(n, SHORT_MODULUS))
    case FloatAdapter => Numbers.FloatingValue(n, JFloat)
    case DoubleAdapter => Numbers.FloatingValue(n, JDouble)
  }

  /** The zero a numeric adapter gives for null: the literal 0 of the conditional
      expression, promoted to the type of the other branch. */
  function Zero(a: Adapter): (m: Number)
    requires Numeric(a)
  {
    match a
    case IntAdapter => Integral(JInt, 0)
    case LongAdapter => Integral(JLong, 0)
    case ByteAdapter => Integral(JByte, 0)
    case ShortAdapter => Integral(JShort, 0)
    case FloatAdapter => Decimal(JFloat, Ascii("0.0"))
    case DoubleAdapter => Decimal(JDouble, Ascii("0.0"))
  }

  /** `adapter.castValue(obj)`. The cast `(Number) obj` or `(String) obj` throws
      ClassCastException on any other object; nothing else fails. */
  function CastValue(a: Adapter, obj: JVal): (r: Result<JVal>)
    ensures r.Err? ==> r.error == ClassCastException
    ensures r.Err? <==>
      || (Numeric(a) && !obj.Null? && !obj.Num?)
      || (a == CharAdapter && !obj.Null? && !obj.Char? && !obj.Str?)
  {
    match a
    case DefaultAdapter => Ok(obj)
    case BooleanAdapter => Ok(if obj.Null? then Bool(false) else obj)
    case CharAdapter =>
      if obj.Null? then Ok(Char(0))
      else if obj.Char? then Ok(obj)
      else if obj.Str? then Ok(Char((obj.s + [0])[0]))
      else Err(ClassCastException)
    case StringAdapter => Ok(Str(ValueOf(obj)))
    case _ =>
      if obj.Null? then Ok(Num(Zero(a)))
      else if obj.Num? then Ok(Num(Converted(a, obj.n)))
      else Err(ClassCastException)
  }

  /** What each adapter gives for null: 0 of its own type, false, the char 0, the
      text "null", or null itself. */
  lemma NullDefaults()
    ensures CastValue(IntAdapter, Null) == Ok(Num(Integral(JInt, 0)))
    ensures CastValue(LongAdapter, Null) == Ok(Num(Integral(JLong, 0)))
    ensures CastValue(ByteAdapter, Null) == Ok(Num(Integral(JByte, 0)))
    ensures CastValue(ShortAdapter, Null) == Ok(Num(Integral(JShort, 0)))
    ensures CastValue(FloatAdapter, Null) == Ok(Num(Decimal(JFloat, Ascii("0.0"))))
    ensures CastValue(DoubleAdapter, Null) == Ok(Num(Decimal(JDouble, Ascii("0.0"))))
    ensures CastValue(BooleanAdapter, Null) == Ok(Bool(false))
    ensures CastValue(CharAdapter, Null) == Ok(Char(0))
    ensures CastValue(StringAdapter, Null) == Ok(Str(Ascii("null")))
    ensures CastValue(DefaultAdapter, Null) == Ok(Null)
  {
  }

  /** The integral adapters truncate: the result is in the range of the target
      type and agrees with the number's integral part in the low bits. */
  lemma IntegralTruncation(a: Adapter, n: Number)
    requires a in {IntAdapter, LongAdapter, ByteAdapter, ShortAdapter}
    requires n.Integral? || n.dkind == JBigDecimal
    ensures var m := Modulus(a);
      var r := CastValue(a, Num(n));
      && r.Ok? && r.value.Num? && r.value.n.Integral?
      && InSigned(r.value.n.value, m)
      && r.value.n.value % m == Numbers.Whole(n) % m
  {
    var m := Modulus(a);
    var v := CastValue(a, Num(n)).value.n.value;
    if a == ByteAdapter || a == ShortAdapter {
      var w := Numbers.IntValue(n);
      assert v % m == w % m;
      assert w % INT_MODULUS == Numbers.Whole(n) % INT_MODULUS;
      LowBits(w, Numbers.Whole(n), m);
    }
  }

  /** The modulus of an integral adapter's type. */
  function Modulus(a: Adapter): int
    requires a in {IntAdapter, LongAdapter, ByteAdapter, ShortAdapter}
  {
    match a
    case IntAdapter => INT_MODULUS
    case LongAdapter => LONG_MODULUS
    case ByteAdapter => BYTE_MODULUS
    case ShortAdapter => SHORT_MODULUS
  }

  /** Agreement modulo 2^32 implies agreement modulo 2^8 and 2^16. */
  lemma LowBits(w: int, x: int, m: int)
    requires m == BYTE_MODULUS || m == SHORT_MODULUS
    requires w % INT_MODULUS == x % INT_MODULUS
    ensures w % m == x % m
  {
    var k := INT_MODULUS / m;
    assert INT_MODULUS == m * k;
    var qw, qx := w / INT_MODULUS, x / INT_MODULUS;
    var r := w % INT_MODULUS;
    assert w == INT_MODULUS * qw + r && x == INT_MODULUS * qx + r;
    assert w == m * (k * qw) + r;
    assert x == m * (k * qx) + r;
    ModShift(w, m, k * qw, r);
    ModShift(x, m, k * qx, r);
  }

  /** Adding a multiple of m leaves the remainder modulo m. */
  lemma ModShift(v: int, m: int, q: int, r: int)
    requires m > 0 && v == m * q + r
    ensures v % m == r % m
  {
    var q0, r0 := r / m, r % m;
    assert r == m * q0 + r0 && 0 <= r0 < m;
    assert v == m * (q + q0) + r0;
    ModUnique(v, m, q + q0, r0);
  }

  /** The char adapter reads a String's first char, and the char 0 from an empty
      one. */
  lemma CharOfString(s: Text)
    ensures CastValue(CharAdapter, Str(s)) == Ok(Char(if s == [] then 0 else s[0]))
  {
  }

  // ---------------------------------------------------------------- Array.set

  /** `Array.set` refuses a value the array's component type cannot hold with
      IllegalArgumentException. A primitive array takes only the box of its own
      primitive type: the adapters already convert to that box, and the boolean
      adapter, which passes other objects through, has no widening into boolean. A
      reference array takes null or an instance of its component type. */
  predicate Assignable(x: JVal, t: JType) {
    match t
    case Primitive(p) => IsBoxOf(x, p)
    case Boxed(p) => x.Null? || IsBoxOf(x, p)
    case StringClass => x.Null? || x.Str?
    case ArrayOf(c) => x.Null? || (x.Arr? && ArrayAssignable(x.component, c))
    case OtherClass(name) => x.Null? || InstanceOf(x, name)
  }

  /** `x instanceof name` for a value that is not null: a host object is an instance
      of the classes of its chain and of Object, any other value of the supertypes
      of its class. */
  predicate InstanceOf(x: JVal, name: Text)
    requires !x.Null?
  {
    if x.Inst? then name == OBJECT.name || exists k | 0 <= k < |x.obj.chain| :: x.obj.chain[k].name == name
    else name in Supertypes(ClassOf(x))
  }

  /** Every value is an instance of Object, and one that is not an array is an
      instance of its own class. */
  lemma InstanceOfOwnClass(x: JVal)
    requires !x.Null?
    ensures InstanceOf(x, OBJECT.name)
    ensures !x.Arr? ==> InstanceOf(x, ClassName(x))
  {
    if x.Inst? && x.obj.chain != [] {
      assert x.obj.chain[0].name == ClassName(x);
    }
  }

  /** The value is the box of the primitive type p. */
  predicate IsBoxOf(x: JVal, p: Prim) {
    match p
    case PBoolean => x.Bool?
    case PChar => x.Char?
    case PByte => x.Num? && x.n.Integral? && x.n.ikind == JByte
    case PShort => x.Num? && x.n.Integral? && x.n.ikind == JShort
    case PInt => x.Num? && x.n.Integral? && x.n.ikind == JInt
    case PLong => x.Num? && x.n.Integral? && x.n.ikind == JLong
    case PFloat => x.Num? && x.n.Decimal? && x.n.dkind == JFloat
    case PDouble => x.Num? && x.n.Decimal? && x.n.dkind == JDouble
  }

  /** An array with component `from` is an instance of `to[]`: the same component,
      a reference component whose class has `to` among its supertypes, or, one
      dimension down, the same relation between array components. */
  predicate ArrayAssignable(from: JType, to: JType)
    decreases to
  {
    || from == to
    || (!from.Primitive? && to.OtherClass? && to.name in Supertypes(from))
    || (from.ArrayOf? && to.ArrayOf? && !from.component.Primitive? && ArrayAssignable(from.component, to.component))
  }

  // ---------------------------------------------------------------- cast

  /** The results of the elements from `items[i..]` on, each already stored. */
  function PrependItems(done: seq<JVal>, r: Result<seq<JVal>>): (p: Result<seq<JVal>>)
    ensures r.Ok? ==> p == Ok(done + r.value)
    ensures r.Err? ==> p == r
  {
    match r
    case Ok(rest) => Ok(done + rest)
    case Err(e) => Err(e)
  }

  lemma PrependItemsTwice(done: seq<JVal>, x: JVal, r: Result<seq<JVal>>)
    ensures PrependItems(done, PrependItems([x], r)) == PrependItems(done + [x], r)
  {
    if r.Ok? {
      assert done + ([x] + r.value) == (done + [x]) + r.value;
    }
  }

  /** `cast(jsonObj, cls, adapter)`: an array class gives a new array of the value's
      length (0 for null), filled in index order with each element cast to the
      component class; any other class goes through the adapter. */
  function CastSpec(obj: JVal, cls: JType, a: Adapter): (r: Result<JVal>)
    decreases cls, 0
  {
    if cls.ArrayOf? then
      if obj.Null? then Ok(Arr(cls.component, []))
      else if !obj.Arr? then Err(IllegalArgumentException)
      else
        var items :- CastItems(obj.items, cls.component, a, 0);
        Ok(Arr(cls.component, items))
    else CastValue(a, obj)
  }

  /** The loop of the array branch from index i on: cast the element, then
      `Array.set` it. */
  function CastItems(items: seq<JVal>, comp: JType, a: Adapter, i: nat): (r: Result<seq<JVal>>)
    requires i <= |items|
    decreases comp, |items| - i + 1
  {
    if i == |items| then Ok([])
    else
      var x :- CastSpec(items[i], comp, a);
      if !Assignable(x, comp) then Err(IllegalArgumentException)
      else PrependItems([x], CastItems(items, comp, a, i + 1))
  }

  /** A successful array cast has one element for each element of the value, each
      the cast of the element at the same index and held by the component type. */
  lemma {:induction false} CastItemsShape(items: seq<JVal>, comp: JType, a: Adapter, i: nat)
    requires i <= |items| && CastItems(items, comp, a, i).Ok?
    ensures var r := CastItems(items, comp, a, i).value;
      && |r| == |items| - i
      && forall k | 0 <= k < |r| :: CastSpec(items[i + k], comp, a) == Ok(r[k]) && Assignable(r[k], comp)
    decreases |items| - i
  {
    if i < |items| {
      var x := CastSpec(items[i], comp, a).value;
      var rest := CastItems(items, comp, a, i + 1).value;
      assert CastItems(items, comp, a, i).value == [x] + rest;
      CastItemsShape(items, comp, a, i + 1);
    }
  }

  /** A successful cast to an array class is an array of that component type, of
      the value's length (0 for null), whose every element is the cast of the
      value's element at the same index. */
  lemma CastArrayShape(obj: JVal, cls: JType, a: Adapter)
    requires cls.ArrayOf? && CastSpec(obj, cls, a).Ok?
    ensures var r := CastSpec(obj, cls, a).value;
      && r.Arr? && r.component == cls.component
      && (obj.Null? ==> r.items == [])
      && (!obj.Null? ==> (obj.Arr? && |r.items| == |obj.items|
           && forall k | 0 <= k < |obj.items| :: CastSpec(obj.items[k], cls.component, a) == Ok(r.items[k])))
  {
    if !obj.Null? {
      CastItemsShape(obj.items, cls.component, a, 0);
    }
  }

  /** Under the identity adapter every element goes into an Object[] unchanged. */
  lemma {:induction false} CastItemsObjects(items: seq<JVal>, i: nat)
    requires i <= |items|
    ensures CastItems(items, OBJECT, DefaultAdapter, i) == Ok(items[i..])
    decreases |items| - i
  {
    if i < |items| {
      CastItemsObjects(items, i + 1);
      assert CastSpec(items[i], OBJECT, DefaultAdapter) == Ok(items[i]);
      if !items[i].Null? {
        InstanceOfOwnClass(items[i]);
      }
      assert CastItems(items, OBJECT, DefaultAdapter, i)
        == PrependItems([items[i]], CastItems(items, OBJECT, DefaultAdapter, i + 1));
      assert items[i..] == [items[i]] + items[i + 1..];
    } else {
      assert items[i..] == [];
    }
  }

  /** Under the identity adapter, elements that are null or instances of a class go
      unchanged into an array of that class. */
  lemma {:induction false} CastItemsInstances(items: seq<JVal>, name: Text, i: nat)
    requires i <= |items|
    requires forall k | i <= k < |items| :: items[k].Null? || InstanceOf(items[k], name)
    ensures CastItems(items, OtherClass(name), DefaultAdapter, i) == Ok(items[i..])
    decreases |items| - i
  {
    if i < |items| {
      CastItemsInstances(items, name, i + 1);
      assert CastSpec(items[i], OtherClass(name), DefaultAdapter) == Ok(items[i]);
      assert CastItems(items, OtherClass(name), DefaultAdapter, i)
        == PrependItems([items[i]], CastItems(items, OtherClass(name), DefaultAdapter, i + 1));
      assert items[i..] == [items[i]] + items[i + 1..];
    } else {
      assert items[i..] == [];
    }
  }

  /** `cast(new Object[]{1L, 2L}, Number[].class)`: the Longs are Numbers, so they go
      into the Number[] unchanged. */
  lemma LongsIntoNumberArray()
    ensures var longs := [Num(Integral(JLong, 1)), Num(Integral(JLong, 2))];
      CastToClass(Arr(OBJECT, longs), Some(ArrayOf(OtherClass(NUMBER_CLASS))))
        == Ok(Arr(OtherClass(NUMBER_CLASS), longs))
  {
    var longs := [Num(Integral(JLong, 1)), Num(Integral(JLong, 2))];
    ElementClassFacts(ArrayOf(OtherClass(NUMBER_CLASS)));
    CastItemsInstances(longs, NUMBER_CLASS, 0);
    assert longs[0..] == longs;
  }

  /** Casting to an array class fails with IllegalArgumentException on a value that
      is neither null nor an array (`Array.getLength`). */
  lemma CastNonArray(obj: JVal, cls: JType, a: Adapter)
    requires cls.ArrayOf? && !obj.Null? && !obj.Arr?
    ensures CastSpec(obj, cls, a) == Err(IllegalArgumentException)
  {
  }

  /** `cast(jsonObj, cls, adapter)`: a new array filled by a loop of recursive
      casts, or the adapter. */
  method Cast(obj: JVal, cls: JType, a: Adapter) returns (r: Result<JVal>)
    ensures r == CastSpec(obj, cls, a)
    decreases cls
  {
    if !cls.ArrayOf? {
      return CastValue(a, obj);
    }
    if !obj.Null? && !obj.Arr? {
      return Err(IllegalArgumentException);
    }
    var items := if obj.Null? then [] else obj.items;
    var comp := cls.component;
    var arr := new JVal[|items|];
    var i := 0;
    ghost var spec := CastItems(items, comp, a, 0);
    assert spec == PrependItems(arr[..0], spec) by {
      assert spec.Ok? ==> [] + spec.value == spec.value;
    }
    while i < |items|
      invariant 0 <= i <= |items|
      invariant spec == PrependItems(arr[..i], CastItems(items, comp, a, i))
    {
      var x := Cast(items[i], comp, a);
      if x.Err? {
        return Err(x.error);
      }
      if !Assignable(x.value, comp) {
        return Err(IllegalArgumentException);
      }
      PrependItemsTwice(arr[..i], x.value, CastItems(items, comp, a, i + 1));
      arr[i] := x.value;
      assert arr[..i + 1] == arr[..i] + [x.value];
      i := i + 1;
    }
    assert arr[..] == arr[..i];
    assert spec == Ok(arr[..]) by {
      assert arr[..i] + [] == arr[..i];
    }
    return Ok(Arr(comp, arr[..]));
  }

  /** `cast(jsonVal, cls)`: null for a null class; otherwise the cast with the
      adapter of the element class. */
  function CastToClass(v: JVal, cls: Option<JType>): (r: Result<JVal>)
    ensures cls.None? ==> r == Ok(Null)
  {
    match cls
    case None => Ok(Null)
    case Some(c) => CastSpec(v, c, GetAdapter(ElementClass(c)))
  }

  /** `cast(jsonVal, cls)`, the method. */
  method CastByClass(v: JVal, cls: Option<JType>) returns (r: Result<JVal>)
    ensures r == CastToClass(v, cls)
  {
    if cls.None? {
      return Ok(Null);
    }
    var e := GetElementClass(cls.value);
    r := Cast(v, cls.value, GetAdapter(e));
  }

  /** `sample.getClass()` of a non-null sample. */
  function ClassOf(sample: JVal): JType
    requires !sample.Null?
  {
    match sample
    case Bool(_) => Boxed(PBoolean)
    case Char(_) => Boxed(PChar)
    case Num(Integral(JByte, _)) => Boxed(PByte)
    case Num(Integral(JShort, _)) => Boxed(PShort)
    case Num(Integral(JInt, _)) => Boxed(PInt)
    case Num(Integral(JLong, _)) => Boxed(PLong)
    case Num(Decimal(JFloat, _)) => Boxed(PFloat)
    case Num(Decimal(JDouble, _)) => Boxed(PDouble)
    case Str(_) => StringClass
    case Arr(c, _) => ArrayOf(c)
    case _ => OtherClass(ClassName(sample))
  }

  /** `cast(jsonVal, sample)`: null for a null sample; otherwise the cast to the
      sample's class. */
  function CastBySample(v: JVal, sample: JVal): (r: Result<JVal>)
    ensures sample.Null? ==> r == Ok(Null)
  {
    if sample.Null? then Ok(Null) else CastToClass(v, Some(ClassOf(sample)))
  }

  // ---------------------------------------------------------------- what the cast keeps

  /** The value already has the class, down to every element of every dimension:
      an array of that very component type, or a box of the element class's own
      type within its range; for another class, a value that class holds. */
  predicate Conforms(v: JVal, cls: JType)
    decreases cls
  {
    match cls
    case ArrayOf(c) => v.Arr? && v.component == c && forall x | x in v.items :: Conforms(x, c)
    case Primitive(p) => BoxInRange(v, p)
    case Boxed(p) => BoxInRange(v, p)
    case StringClass => v.Str?
    case OtherClass(_) => Assignable(v, cls)
  }

  /** The box of p, with an integral value inside the range of p. */
  predicate BoxInRange(v: JVal, p: Prim) {
    && IsBoxOf(v, p)
    && (p == PByte ==> InSigned(v.n.value, BYTE_MODULUS))
    && (p == PShort ==> InSigned(v.n.value, SHORT_MODULUS))
    && (p == PInt ==> InSigned(v.n.value, INT_MODULUS))
    && (p == PLong ==> InSigned(v.n.value, LONG_MODULUS))
  }

  /** A conforming value fits an array of its class. */
  lemma ConformsAssignable(v: JVal, cls: JType)
    requires Conforms(v, cls)
    ensures Assignable(v, cls)
  {
  }

  /** Casting a value to a class it already has gives it back unchanged. */
  lemma CastConforming(v: JVal, cls: JType)
    requires Conforms(v, cls)
    ensures CastToClass(v, Some(cls)) == Ok(v)
  {
    CastConformingWith(v, cls, GetAdapter(ElementClass(cls)));
  }

  /** Casting by a sample of the value's own class gives the value back. */
  lemma SampleConforming(v: JVal, sample: JVal)
    requires !sample.Null? && Conforms(v, ClassOf(sample))
    ensures CastBySample(v, sample) == Ok(v)
  {
    CastConforming(v, ClassOf(sample));
  }

  lemma {:induction false} CastConformingWith(v: JVal, cls: JType, a: Adapter)
    requires Conforms(v, cls) && a == GetAdapter(ElementClass(cls))
    ensures CastSpec(v, cls, a) == Ok(v)
    decreases cls, 0
  {
    if cls.ArrayOf? {
      ElementClassFacts(cls);
      CastItemsConforming(v.items, cls.component, a, 0);
      assert v.items[0..] == v.items;
    } else {
      ScalarConforming(v, cls);
    }
  }

  lemma {:induction false} CastItemsConforming(items: seq<JVal>, comp: JType, a: Adapter, i: nat)
    requires i <= |items| && a == GetAdapter(ElementClass(comp))
    requires forall x | x in items :: Conforms(x, comp)
    ensures CastItems(items, comp, a, i) == Ok(items[i..])
    decreases comp, |items| - i + 1
  {
    if i < |items| {
      assert items[i] in items;
      CastConformingWith(items[i], comp, a);
      ConformsAssignable(items[i], comp);
      CastItemsConforming(items, comp, a, i + 1);
      assert items[i..] == [items[i]] + items[i + 1..];
    }
  }

  /** A conforming value of a class that is not an array passes its adapter
      unchanged. */
  lemma ScalarConforming(v: JVal, cls: JType)
    requires !cls.ArrayOf? && Conforms(v, cls)
    ensures CastValue(GetAdapter(ElementClass(cls)), v) == Ok(v)
  {
    ElementClassFacts(cls);
    match cls
    case Primitive(p) => BoxConforming(v, p);
    case Boxed(p) => BoxConforming(v, p);
    case StringClass =>
    case OtherClass(_) =>
  }

  lemma BoxConforming(v: JVal, p: Prim)
    requires BoxInRange(v, p)
    ensures CastValue(GetAdapter(Boxed(p)), v) == Ok(v)
  {
    match p
    case PInt =>
      assert Numbers.Whole(v.n) == v.n.value;
    case PLong =>
      assert Numbers.Whole(v.n) == v.n.value;
    case PByte =>
      assert Numbers.Whole(v.n) == v.n.value;
      assert Numbers.IntValue(v.n) == v.n.value;
    case PShort =>
      assert Numbers.Whole(v.n) == v.n.value;
      assert Numbers.IntValue(v.n) == v.n.value;
    case _ =>
  }
}
