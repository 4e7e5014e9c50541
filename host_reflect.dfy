/** What the object converters take from java.lang.reflect: the declared fields of
    a host object's class chain, Field.get and Field.set, instanceof, and the
    walk shared by the three getAccessibleFields variants, which keeps for each
    name the first admitted field met from the runtime class up to the root. The
    variants differ only in which fields they admit. */
module HostReflect {
  import opened JavaLang
  import opened Values
  import JSONAdapter

  /** A declared field: field j of class k of the chain (k = 0 is the runtime class). */
  datatype FieldRef = FieldRef(k: nat, j: nat)

  predicate ValidRef(chain: seq<ClassDesc>, r: FieldRef) {
    r.k < |chain| && r.j < |chain[r.k].fields|
  }

  predicate ValidRefs(chain: seq<ClassDesc>, rs: seq<FieldRef>) {
    forall i | 0 <= i < |rs| :: ValidRef(chain, rs[i])
  }

  function FieldAt(chain: seq<ClassDesc>, r: FieldRef): FieldDesc
    requires ValidRef(chain, r)
  {
    chain[r.k].fields[r.j]
  }

  /** `field.getName()`. */
  function FieldName(chain: seq<ClassDesc>, r: FieldRef): Text {
    if ValidRef(chain, r) then FieldAt(chain, r).name else []
  }

  /** `field.getType()`; Object for a field the object does not have. */
  function FieldType(chain: seq<ClassDesc>, r: FieldRef): JType {
    if ValidRef(chain, r) then FieldAt(chain, r).ftype else OBJECT
  }

  /** `field.getModifiers()`. */
  function FieldModifiers(chain: seq<ClassDesc>, r: FieldRef): set<Modifier> {
    if ValidRef(chain, r) then FieldAt(chain, r).modifiers else {}
  }

  /** The order getAccessibleFields meets fields in: class by class from the
      runtime class up, and in declaration order within a class. */
  predicate Earlier(a: FieldRef, b: FieldRef) {
    a.k < b.k || (a.k == b.k && a.j < b.j)
  }

  /** A variant's admission test for a field, given the position of its class in
      the chain and the class itself. */
  type Admit = (nat, ClassDesc, FieldDesc) -> bool

  predicate Admitted(chain: seq<ClassDesc>, admit: Admit, r: FieldRef)
    requires ValidRef(chain, r)
  {
    admit(r.k, chain[r.k], FieldAt(chain, r))
  }

  /** `accessibleFields.containsKey(name)` on the fields kept so far. */
  predicate Named(chain: seq<ClassDesc>, acc: seq<FieldRef>, name: Text)
    requires ValidRefs(chain, acc)
  {
    exists i | 0 <= i < |acc| :: FieldAt(chain, acc[i]).name == name
  }

  /** An admitted field of the same name is met before r. */
  ghost predicate Shadowed(chain: seq<ClassDesc>, admit: Admit, r: FieldRef)
    requires ValidRef(chain, r)
  {
    exists q: FieldRef | ValidRef(chain, q) && Earlier(q, r) ::
      Admitted(chain, admit, q) && FieldAt(chain, q).name == FieldAt(chain, r).name
  }

  /** What the walk has kept once it reaches position p: admitted fields met
      before p, in walk order, none shadowed, and a field for every name an
      admitted field met before p carries. */
  ghost predicate Collected(chain: seq<ClassDesc>, admit: Admit, acc: seq<FieldRef>, p: FieldRef) {
    && ValidRefs(chain, acc)
    && (forall i | 0 <= i < |acc| ::
          Earlier(acc[i], p) && Admitted(chain, admit, acc[i]) && !Shadowed(chain, admit, acc[i]))
    && (forall i, i' | 0 <= i < i' < |acc| :: Earlier(acc[i], acc[i']))
    && (forall q | ValidRef(chain, q) && Earlier(q, p) && Admitted(chain, admit, q) ::
          Named(chain, acc, FieldAt(chain, q).name))
  }

  /** One field of the inner loop: put it when it is admitted and its name is new. */
  function Step(chain: seq<ClassDesc>, admit: Admit, acc: seq<FieldRef>, k: nat, j: nat): seq<FieldRef>
    requires ValidRef(chain, FieldRef(k, j)) && ValidRefs(chain, acc)
  {
    var f := chain[k].fields[j];
    if admit(k, chain[k], f) && !Named(chain, acc, f.name) then acc + [FieldRef(k, j)] else acc
  }

  /** The fields kept after the classes before k. */
  function Done(chain: seq<ClassDesc>, admit: Admit, k: nat): (acc: seq<FieldRef>)
    requires k <= |chain|
    ensures ValidRefs(chain, acc)
    decreases k, 0
  {
    if k == 0 then [] else Within(chain, admit, k - 1, |chain[k - 1].fields|)
  }

  /** The fields kept after the classes before k and the first m fields of class k. */
  function Within(chain: seq<ClassDesc>, admit: Admit, k: nat, m: nat): (acc: seq<FieldRef>)
    requires k < |chain| && m <= |chain[k].fields|
    ensures ValidRefs(chain, acc)
    decreases k, m + 1
  {
    if m == 0 then Done(chain, admit, k) else Step(chain, admit, Within(chain, admit, k, m - 1), k, m - 1)
  }

  lemma {:induction false} DoneCollected(chain: seq<ClassDesc>, admit: Admit, k: nat)
    requires k <= |chain|
    ensures Collected(chain, admit, Done(chain, admit, k), FieldRef(k, 0))
    decreases k, 0
  {
    if k > 0 {
      WithinCollected(chain, admit, k - 1, |chain[k - 1].fields|);
      NextClass(chain, admit, Done(chain, admit, k), k - 1);
    }
  }

  lemma {:induction false} WithinCollected(chain: seq<ClassDesc>, admit: Admit, k: nat, m: nat)
    requires k < |chain| && m <= |chain[k].fields|
    ensures Collected(chain, admit, Within(chain, admit, k, m), FieldRef(k, m))
    decreases k, m + 1
  {
    if m == 0 {
      DoneCollected(chain, admit, k);
    } else {
      WithinCollected(chain, admit, k, m - 1);
      StepCollected(chain, admit, Within(chain, admit, k, m - 1), k, m - 1);
    }
  }

  /** `accessibleFields.values()`: the fields kept once the walk passes the root. */
  function Accessible(chain: seq<ClassDesc>, admit: Admit): (fields: seq<FieldRef>)
    ensures ValidRefs(chain, fields)
  {
    Done(chain, admit, |chain|)
  }

  lemma StepCollected(chain: seq<ClassDesc>, admit: Admit, acc: seq<FieldRef>, k: nat, j: nat)
    requires ValidRef(chain, FieldRef(k, j))
    requires Collected(chain, admit, acc, FieldRef(k, j))
    ensures Collected(chain, admit, Step(chain, admit, acc, k, j), FieldRef(k, j + 1))
  {
    var r := FieldRef(k, j);
    var f := FieldAt(chain, r);
    var acc' := Step(chain, admit, acc, k, j);
    if admit(k, chain[k], f) && !Named(chain, acc, f.name) {
      assert acc' == acc + [r];
      forall q | ValidRef(chain, q) && Earlier(q, r) && Admitted(chain, admit, q)
        ensures FieldAt(chain, q).name != f.name
      {
        assert Named(chain, acc, FieldAt(chain, q).name);
      }
      assert !Shadowed(chain, admit, r);
      assert ValidRefs(chain, acc');
      forall q | ValidRef(chain, q) && Earlier(q, FieldRef(k, j + 1)) && Admitted(chain, admit, q)
        ensures Named(chain, acc', FieldAt(chain, q).name)
      {
        if q == r {
          assert acc'[|acc|] == r;
        } else {
          var i :| 0 <= i < |acc| && FieldAt(chain, acc[i]).name == FieldAt(chain, q).name;
          assert acc'[i] == acc[i];
        }
      }
    } else {
      forall q | ValidRef(chain, q) && Earlier(q, FieldRef(k, j + 1)) && Admitted(chain, admit, q)
        ensures Named(chain, acc', FieldAt(chain, q).name)
      {
      }
    }
  }

  lemma NextClass(chain: seq<ClassDesc>, admit: Admit, acc: seq<FieldRef>, k: nat)
    requires k < |chain|
    requires Collected(chain, admit, acc, FieldRef(k, |chain[k].fields|))
    ensures Collected(chain, admit, acc, FieldRef(k + 1, 0))
  {
    forall q | ValidRef(chain, q) && Earlier(q, FieldRef(k + 1, 0)) && Admitted(chain, admit, q)
      ensures Named(chain, acc, FieldAt(chain, q).name)
    {
      assert Earlier(q, FieldRef(k, |chain[k].fields|));
    }
  }

  /** A field is kept exactly when it is admitted and no admitted field of the
      same name comes before it in the walk. */
  lemma AccessibleExactly(chain: seq<ClassDesc>, admit: Admit, r: FieldRef)
    requires ValidRef(chain, r)
    ensures r in Accessible(chain, admit) <==> Admitted(chain, admit, r) && !Shadowed(chain, admit, r)
  {
    var acc := Accessible(chain, admit);
    DoneCollected(chain, admit, |chain|);
    if Admitted(chain, admit, r) && !Shadowed(chain, admit, r) {
      assert Earlier(r, FieldRef(|chain|, 0));
      assert Named(chain, acc, FieldAt(chain, r).name);
      var i :| 0 <= i < |acc| && FieldAt(chain, acc[i]).name == FieldAt(chain, r).name;
      assert ValidRef(chain, acc[i]) && Admitted(chain, admit, acc[i]) && !Shadowed(chain, admit, acc[i]);
      assert !Earlier(acc[i], r) && !Earlier(r, acc[i]);
      assert acc[i] == r;
    }
  }

  /** The kept fields come in walk order and carry distinct names. */
  lemma AccessibleNames(chain: seq<ClassDesc>, admit: Admit)
    ensures forall i, i' | 0 <= i < i' < |Accessible(chain, admit)| ::
      Earlier(Accessible(chain, admit)[i], Accessible(chain, admit)[i'])
      && FieldName(chain, Accessible(chain, admit)[i]) != FieldName(chain, Accessible(chain, admit)[i'])
  {
    var acc := Accessible(chain, admit);
    DoneCollected(chain, admit, |chain|);
    forall i, i' | 0 <= i < i' < |acc|
      ensures Earlier(acc[i], acc[i']) && FieldName(chain, acc[i]) != FieldName(chain, acc[i'])
    {
      assert ValidRef(chain, acc[i]) && Admitted(chain, admit, acc[i]) && !Shadowed(chain, admit, acc[i']);
    }
  }

  // ---------------------------------------------------------------- Field.get and Field.set

  /** `field.get(obj)`; null for a field the object does not have. */
  function Slot(o: HostObject, r: FieldRef): JVal {
    if r.k < |o.slots| && r.j < |o.slots[r.k]| then o.slots[r.k][r.j] else Null
  }

  /** `field.set(obj, v)`. */
  function SetSlot(o: HostObject, r: FieldRef, v: JVal): (o': HostObject)
    ensures o'.chain == o.chain && o'.ignored == o.ignored
    ensures WellShaped(o) ==> WellShaped(o')
  {
    if r.k < |o.slots| && r.j < |o.slots[r.k]|
    then o.(slots := o.slots[r.k := o.slots[r.k][r.j := v]])
    else o
  }

  /** The primitive type of a box, None for any other value. */
  function BoxPrim(v: JVal): (p: Option<Prim>)
    ensures p.Some? ==> JSONAdapter.IsBoxOf(v, p.value)
  {
    match v
    case Bool(_) => Some(PBoolean)
    case Char(_) => Some(PChar)
    case Num(Integral(JByte, _)) => Some(PByte)
    case Num(Integral(JShort, _)) => Some(PShort)
    case Num(Integral(JInt, _)) => Some(PInt)
    case Num(Integral(JLong, _)) => Some(PLong)
    case Num(Decimal(JFloat, _)) => Some(PFloat)
    case Num(Decimal(JDouble, _)) => Some(PDouble)
    case _ => None
  }

  /** The widening primitive conversions, with the identity: byte to short, short
      and char to int, int to long, long to float, float to double, and onward. */
  predicate Widens(from: Prim, to: Prim) {
    || from == to
    || (from == PByte && to in {PShort, PInt, PLong, PFloat, PDouble})
    || ((from == PShort || from == PChar) && to in {PInt, PLong, PFloat, PDouble})
    || (from == PInt && to in {PLong, PFloat, PDouble})
    || (from == PLong && to in {PFloat, PDouble})
    || (from == PFloat && to == PDouble)
  }

  /** The box of p holding the widened value of a box whose type widens to p. A
      floating result keeps the decimal text of its source. */
  function Widened(v: JVal, p: Prim): (r: JVal)
    requires BoxPrim(v).Some? && Widens(BoxPrim(v).value, p)
    ensures JSONAdapter.IsBoxOf(r, p)
    ensures JSONAdapter.IsBoxOf(v, p) ==> r == v
    ensures v.Num? && v.n.Integral? && r.n.Integral? ==> r.n.value == v.n.value
    ensures v.Char? && r.Num? && r.n.Integral? ==> r.n.value == v.c as int
    ensures v.Num? && v.n.Decimal? ==> r.n.Decimal? && r.n.lexeme == v.n.lexeme
  {
    if JSONAdapter.IsBoxOf(v, p) then v
    else if v.Num? && v.n.Decimal? then Num(Decimal(JDouble, v.n.lexeme))
    else
      var whole := if v.Char? then v.c as int else v.n.value;
      match p
      case PShort => Num(Integral(JShort, whole))
      case PInt => Num(Integral(JInt, whole))
      case PLong => Num(Integral(JLong, whole))
      case PFloat => Num(Decimal(JFloat, IntText(whole)))
      case _ => Num(Decimal(JDouble, IntText(whole)))
  }

  /** `field.set(obj, v)` on a field declared of type t, as far as the value goes:
      the value stored, or IllegalArgumentException. A primitive field takes the
      box of its own type or, widened, of a narrower one, and never null; a
      reference field takes null or an instance of its type. */
  function FieldSet(t: JType, v: JVal): (r: Result<JVal>)
    ensures r.Ok? ==> JSONAdapter.Assignable(r.value, t)
    ensures r.Err? ==> r.error == IllegalArgumentException
    ensures !t.Primitive? ==> (r.Ok? <==> JSONAdapter.Assignable(v, t)) && (r.Ok? ==> r.value == v)
    ensures t.Primitive? && JSONAdapter.IsBoxOf(v, t.p) ==> r == Ok(v)
    ensures t.Primitive? && v.Null? ==> r.Err?
    ensures t.Primitive? && BoxPrim(v).Some? ==> (r.Ok? <==> Widens(BoxPrim(v).value, t.p))
  {
    if t.Primitive? then
      match BoxPrim(v)
      case Some(q) => if Widens(q, t.p) then Ok(Widened(v, t.p)) else Err(IllegalArgumentException)
      case None => Err(IllegalArgumentException)
    else if JSONAdapter.Assignable(v, t) then Ok(v)
    else Err(IllegalArgumentException)
  }

  /** A Long 1 revived into a boolean field: the cast by the field's sample
      value lets the Long through, and Field.set refuses it. */
  lemma LongIntoBooleanField()
    ensures JSONAdapter.CastBySample(Num(Integral(JLong, 1)), Bool(false)) == Ok(Num(Integral(JLong, 1)))
    ensures FieldSet(Primitive(PBoolean), Num(Integral(JLong, 1))) == Err(IllegalArgumentException)
  {
  }

  /** A JSON array, cast by a List field's value to an Object[], is not a List:
      Field.set refuses it. */
  lemma ArrayIntoListField(items: seq<JVal>)
    ensures FieldSet(OtherClass(Ascii("java.util.List")), Arr(OBJECT, items)) == Err(IllegalArgumentException)
  {
    var list := Ascii("java.util.List");
    assert list !in Supertypes(ArrayOf(OBJECT));
  }

  /** An int stored into a long field is widened, keeping its value. */
  lemma IntIntoLongField()
    ensures FieldSet(Primitive(PLong), Num(Integral(JInt, 7))) == Ok(Num(Integral(JLong, 7)))
  {
  }

  /** Field.set changes the one field it names and no other. */
  lemma SlotAfterSet(o: HostObject, r: FieldRef, v: JVal, q: FieldRef)
    requires WellShaped(o) && ValidRef(o.chain, r)
    ensures Slot(SetSlot(o, r, v), q) == if q == r then v else Slot(o, q)
  {
  }

  /** `obj instanceof C` for the class named C. */
  predicate InstanceOf(o: HostObject, className: Text) {
    exists k | 0 <= k < |o.chain| :: o.chain[k].name == className
  }

  // ---------------------------------------------------------------- hooks

  /** What a replacer or reviver returns: a value, or the IGNORED sentinel. */
  datatype Reply = Keep(v: JVal) | Ignored

  /** The replacer and reviver overrides, looked up by the runtime class of the
      converter they belong to: `replacer(cls, name, value)` is what
      `replacer(name, value)` returns on a converter of class cls. */
  datatype Hooks = Hooks(replacer: (Text, Text, JVal) -> Reply, reviver: (Text, Text, JVal) -> Reply)

  /** The converter a walk asks (`thisObj`): its runtime class and its ignore list. */
  datatype Conv = Conv(cls: Text, ignored: set<Text>)

  /** A host object that converts itself: its own class and ignore list. */
  function ConvOf(o: HostObject): Conv {
    Conv(ClassName(Inst(o)), o.ignored)
  }
}
