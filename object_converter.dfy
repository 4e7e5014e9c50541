/** org.miktim.json.ObjectConverter (src/org/miktim/json/ObjectConverter.java):
    the same walks as AbstractObject, with three differences. The accessible
    fields are judged from the converter's own package and include final
    fields; load never assigns a final field; and the target may not itself be
    a JsonObject. A JsonObject met as a field value still converts itself
    through AbstractObject. */
module ObjectConverter {
  import opened JavaLang
  import opened Values
  import opened HostReflect
  import AO = AbstractObject
  import JsonClass
  import JSONAdapter

  // ---------------------------------------------------------------- accessible fields

  /** The `ignore` mask for class k of the target's chain: no FINAL; PRIVATE
      joins after the runtime class. */
  function Mask(k: nat): set<Modifier> {
    {Transient, Strict, Interface, Abstract, Native} + (if k == 0 then {} else {Private})
  }

  /** A field the walk admits, in class c at position k of the target's chain,
      for a converter whose class is in package thisPkg. */
  predicate Admissible(thisPkg: nat, k: nat, c: ClassDesc, f: FieldDesc) {
    && !f.synthetic && !f.enumConstant
    && (c.pkg == thisPkg || Public in f.modifiers || Protected in f.modifiers)
    && f.modifiers !! Mask(k)
  }

  function Admits(thisPkg: nat): Admit {
    (k: nat, c: ClassDesc, f: FieldDesc) => Admissible(thisPkg, k, c, f)
  }

  function AccessibleFields(thisPkg: nat, o: HostObject): (fields: seq<FieldRef>)
    ensures ValidRefs(o.chain, fields)
  {
    Accessible(o.chain, Admits(thisPkg))
  }

  /** `getAccessibleFields(thisObj, targetObj)`, with thisPkg the package of
      thisObj's class. */
  method GetAccessibleFields(thisPkg: nat, o: HostObject) returns (fields: seq<FieldRef>)
    ensures fields == AccessibleFields(thisPkg, o)
  {
    var chain := o.chain;
    var ignore := {Transient, Strict, Interface, Abstract, Native};
    fields := [];
    var k := 0;
    while k < |chain|
      invariant k <= |chain|
      invariant ignore == Mask(k)
      invariant fields == Done(chain, Admits(thisPkg), k)
    {
      var declared := chain[k].fields;
      var clsPkg := chain[k].pkg;
      for j := 0 to |declared|
        invariant fields == Within(chain, Admits(thisPkg), k, j)
      {
        var field := declared[j];
        if field.synthetic || field.enumConstant {
          continue;
        }
        if clsPkg != thisPkg && Public !in field.modifiers && Protected !in field.modifiers {
          continue;
        }
        if !Named(chain, fields, field.name) && field.modifiers !! ignore {
          fields := fields + [FieldRef(k, j)];
        }
      }
      ignore := ignore + {Private};
      k := k + 1;
    }
  }

  /** A field is accessible exactly when the walk admits it and no admitted
      field of the same name is met before it. */
  lemma AccessibleFieldsExactly(thisPkg: nat, o: HostObject, r: FieldRef)
    requires ValidRef(o.chain, r)
    ensures r in AccessibleFields(thisPkg, o) <==>
      Admissible(thisPkg, r.k, o.chain[r.k], FieldAt(o.chain, r)) && !Shadowed(o.chain, Admits(thisPkg), r)
  {
    AccessibleExactly(o.chain, Admits(thisPkg), r);
  }

  /** What an accessible field cannot be: synthetic, an enum constant, transient
      or native; private unless declared by the runtime class; neither public
      nor protected in a class outside the converter's package. */
  lemma AccessibleFieldFacts(thisPkg: nat, o: HostObject, r: FieldRef)
    requires ValidRef(o.chain, r) && r in AccessibleFields(thisPkg, o)
    ensures var f := FieldAt(o.chain, r);
      && !f.synthetic && !f.enumConstant
      && Transient !in f.modifiers && Native !in f.modifiers
      && (Private in f.modifiers ==> r.k == 0)
      && (o.chain[r.k].pkg != thisPkg ==> Public in f.modifiers || Protected in f.modifiers)
  {
    AccessibleExactly(o.chain, Admits(thisPkg), r);
  }

  /** Final and static fields are not masked: a field of the runtime class in
      the converter's package that is neither synthetic, an enum constant,
      transient, strict, an interface, abstract nor native, and whose name no
      earlier field of that class has, is accessible whatever else its
      modifiers say. */
  lemma RuntimeFieldAccessible(thisPkg: nat, o: HostObject, r: FieldRef)
    requires ValidRef(o.chain, r) && r.k == 0 && o.chain[0].pkg == thisPkg
    requires var f := FieldAt(o.chain, r);
      !f.synthetic && !f.enumConstant && f.modifiers !! {Transient, Strict, Interface, Abstract, Native}
    requires forall j | 0 <= j < r.j :: o.chain[0].fields[j].name != FieldAt(o.chain, r).name
    ensures r in AccessibleFields(thisPkg, o)
  {
    forall q | ValidRef(o.chain, q) && Earlier(q, r) ensures FieldAt(o.chain, q).name != FieldAt(o.chain, r).name {
      assert q.k == 0 && q.j < r.j;
    }
    AccessibleExactly(o.chain, Admits(thisPkg), r);
  }

  // ---------------------------------------------------------------- unload and load

  /** `unload(thisObj, targetObj)`. A target that is a JsonObject is cast to
      ObjectConverter, which fails: JsonObject extends AbstractObject. */
  function Unloaded(h: Hooks, conv: Conv, thisPkg: nat, target: HostObject, depth: nat): Result<JVal> {
    if depth == 0 then Err(StackOverflowError)
    else if InstanceOf(target, AO.JSON_OBJECT) then Err(ClassCastException)
    else
      var members :- AO.Start(h, conv, target);
      AO.UnloadFrom(h, conv, target, AccessibleFields(thisPkg, target), 0, members, depth)
  }

  /** `load(thisObj, targetObj, json)`: as AbstractObject's, over this
      converter's accessible fields, leaving final fields alone. */
  function Loaded(h: Hooks, conv: Conv, thisPkg: nat, target: HostObject, json: JVal, depth: nat)
    : Result<HostObject>
  {
    if depth == 0 then Err(StackOverflowError)
    else if InstanceOf(target, AO.JSON_OBJECT) then Err(ClassCastException)
    else match h.reviver(conv.cls, ClassName(Inst(target)), json)
      case Keep(v) =>
        if AO.IsJson(v) then AO.LoadFrom(h, conv, target, AccessibleFields(thisPkg, target), 0, v.entries, true, depth)
        else Ok(target)
      case Ignored => Ok(target)
  }

  /** A JsonObject target is refused before any hook runs. */
  lemma JsonObjectRefused(h: Hooks, conv: Conv, thisPkg: nat, target: HostObject, json: JVal, depth: nat)
    requires depth > 0 && InstanceOf(target, AO.JSON_OBJECT)
    ensures Unloaded(h, conv, thisPkg, target, depth) == Err(ClassCastException)
    ensures Loaded(h, conv, thisPkg, target, json, depth) == Err(ClassCastException)
  {
  }

  /** With the class-level replacer answering the target itself, unload writes
      exactly the accessible fields that are neither ignored nor replaced by
      IGNORED, in walk order, under their own names. */
  lemma UnloadKeys(h: Hooks, conv: Conv, thisPkg: nat, target: HostObject, depth: nat)
    requires Unloaded(h, conv, thisPkg, target, depth).Ok?
    requires h.replacer(conv.cls, ClassName(Inst(target)), Inst(target)) == Keep(Inst(target))
    ensures var r := Unloaded(h, conv, thisPkg, target, depth).value;
      r.Map? && r.cls == JsonMap && Keys(r.entries) == AO.Kept(h, conv, target, AccessibleFields(thisPkg, target))
  {
    var fields := AccessibleFields(thisPkg, target);
    AccessibleNames(target.chain, Admits(thisPkg));
    AO.UnloadFromKeys(h, conv, target, fields, 0, [], depth);
    assert fields[0..] == fields;
  }

  /** With the class-level replacer answering the target itself, unload stores,
      under the name of each accessible field that is not ignored and whose
      replacer answer v is not IGNORED, the member value v unloads to. */
  lemma UnloadValues(h: Hooks, conv: Conv, thisPkg: nat, target: HostObject, depth: nat, m: nat)
    requires Unloaded(h, conv, thisPkg, target, depth).Ok?
    requires h.replacer(conv.cls, ClassName(Inst(target)), Inst(target)) == Keep(Inst(target))
    requires m < |AccessibleFields(thisPkg, target)|
    requires var f := AccessibleFields(thisPkg, target)[m]; var name := FieldName(target.chain, f);
      name !in conv.ignored && h.replacer(conv.cls, name, Slot(target, f)).Keep?
    ensures var f := AccessibleFields(thisPkg, target)[m]; var name := FieldName(target.chain, f);
      var v := h.replacer(conv.cls, name, Slot(target, f)).v;
      var r := Unloaded(h, conv, thisPkg, target, depth).value;
      depth > 0 && AO.Unloading(h, v, depth).Ok? && r.Map?
      && Lookup(r.entries, Str(name)) == Some(AO.Unloading(h, v, depth).value)
  {
    var fields := AccessibleFields(thisPkg, target);
    AccessibleNames(target.chain, Admits(thisPkg));
    AO.UnloadFromValue(h, conv, target, fields, 0, [], depth, m);
  }

  /** What a successful load does to each field: the chain and the ignore
      list stay; a field outside the accessible ones, and every final field,
      keeps its value; an accessible one gets what FieldOutcome computes. */
  lemma LoadedFields(h: Hooks, conv: Conv, thisPkg: nat, target: HostObject, json: JVal, depth: nat, q: FieldRef)
    requires WellShaped(target) && Loaded(h, conv, thisPkg, target, json, depth).Ok?
    ensures var r := Loaded(h, conv, thisPkg, target, json, depth).value;
      var answer := h.reviver(conv.cls, ClassName(Inst(target)), json);
      && r.chain == target.chain && r.ignored == target.ignored && WellShaped(r)
      && (!(answer.Keep? && AO.IsJson(answer.v)) ==> r == target)
      && (q !in AccessibleFields(thisPkg, target) ==> Slot(r, q) == Slot(target, q))
      && (Final in FieldModifiers(target.chain, q) ==> Slot(r, q) == Slot(target, q))
      && (answer.Keep? && AO.IsJson(answer.v) && q in AccessibleFields(thisPkg, target) ==>
            var s := AO.FieldOutcome(h, conv, target, q, answer.v.entries, true, depth);
            s.Ok? && Slot(r, q) == if s.value.Some? then s.value.value else Slot(target, q))
  {
    var answer := h.reviver(conv.cls, ClassName(Inst(target)), json);
    if answer.Keep? && AO.IsJson(answer.v) {
      var fields := AccessibleFields(thisPkg, target);
      AccessibleNames(target.chain, Admits(thisPkg));
      forall m, m' | 0 <= m < m' < |fields| ensures fields[m] != fields[m'] {
        assert Earlier(fields[m], fields[m']);
      }
      AO.LoadFromSlots(h, conv, target, fields, 0, answer.v.entries, true, depth);
      assert fields[0..] == fields;
      if q in fields {
        var m :| 0 <= m < |fields| && fields[m] == q;
        if Final in FieldModifiers(target.chain, q) {
          assert AO.FieldOutcome(h, conv, target, q, answer.v.entries, true, depth).value.None?;
        }
      }
    }
  }

  /** Load changes a field only when the reviver's answer for the class is a
      Json, the field is accessible and not final, its name is neither
      ignored nor absent from that Json, and the reviver keeps the member. */
  lemma LoadChanges(h: Hooks, conv: Conv, thisPkg: nat, target: HostObject, json: JVal, depth: nat, q: FieldRef)
    requires WellShaped(target) && Loaded(h, conv, thisPkg, target, json, depth).Ok?
    requires Slot(Loaded(h, conv, thisPkg, target, json, depth).value, q) != Slot(target, q)
    ensures var answer := h.reviver(conv.cls, ClassName(Inst(target)), json);
      var name := FieldName(target.chain, q);
      && answer.Keep? && AO.IsJson(answer.v) && q in AccessibleFields(thisPkg, target)
      && Final !in FieldModifiers(target.chain, q)
      && name !in conv.ignored && HasKey(answer.v.entries, Str(name))
      && h.reviver(conv.cls, name, JsonClass.Member(answer.v.entries, Str(name))).Keep?
  {
    LoadedFields(h, conv, thisPkg, target, json, depth, q);
  }

  // ---------------------------------------------------------------- castMember

  /** `castMember(memberName, jsonObj, sample)`: the sample when the member is
      absent or null, the member cast by the sample otherwise. */
  function MemberCast(es: seq<Entry>, name: Text, sample: JVal): (r: Result<JVal>)
    ensures JsonClass.Member(es, Str(name)).Null? ==> r == Ok(sample)
    ensures !HasKey(es, Str(name)) ==> r == Ok(sample)
  {
    var member := JsonClass.Member(es, Str(name));
    if !member.Null? then JSONAdapter.CastBySample(member, sample) else Ok(sample)
  }

  // ---------------------------------------------------------------- the converter

  /** An ObjectConverter instance: its class's name and package, and its
      ignore list, a HashSet of field names. */
  class Converter {
    const cls: Text
    const pkg: nat
    var ignoredFields: set<Text>

    constructor (cls: Text, pkg: nat)
      ensures this.cls == cls && this.pkg == pkg && ignoredFields == {}
    {
      this.cls := cls;
      this.pkg := pkg;
      ignoredFields := {};
    }

    function AsConv(): (c: Conv)
      reads this
      ensures c.cls == cls && c.ignored == ignoredFields
    {
      Conv(cls, ignoredFields)
    }

    /** `isIgnored(fldName)`. */
    predicate IsIgnored(name: Text)
      reads this
    {
      name in ignoredFields
    }

    /** `setIgnored(fldNames)`: clear, then add. */
    method SetIgnored(names: seq<Text>)
      modifies this
      ensures ignoredFields == set n | n in names
      ensures forall n :: IsIgnored(n) <==> n in names
    {
      ignoredFields := {};
      AddIgnored(names);
    }

    /** `addIgnored(fldNames)`: `Collections.addAll`, one name at a time. */
    method AddIgnored(names: seq<Text>)
      modifies this
      ensures ignoredFields == old(ignoredFields) + set n | n in names
    {
      for i := 0 to |names|
        invariant ignoredFields == old(ignoredFields) + set n | n in names[..i]
      {
        assert names[..i + 1] == names[..i] + [names[i]];
        ignoredFields := ignoredFields + {names[i]};
      }
      assert names[..|names|] == names;
    }

    /** `getIgnored()`: the names of the set, each once. */
    method GetIgnored() returns (names: seq<Text>)
      ensures (set n | n in names) == ignoredFields
      ensures forall i, j | 0 <= i < j < |names| :: names[i] != names[j]
    {
      names := [];
      var rest := ignoredFields;
      while rest != {}
        invariant rest !! (set n | n in names)
        invariant rest + (set n | n in names) == ignoredFields
        invariant forall i, j | 0 <= i < j < |names| :: names[i] != names[j]
        decreases rest
      {
        var n :| n in rest;
        names := names + [n];
        rest := rest - {n};
      }
    }

    /** `unload(this, targetObj)`. */
    method Unload(h: Hooks, target: HostObject, depth: nat) returns (r: Result<JVal>)
      ensures r == Unloaded(h, AsConv(), pkg, target, depth)
    {
      if depth == 0 {
        return Err(StackOverflowError);
      }
      if InstanceOf(target, AO.JSON_OBJECT) {
        return Err(ClassCastException);
      }
      var members :- AO.Start(h, AsConv(), target);
      var fields := GetAccessibleFields(pkg, target);
      r := AO.UnloadFields(h, AsConv(), target, fields, members, depth);
    }

    /** `load(this, targetObj, json)`. */
    method Load(h: Hooks, target: HostObject, json: JVal, depth: nat) returns (r: Result<HostObject>)
      ensures r == Loaded(h, AsConv(), pkg, target, json, depth)
    {
      if depth == 0 {
        return Err(StackOverflowError);
      }
      if InstanceOf(target, AO.JSON_OBJECT) {
        return Err(ClassCastException);
      }
      var answer := h.reviver(cls, ClassName(Inst(target)), json);
      if !answer.Keep? || !AO.IsJson(answer.v) {
        return Ok(target);
      }
      var fields := GetAccessibleFields(pkg, target);
      r := AO.LoadFields(h, AsConv(), target, fields, answer.v.entries, true, depth);
    }

    /** `castMember(memberName, jsonObj, sample)`. */
    method CastMember(name: Text, json: JsonClass.Json, sample: JVal) returns (r: Result<JVal>)
      ensures r == MemberCast(json.members, name, sample)
    {
      var member := json.Get(Str(name), []);
      if member.value.Null? {
        return Ok(sample);
      }
      if sample.Null? {
        return Ok(Null);
      }
      r := JSONAdapter.CastByClass(member.value, Some(JSONAdapter.ClassOf(sample)));
    }
  }
}
