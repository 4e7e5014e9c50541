/** org.miktim.json.AbstractObject (src/org/miktim/json/AbstractObject.java), the
    base of JsonObject and ObjectAdapter: the ignore list, castMember, the
    accessible fields of a target, and the unload and load walks between a
    target's fields and a Json object, driven by the converter's replacer and
    reviver. */
module AbstractObject {
  import opened JavaLang
  import opened Values
  import opened HostReflect
  import JSONAdapter
  import JsonClass

  /** `org.miktim.json.JsonObject`: its instances convert themselves. */
  const JSON_OBJECT: Text := Ascii("org.miktim.json.JsonObject")

  // ---------------------------------------------------------------- accessible fields

  /** The `ignore` mask for class k of the chain: PRIVATE joins it after the
      runtime class. */
  function Mask(k: nat): set<Modifier> {
    {Final, Transient, Strict, Interface, Abstract, Native} + (if k == 0 then {} else {Private})
  }

  /** A field the walk admits, in class c at position k of the chain of an
      object whose class is in package pkg. */
  predicate Admissible(pkg: nat, k: nat, c: ClassDesc, f: FieldDesc) {
    && !f.synthetic && !f.enumConstant
    && (c.pkg == pkg || Public in f.modifiers || Protected in f.modifiers)
    && f.modifiers !! Mask(k)
  }

  function Admits(pkg: nat): Admit {
    (k: nat, c: ClassDesc, f: FieldDesc) => Admissible(pkg, k, c, f)
  }

  /** `obj.getClass().getPackage()`. */
  function Package(o: HostObject): nat {
    if o.chain == [] then 0 else o.chain[0].pkg
  }

  function AccessibleFields(o: HostObject): (fields: seq<FieldRef>)
    ensures ValidRefs(o.chain, fields)
  {
    Accessible(o.chain, Admits(Package(o)))
  }

  /** `getAccessibleFields(obj)`. */
  method GetAccessibleFields(o: HostObject) returns (fields: seq<FieldRef>)
    ensures fields == AccessibleFields(o)
  {
    var chain := o.chain;
    var pkg := Package(o);
    var ignore := {Final, Transient, Strict, Interface, Abstract, Native};
    fields := [];
    var k := 0;
    while k < |chain|
      invariant k <= |chain|
      invariant ignore == Mask(k)
      invariant fields == Done(chain, Admits(pkg), k)
    {
      var declared := chain[k].fields;
      var clsPkg := chain[k].pkg;
      for j := 0 to |declared|
        invariant fields == Within(chain, Admits(pkg), k, j)
      {
        var field := declared[j];
        if field.synthetic || field.enumConstant {
          continue;
        }
        if clsPkg != pkg && Public !in field.modifiers && Protected !in field.modifiers {
          continue;
        }
        if !Named(chain, fields, field.name) && field.modifiers !! ignore {
          fields := fields + [FieldRef(k, j)];
        }
      }
      ignore := ignore + {Private};
      k := k + 1;
    }
  }

  /** A field is accessible exactly when the walk admits it and no admitted
      field of the same name is met before it. */
  lemma AccessibleFieldsExactly(o: HostObject, r: FieldRef)
    requires ValidRef(o.chain, r)
    ensures r in AccessibleFields(o) <==>
      Admissible(Package(o), r.k, o.chain[r.k], FieldAt(o.chain, r)) && !Shadowed(o.chain, Admits(Package(o)), r)
  {
    AccessibleExactly(o.chain, Admits(Package(o)), r);
  }

  /** What an accessible field cannot be: synthetic, an enum constant, final,
      transient or native; private unless declared by the runtime class; neither
      public nor protected in a class of another package. */
  lemma AccessibleFieldFacts(o: HostObject, r: FieldRef)
    requires ValidRef(o.chain, r) && r in AccessibleFields(o)
    ensures var f := FieldAt(o.chain, r);
      && !f.synthetic && !f.enumConstant
      && Final !in f.modifiers && Transient !in f.modifiers && Native !in f.modifiers
      && (Private in f.modifiers ==> r.k == 0)
      && (o.chain[r.k].pkg != Package(o) ==> Public in f.modifiers || Protected in f.modifiers)
  {
    AccessibleExactly(o.chain, Admits(Package(o)), r);
  }

  // ---------------------------------------------------------------- unload

  /** `json instanceof Json`. A map value no Json could hold counts as another object. */
  predicate IsJson(v: JVal) {
    v.Map? && v.cls == JsonMap && NamedMembers(v.entries)
  }

  /** `unload(thisObj, targetObj)` with `depth` stack frames left: the
      replacer's answer for the class, then the accessible fields walked into a
      fresh Json when that answer is the target itself, into the answer when it
      is a Json. IGNORED and any other object fail the final cast to Json, null
      fails `equals`. */
  function Unloaded(h: Hooks, conv: Conv, target: HostObject, depth: nat): Result<JVal>
    decreases depth, 1
  {
    if depth == 0 then Err(StackOverflowError)
    else
      var members :- Start(h, conv, target);
      UnloadFrom(h, conv, target, AccessibleFields(target), 0, members, depth)
  }

  /** The members unload starts from: none when the replacer answers the target
      itself, those of the Json it answers otherwise. */
  function Start(h: Hooks, conv: Conv, target: HostObject): Result<seq<Entry>> {
    match h.replacer(conv.cls, ClassName(Inst(target)), Inst(target))
    case Ignored => Err(ClassCastException)
    case Keep(v) =>
      if v.Null? then Err(NullPointerException)
      else if v == Inst(target) then Ok([])
      else if IsJson(v) then Ok(v.entries)
      else Err(ClassCastException)
  }

  /** The loop of unload from field i on, with `acc` the Json's members so far. */
  function UnloadFrom(h: Hooks, conv: Conv, target: HostObject, fields: seq<FieldRef>, i: nat,
                      acc: seq<Entry>, depth: nat): Result<JVal>
    requires depth > 0 && i <= |fields|
    decreases depth, 0, |fields| - i
  {
    if i == |fields| then Ok(Map(JsonMap, acc))
    else
      var name := FieldName(target.chain, fields[i]);
      if name in conv.ignored then UnloadFrom(h, conv, target, fields, i + 1, acc, depth)
      else match h.replacer(conv.cls, name, Slot(target, fields[i]))
        case Ignored => UnloadFrom(h, conv, target, fields, i + 1, acc, depth)
        case Keep(v) =>
          var value :- Unloading(h, v, depth);
          UnloadFrom(h, conv, target, fields, i + 1, Put(acc, Str(name), value), depth)
  }

  /** The member value for a replacer answer v: a JsonObject unloads itself. */
  function Unloading(h: Hooks, v: JVal, depth: nat): Result<JVal>
    requires depth > 0
    decreases depth, 0, 0
  {
    if v.Inst? && InstanceOf(v.obj, JSON_OBJECT) then Unloaded(h, ConvOf(v.obj), v.obj, depth - 1)
    else Ok(v)
  }

  /** `unload(thisObj, targetObj)`, the method. */
  method Unload(h: Hooks, conv: Conv, target: HostObject, depth: nat) returns (r: Result<JVal>)
    ensures r == Unloaded(h, conv, target, depth)
    decreases depth, 1
  {
    if depth == 0 {
      return Err(StackOverflowError);
    }
    var members :- Start(h, conv, target);
    var fields := GetAccessibleFields(target);
    r := UnloadFields(h, conv, target, fields, members, depth);
  }

  /** The loop of unload over the given fields, into a Json holding `members`. */
  method UnloadFields(h: Hooks, conv: Conv, target: HostObject, fields: seq<FieldRef>,
                      members: seq<Entry>, depth: nat) returns (r: Result<JVal>)
    requires depth > 0 && NamedMembers(members)
    ensures r == UnloadFrom(h, conv, target, fields, 0, members, depth)
    decreases depth, 0
  {
    var json := new JsonClass.Json();
    json.members := members;
    ghost var spec := UnloadFrom(h, conv, target, fields, 0, members, depth);
    for i := 0 to |fields|
      invariant json.Valid()
      invariant UnloadFrom(h, conv, target, fields, i, json.members, depth) == spec
    {
      UnloadFromNext(h, conv, target, fields, i, json.members, depth);
      var name := FieldName(target.chain, fields[i]);
      if name !in conv.ignored {
        var reply := h.replacer(conv.cls, name, Slot(target, fields[i]));
        if reply.Keep? {
          var value := reply.v;
          if value.Inst? && InstanceOf(value.obj, JSON_OBJECT) {
            var nested := Unload(h, ConvOf(value.obj), value.obj, depth - 1);
            if nested.Err? {
              assert spec == nested;
              return nested;
            }
            value := nested.value;
          }
          json.Set(Str(name), value);
        }
      }
    }
    return Ok(Map(JsonMap, json.members));
  }

  lemma UnloadFromNext(h: Hooks, conv: Conv, target: HostObject, fields: seq<FieldRef>, i: nat,
                       acc: seq<Entry>, depth: nat)
    requires depth > 0 && i < |fields|
    ensures var name := FieldName(target.chain, fields[i]);
      var reply := h.replacer(conv.cls, name, Slot(target, fields[i]));
      UnloadFrom(h, conv, target, fields, i, acc, depth) ==
        if name in conv.ignored || reply.Ignored? then UnloadFrom(h, conv, target, fields, i + 1, acc, depth)
        else match Unloading(h, reply.v, depth)
          case Err(e) => Err(e)
          case Ok(value) => UnloadFrom(h, conv, target, fields, i + 1, Put(acc, Str(name), value), depth)
  {
  }

  /** The names unload writes for the given fields, in order: those not on the
      ignore list whose replacer answer is not IGNORED. */
  ghost function Kept(h: Hooks, conv: Conv, target: HostObject, fields: seq<FieldRef>): seq<JVal> {
    if fields == [] then []
    else
      var name := FieldName(target.chain, fields[0]);
      (if name !in conv.ignored && h.replacer(conv.cls, name, Slot(target, fields[0])).Keep?
       then [Str(name)] else [])
      + Kept(h, conv, target, fields[1..])
  }

  lemma {:induction false} UnloadFromKeys(h: Hooks, conv: Conv, target: HostObject, fields: seq<FieldRef>,
                                          i: nat, acc: seq<Entry>, depth: nat)
    requires depth > 0 && i <= |fields| && UnloadFrom(h, conv, target, fields, i, acc, depth).Ok?
    requires UniqueKeys(acc)
    requires forall m | i <= m < |fields| :: !HasKey(acc, Str(FieldName(target.chain, fields[m])))
    requires forall m, m' | i <= m < m' < |fields| ::
      FieldName(target.chain, fields[m]) != FieldName(target.chain, fields[m'])
    ensures var r := UnloadFrom(h, conv, target, fields, i, acc, depth).value;
      r.Map? && r.cls == JsonMap && Keys(r.entries) == Keys(acc) + Kept(h, conv, target, fields[i..])
    decreases |fields| - i
  {
    if i == |fields| {
      assert fields[i..] == [];
    } else {
      var acc' := UnloadStep(h, conv, target, fields, i, acc, depth);
      UnloadFromKeys(h, conv, target, fields, i + 1, acc', depth);
    }
  }

  /** One field of unload: the members after it, and the names it adds. */
  lemma UnloadStep(h: Hooks, conv: Conv, target: HostObject, fields: seq<FieldRef>,
                   i: nat, acc: seq<Entry>, depth: nat) returns (acc': seq<Entry>)
    requires depth > 0 && i < |fields| && UnloadFrom(h, conv, target, fields, i, acc, depth).Ok?
    requires UniqueKeys(acc)
    requires forall m | i <= m < |fields| :: !HasKey(acc, Str(FieldName(target.chain, fields[m])))
    requires forall m, m' | i <= m < m' < |fields| ::
      FieldName(target.chain, fields[m]) != FieldName(target.chain, fields[m'])
    ensures UnloadFrom(h, conv, target, fields, i, acc, depth) == UnloadFrom(h, conv, target, fields, i + 1, acc', depth)
    ensures Keys(acc) + Kept(h, conv, target, fields[i..]) == Keys(acc') + Kept(h, conv, target, fields[i + 1..])
    ensures UniqueKeys(acc')
    ensures forall m | i + 1 <= m < |fields| :: !HasKey(acc', Str(FieldName(target.chain, fields[m])))
  {
    var name := FieldName(target.chain, fields[i]);
    var reply := h.replacer(conv.cls, name, Slot(target, fields[i]));
    KeptStep(h, conv, target, fields, i);
    UnloadFromNext(h, conv, target, fields, i, acc, depth);
    if name in conv.ignored || reply.Ignored? {
      acc' := acc;
    } else {
      var value := Unloading(h, reply.v, depth).value;
      acc' := Put(acc, Str(name), value);
      PutField(acc, value, target.chain, fields, i, Kept(h, conv, target, fields[i + 1..]));
    }
  }

  /** The names kept from field i on: field i's own, when it is kept, and then the rest. */
  lemma KeptStep(h: Hooks, conv: Conv, target: HostObject, fields: seq<FieldRef>, i: nat)
    requires i < |fields|
    ensures var name := FieldName(target.chain, fields[i]);
      Kept(h, conv, target, fields[i..])
      == (if name !in conv.ignored && h.replacer(conv.cls, name, Slot(target, fields[i])).Keep? then [Str(name)] else [])
         + Kept(h, conv, target, fields[i + 1..])
  {
    assert fields[i..][1..] == fields[i + 1..];
  }

  /** Putting field i's member into a map that holds none of the distinct names
      of fields i.. leaves it holding none of the names after i. */
  lemma PutField(acc: seq<Entry>, value: JVal, chain: seq<ClassDesc>, fields: seq<FieldRef>, i: nat, rest: seq<JVal>)
    requires i < |fields| && UniqueKeys(acc)
    requires forall m | i <= m < |fields| :: !HasKey(acc, Str(FieldName(chain, fields[m])))
    requires forall m, m' | i <= m < m' < |fields| :: FieldName(chain, fields[m]) != FieldName(chain, fields[m'])
    ensures var acc' := Put(acc, Str(FieldName(chain, fields[i])), value);
      UniqueKeys(acc') && Keys(acc) + ([Str(FieldName(chain, fields[i]))] + rest) == Keys(acc') + rest
    ensures var acc' := Put(acc, Str(FieldName(chain, fields[i])), value);
      forall m | i + 1 <= m < |fields| :: !HasKey(acc', Str(FieldName(chain, fields[m])))
  {
    var name := FieldName(chain, fields[i]);
    PutFresh(acc, name, value, rest);
    forall m | i + 1 <= m < |fields| ensures !HasKey(Put(acc, Str(name), value), Str(FieldName(chain, fields[m]))) {
      PutOther(acc, name, value, FieldName(chain, fields[m]));
    }
  }

  lemma PutFresh(acc: seq<Entry>, name: Text, value: JVal, rest: seq<JVal>)
    requires UniqueKeys(acc) && !HasKey(acc, Str(name))
    ensures UniqueKeys(Put(acc, Str(name), value))
    ensures Keys(acc) + ([Str(name)] + rest) == Keys(Put(acc, Str(name), value)) + rest
  {
    PutAbsent(acc, Str(name), value);
    Associative(Keys(acc), [Str(name)], rest);
  }

  lemma Associative(a: seq<JVal>, b: seq<JVal>, c: seq<JVal>)
    ensures a + (b + c) == (a + b) + c
  {
  }

  lemma PutOther(acc: seq<Entry>, name: Text, value: JVal, other: Text)
    requires UniqueKeys(acc) && !HasKey(acc, Str(name)) && !HasKey(acc, Str(other)) && other != name
    ensures !HasKey(Put(acc, Str(name), value), Str(other))
  {
    PutAbsent(acc, Str(name), value);
    LookupHasKey(acc, Str(other));
    LookupHasKey(Put(acc, Str(name), value), Str(other));
  }

  /** Unloading into a fresh Json writes exactly the accessible fields that are
      neither on the ignore list nor answered IGNORED by the replacer, in walk
      order and under their own names. */
  lemma UnloadKeys(h: Hooks, conv: Conv, target: HostObject, depth: nat)
    requires Unloaded(h, conv, target, depth).Ok?
    requires h.replacer(conv.cls, ClassName(Inst(target)), Inst(target)) == Keep(Inst(target))
    ensures var r := Unloaded(h, conv, target, depth).value;
      r.Map? && r.cls == JsonMap && Keys(r.entries) == Kept(h, conv, target, AccessibleFields(target))
  {
    var fields := AccessibleFields(target);
    AccessibleNames(target.chain, Admits(Package(target)));
    UnloadFromKeys(h, conv, target, fields, 0, [], depth);
    assert fields[0..] == fields;
  }

  /** Unloading into a fresh Json stores, under the name of each accessible field
      that is not ignored and whose replacer answer v is not IGNORED, the member
      value v unloads to: a nested JsonObject's own unload, or v itself. */
  lemma UnloadValues(h: Hooks, conv: Conv, target: HostObject, depth: nat, m: nat)
    requires Unloaded(h, conv, target, depth).Ok?
    requires h.replacer(conv.cls, ClassName(Inst(target)), Inst(target)) == Keep(Inst(target))
    requires m < |AccessibleFields(target)|
    requires var f := AccessibleFields(target)[m]; var name := FieldName(target.chain, f);
      name !in conv.ignored && h.replacer(conv.cls, name, Slot(target, f)).Keep?
    ensures var f := AccessibleFields(target)[m]; var name := FieldName(target.chain, f);
      var v := h.replacer(conv.cls, name, Slot(target, f)).v;
      var r := Unloaded(h, conv, target, depth).value;
      depth > 0 && Unloading(h, v, depth).Ok? && r.Map? && Lookup(r.entries, Str(name)) == Some(Unloading(h, v, depth).value)
  {
    var fields := AccessibleFields(target);
    AccessibleNames(target.chain, Admits(Package(target)));
    UnloadFromValue(h, conv, target, fields, 0, [], depth, m);
  }

  /** The walk from field i on stores field m's unloaded value under its name,
      when the names of fields i.. are distinct and none is in `acc` yet. */
  lemma {:induction false} UnloadFromValue(h: Hooks, conv: Conv, target: HostObject, fields: seq<FieldRef>,
                                           i: nat, acc: seq<Entry>, depth: nat, m: nat)
    requires depth > 0 && i <= m < |fields| && UnloadFrom(h, conv, target, fields, i, acc, depth).Ok?
    requires UniqueKeys(acc)
    requires forall n | i <= n < |fields| :: !HasKey(acc, Str(FieldName(target.chain, fields[n])))
    requires forall n, n' | i <= n < n' < |fields| ::
      FieldName(target.chain, fields[n]) != FieldName(target.chain, fields[n'])
    requires var name := FieldName(target.chain, fields[m]);
      name !in conv.ignored && h.replacer(conv.cls, name, Slot(target, fields[m])).Keep?
    ensures var name := FieldName(target.chain, fields[m]);
      var v := h.replacer(conv.cls, name, Slot(target, fields[m])).v;
      var r := UnloadFrom(h, conv, target, fields, i, acc, depth).value;
      Unloading(h, v, depth).Ok? && r.Map? && Lookup(r.entries, Str(name)) == Some(Unloading(h, v, depth).value)
    decreases m - i
  {
    if i == m {
      var name := FieldName(target.chain, fields[i]);
      var v := h.replacer(conv.cls, name, Slot(target, fields[i])).v;
      UnloadFromNext(h, conv, target, fields, i, acc, depth);
      var value := Unloading(h, v, depth).value;
      var acc' := Put(acc, Str(name), value);
      PutField(acc, value, target.chain, fields, i, []);
      PutAbsent(acc, Str(name), value);
      UnloadFromKeeps(h, conv, target, fields, i + 1, acc', depth, Str(name));
    } else {
      var acc' := UnloadStep(h, conv, target, fields, i, acc, depth);
      UnloadFromValue(h, conv, target, fields, i + 1, acc', depth, m);
    }
  }

  /** The walk from field i on leaves alone a member no later field is named after. */
  lemma {:induction false} UnloadFromKeeps(h: Hooks, conv: Conv, target: HostObject, fields: seq<FieldRef>,
                                           i: nat, acc: seq<Entry>, depth: nat, k: JVal)
    requires depth > 0 && i <= |fields| && UnloadFrom(h, conv, target, fields, i, acc, depth).Ok?
    requires UniqueKeys(acc)
    requires forall n | i <= n < |fields| :: Str(FieldName(target.chain, fields[n])) != k
    ensures var r := UnloadFrom(h, conv, target, fields, i, acc, depth).value;
      r.Map? && Lookup(r.entries, k) == Lookup(acc, k)
    decreases |fields| - i
  {
    if i < |fields| {
      var name := FieldName(target.chain, fields[i]);
      var reply := h.replacer(conv.cls, name, Slot(target, fields[i]));
      UnloadFromNext(h, conv, target, fields, i, acc, depth);
      if name in conv.ignored || reply.Ignored? {
        UnloadFromKeeps(h, conv, target, fields, i + 1, acc, depth, k);
      } else {
        var value := Unloading(h, reply.v, depth).value;
        PutSemantics(acc, Str(name), value);
        UnloadFromKeeps(h, conv, target, fields, i + 1, Put(acc, Str(name), value), depth, k);
      }
    }
  }
  /** A name on the ignore list never appears in a fresh unload. */
  lemma UnloadOmitsIgnored(h: Hooks, conv: Conv, target: HostObject, depth: nat, name: Text)
    requires Unloaded(h, conv, target, depth).Ok?
    requires h.replacer(conv.cls, ClassName(Inst(target)), Inst(target)) == Keep(Inst(target))
    requires name in conv.ignored
    ensures var u := Unloaded(h, conv, target, depth).value; u.Map? && !HasKey(u.entries, Str(name))
  {
    UnloadKeys(h, conv, target, depth);
    KeptOmits(h, conv, target, AccessibleFields(target), name);
    KeysHasKey(Unloaded(h, conv, target, depth).value.entries, Str(name));
  }

  /** An accessible field the replacer answers IGNORED for never appears in a
      fresh unload. */
  lemma UnloadOmitsReplaced(h: Hooks, conv: Conv, target: HostObject, depth: nat, r: FieldRef)
    requires Unloaded(h, conv, target, depth).Ok?
    requires h.replacer(conv.cls, ClassName(Inst(target)), Inst(target)) == Keep(Inst(target))
    requires r in AccessibleFields(target)
    requires h.replacer(conv.cls, FieldName(target.chain, r), Slot(target, r)).Ignored?
    ensures var u := Unloaded(h, conv, target, depth).value;
      u.Map? && !HasKey(u.entries, Str(FieldName(target.chain, r)))
  {
    var fields := AccessibleFields(target);
    var name := FieldName(target.chain, r);
    UnloadKeys(h, conv, target, depth);
    AccessibleNames(target.chain, Admits(Package(target)));
    var m0 :| 0 <= m0 < |fields| && fields[m0] == r;
    forall m | 0 <= m < |fields| && FieldName(target.chain, fields[m]) == name
      ensures name in conv.ignored || h.replacer(conv.cls, name, Slot(target, fields[m])).Ignored?
    {
      assert !(m < m0) && !(m0 < m);
    }
    KeptOmits(h, conv, target, fields, name);
    KeysHasKey(Unloaded(h, conv, target, depth).value.entries, Str(name));
  }

  lemma {:induction false} KeptOmits(h: Hooks, conv: Conv, target: HostObject, fields: seq<FieldRef>, name: Text)
    requires forall m | 0 <= m < |fields| && FieldName(target.chain, fields[m]) == name ::
      name in conv.ignored || h.replacer(conv.cls, name, Slot(target, fields[m])).Ignored?
    ensures Str(name) !in Kept(h, conv, target, fields)
  {
    if fields != [] {
      KeptOmits(h, conv, target, fields[1..], name);
    }
  }

  lemma KeysHasKey(es: seq<Entry>, k: JVal)
    ensures HasKey(es, k) <==> k in Keys(es)
  {
    if k in Keys(es) {
      var i :| 0 <= i < |Keys(es)| && Keys(es)[i] == k;
      assert es[i].key == k;
    }
  }

  // ---------------------------------------------------------------- load

  /** `load(thisObj, targetObj, json)` with `depth` stack frames left: the
      reviver's answer for the class; a Json answer is walked over the
      accessible fields of the target, any other answer (IGNORED and null
      included) leaves the target as it is. */
  function Loaded(h: Hooks, conv: Conv, target: HostObject, json: JVal, depth: nat): Result<HostObject>
    decreases depth, 1
  {
    if depth == 0 then Err(StackOverflowError)
    else match h.reviver(conv.cls, ClassName(Inst(target)), json)
      case Keep(v) =>
        if IsJson(v) then LoadFrom(h, conv, target, AccessibleFields(target), 0, v.entries, false, depth)
        else Ok(target)
      case Ignored => Ok(target)
  }

  /** The loop of load from field i on, over the members `es` of the Json.
      With `skipFinal` (ObjectConverter's load) a final field is never
      assigned; this class's own walk never meets one. */
  function LoadFrom(h: Hooks, conv: Conv, obj: HostObject, fields: seq<FieldRef>, i: nat,
                    es: seq<Entry>, skipFinal: bool, depth: nat): Result<HostObject>
    requires depth > 0 && i <= |fields|
    decreases depth, 0, |fields| - i + 3
  {
    if i == |fields| then Ok(obj)
    else
      var f := fields[i];
      var slot :- FieldOutcome(h, conv, obj, f, es, skipFinal, depth);
      var obj' := if slot.Some? then SetSlot(obj, f, slot.value) else obj;
      LoadFrom(h, conv, obj', fields, i + 1, es, skipFinal, depth)
  }

  /** What load writes into field f of obj: always a value of the field's declared type. */
  function FieldOutcome(h: Hooks, conv: Conv, obj: HostObject, f: FieldRef, es: seq<Entry>,
                        skipFinal: bool, depth: nat): (r: Result<Option<JVal>>)
    requires depth > 0
    ensures r.Ok? && r.value.Some? ==> JSONAdapter.Assignable(r.value.value, FieldType(obj.chain, f))
    decreases depth, 0, 2
  {
    NewSlot(h, conv, FieldName(obj.chain, f), FieldType(obj.chain, f), Slot(obj, f), Writable(obj.chain, f, skipFinal), es, depth)
  }

  predicate Writable(chain: seq<ClassDesc>, f: FieldRef, skipFinal: bool) {
    !(skipFinal && Final in FieldModifiers(chain, f))
  }

  /** What load writes into the field `name` of declared type `ftype` holding
      `value`: nothing (None) when the name is ignored, absent from the Json or
      revived to IGNORED, or the field may not be written; otherwise what
      `field.set` stores of the revived member, or its IllegalArgumentException. */
  function NewSlot(h: Hooks, conv: Conv, name: Text, ftype: JType, value: JVal, writable: bool, es: seq<Entry>, depth: nat)
    : (r: Result<Option<JVal>>)
    requires depth > 0
    ensures r.Ok? && r.value.Some? ==> JSONAdapter.Assignable(r.value.value, ftype)
    ensures r.Ok? && r.value.Some? ==> writable && !(name in conv.ignored) && HasKey(es, Str(name))
    decreases depth, 0, 1
  {
    if name in conv.ignored || !HasKey(es, Str(name)) then Ok(None)
    else match h.reviver(conv.cls, name, JsonClass.Member(es, Str(name)))
      case Ignored => Ok(None)
      case Keep(nv) =>
        if !writable then Ok(None)
        else
          var v :- Revived(h, value, nv, depth);
          var stored :- FieldSet(ftype, v);
          Ok(Some(stored))
  }

  /** The new value of a field holding `value` for the revived member nv: a
      JsonObject loads itself (and stays the same object), anything else is
      `JsonAdapter.cast(nv, value)`. */
  function Revived(h: Hooks, value: JVal, nv: JVal, depth: nat): Result<JVal>
    requires depth > 0
    decreases depth, 0, 0
  {
    if value.Inst? && InstanceOf(value.obj, JSON_OBJECT) then
      var o :- Loaded(h, ConvOf(value.obj), value.obj, nv, depth - 1);
      Ok(Inst(o))
    else JSONAdapter.CastBySample(nv, value)
  }

  /** `load(thisObj, targetObj, json)`, the method: the target's fields are set
      one by one. */
  method Load(h: Hooks, conv: Conv, target: HostObject, json: JVal, depth: nat) returns (r: Result<HostObject>)
    ensures r == Loaded(h, conv, target, json, depth)
    decreases depth, 1
  {
    if depth == 0 {
      return Err(StackOverflowError);
    }
    var answer := h.reviver(conv.cls, ClassName(Inst(target)), json);
    if !answer.Keep? || !IsJson(answer.v) {
      return Ok(target);
    }
    var fields := GetAccessibleFields(target);
    r := LoadFields(h, conv, target, fields, answer.v.entries, false, depth);
  }

  /** The loop of load over the given fields, from the members of a Json. */
  method LoadFields(h: Hooks, conv: Conv, target: HostObject, fields: seq<FieldRef>,
                    members: seq<Entry>, skipFinal: bool, depth: nat) returns (r: Result<HostObject>)
    requires depth > 0
    ensures r == LoadFrom(h, conv, target, fields, 0, members, skipFinal, depth)
    decreases depth, 0, 3
  {
    var json := new JsonClass.Json();
    json.members := members;
    ghost var spec := LoadFrom(h, conv, target, fields, 0, members, skipFinal, depth);
    var obj := target;
    for i := 0 to |fields|
      invariant json.members == members
      invariant LoadFrom(h, conv, obj, fields, i, members, skipFinal, depth) == spec
    {
      var f := fields[i];
      var slot := LoadMember(h, conv, obj, f, FieldType(obj.chain, f), Writable(obj.chain, f, skipFinal), json, depth);
      if slot.Err? {
        return Err(slot.error);
      }
      if slot.value.Some? {
        obj := SetSlot(obj, f, slot.value.value);
      }
    }
    return Ok(obj);
  }

  /** One field of the load loop. */
  method LoadMember(h: Hooks, conv: Conv, obj: HostObject, f: FieldRef, ftype: JType, writable: bool,
                    json: JsonClass.Json, depth: nat) returns (r: Result<Option<JVal>>)
    requires depth > 0
    ensures r == NewSlot(h, conv, FieldName(obj.chain, f), ftype, Slot(obj, f), writable, json.members, depth)
    decreases depth, 0, 1
  {
    var name := FieldName(obj.chain, f);
    if name in conv.ignored {
      return Ok(None);
    }
    var present := json.Exists(Str(name), []);
    if present != Ok(true) {
      return Ok(None);
    }
    var member := json.Get(Str(name), []);
    var newValue := h.reviver(conv.cls, name, member.value);
    if !writable || newValue.Ignored? {
      return Ok(None);
    }
    var value := Slot(obj, f);
    if value.Inst? && InstanceOf(value.obj, JSON_OBJECT) {
      var loaded := Load(h, ConvOf(value.obj), value.obj, newValue.v, depth - 1);
      if loaded.Err? {
        return Err(loaded.error);
      }
      var stored := FieldSet(ftype, Inst(loaded.value));
      if stored.Err? {
        return Err(stored.error);
      }
      return Ok(Some(stored.value));
    }
    var cast: Result<JVal>;
    if value.Null? {
      cast := Ok(Null);
    } else {
      cast := JSONAdapter.CastByClass(newValue.v, Some(JSONAdapter.ClassOf(value)));
    }
    if cast.Err? {
      return Err(cast.error);
    }
    var stored := FieldSet(ftype, cast.value);
    if stored.Err? {
      return Err(stored.error);
    }
    return Ok(Some(stored.value));
  }

  /** What the load loop from field i on does to the object: the chain and the
      ignore list stay, a field outside the walk keeps its value, a walked field
      gets what NewSlot computes from its value before the walk. */
  lemma {:induction false} LoadFromSlots(h: Hooks, conv: Conv, obj: HostObject, fields: seq<FieldRef>, i: nat,
                                         es: seq<Entry>, skipFinal: bool, depth: nat)
    requires depth > 0 && i <= |fields| && LoadFrom(h, conv, obj, fields, i, es, skipFinal, depth).Ok?
    requires WellShaped(obj) && ValidRefs(obj.chain, fields)
    requires forall m, m' | i <= m < m' < |fields| :: fields[m] != fields[m']
    ensures var r := LoadFrom(h, conv, obj, fields, i, es, skipFinal, depth).value;
      && r.chain == obj.chain && r.ignored == obj.ignored && WellShaped(r)
      && (forall q | q !in fields[i..] :: Slot(r, q) == Slot(obj, q))
      && (forall m | i <= m < |fields| ::
            var s := FieldOutcome(h, conv, obj, fields[m], es, skipFinal, depth);
            s.Ok? && Slot(r, fields[m]) == if s.value.Some? then s.value.value else Slot(obj, fields[m]))
    decreases |fields| - i
  {
    if i < |fields| {
      var f := fields[i];
      var slot := FieldOutcome(h, conv, obj, f, es, skipFinal, depth).value;
      var obj' := if slot.Some? then SetSlot(obj, f, slot.value) else obj;
      forall q ensures Slot(obj', q) == if q == f && slot.Some? then slot.value else Slot(obj, q) {
        if slot.Some? {
          SlotAfterSet(obj, f, slot.value, q);
        }
      }
      forall m | i < m < |fields|
        ensures FieldOutcome(h, conv, obj', fields[m], es, skipFinal, depth)
             == FieldOutcome(h, conv, obj, fields[m], es, skipFinal, depth)
      {
        assert Slot(obj', fields[m]) == Slot(obj, fields[m]);
      }
      LoadFromSlots(h, conv, obj', fields, i + 1, es, skipFinal, depth);
      assert fields[i..] == [f] + fields[i + 1..];
    }
  }

  /** What a successful load does to each field of the target. When the
      reviver's answer for the class is not a Json, the target comes back as it
      is; otherwise a field outside the accessible ones keeps its value and an
      accessible one gets what NewSlot computes for it. */
  lemma LoadedFields(h: Hooks, conv: Conv, target: HostObject, json: JVal, depth: nat, q: FieldRef)
    requires WellShaped(target) && Loaded(h, conv, target, json, depth).Ok?
    ensures var r := Loaded(h, conv, target, json, depth).value;
      var answer := h.reviver(conv.cls, ClassName(Inst(target)), json);
      && r.chain == target.chain && r.ignored == target.ignored && WellShaped(r)
      && (!(answer.Keep? && IsJson(answer.v)) ==> r == target)
      && (q !in AccessibleFields(target) ==> Slot(r, q) == Slot(target, q))
      && (answer.Keep? && IsJson(answer.v) && q in AccessibleFields(target) ==>
            var s := FieldOutcome(h, conv, target, q, answer.v.entries, false, depth);
            s.Ok? && Slot(r, q) == if s.value.Some? then s.value.value else Slot(target, q))
  {
    var answer := h.reviver(conv.cls, ClassName(Inst(target)), json);
    if answer.Keep? && IsJson(answer.v) {
      var fields := AccessibleFields(target);
      AccessibleNames(target.chain, Admits(Package(target)));
      forall m, m' | 0 <= m < m' < |fields| ensures fields[m] != fields[m'] {
        assert Earlier(fields[m], fields[m']);
      }
      LoadFromSlots(h, conv, target, fields, 0, answer.v.entries, false, depth);
      assert fields[0..] == fields;
      if q in fields {
        var m :| 0 <= m < |fields| && fields[m] == q;
      }
    }
  }

  /** Load changes a field only when the reviver's answer for the class is a
      Json, the field is accessible, its name is neither ignored nor absent
      from that Json, and the reviver keeps the member. */
  lemma LoadChanges(h: Hooks, conv: Conv, target: HostObject, json: JVal, depth: nat, q: FieldRef)
    requires WellShaped(target) && Loaded(h, conv, target, json, depth).Ok?
    requires Slot(Loaded(h, conv, target, json, depth).value, q) != Slot(target, q)
    ensures var answer := h.reviver(conv.cls, ClassName(Inst(target)), json);
      var name := FieldName(target.chain, q);
      && answer.Keep? && IsJson(answer.v) && q in AccessibleFields(target)
      && name !in conv.ignored && HasKey(answer.v.entries, Str(name))
      && h.reviver(conv.cls, name, JsonClass.Member(answer.v.entries, Str(name))).Keep?
  {
    LoadedFields(h, conv, target, json, depth, q);
  }

  /** A field that holds null is never loaded: `JsonAdapter.cast(v, null)` is
      null whatever the member. */
  lemma LoadKeepsNull(h: Hooks, conv: Conv, target: HostObject, json: JVal, depth: nat, q: FieldRef)
    requires WellShaped(target) && Loaded(h, conv, target, json, depth).Ok?
    requires Slot(target, q) == Null
    ensures Slot(Loaded(h, conv, target, json, depth).value, q) == Null
  {
    LoadedFields(h, conv, target, json, depth, q);
    var answer := h.reviver(conv.cls, ClassName(Inst(target)), json);
    if answer.Keep? && IsJson(answer.v) && q in AccessibleFields(target) {
      var name := FieldName(target.chain, q);
      var es := answer.v.entries;
      if name !in conv.ignored && HasKey(es, Str(name)) {
        var reply := h.reviver(conv.cls, name, JsonClass.Member(es, Str(name)));
        if reply.Keep? {
          assert Revived(h, Null, reply.v, depth) == Ok(Null);
        }
      }
    }
  }

  // ---------------------------------------------------------------- castMember

  /** `castMember(memberName, jsonObj, sample)`: the member cast by the sample
      when the Json has it, the sample itself otherwise. */
  function MemberCast(es: seq<Entry>, name: Text, sample: JVal): (r: Result<JVal>)
    ensures !HasKey(es, Str(name)) ==> r == Ok(sample)
    ensures sample.Null? ==> r == Ok(Null)
  {
    if HasKey(es, Str(name)) then JSONAdapter.CastBySample(JsonClass.Member(es, Str(name)), sample)
    else Ok(sample)
  }

  method CastMember(name: Text, json: JsonClass.Json, sample: JVal) returns (r: Result<JVal>)
    ensures r == MemberCast(json.members, name, sample)
  {
    var present := json.Exists(Str(name), []);
    if present == Ok(true) {
      var member := json.Get(Str(name), []);
      if sample.Null? {
        return Ok(Null);
      }
      r := JSONAdapter.CastByClass(member.value, Some(JSONAdapter.ClassOf(sample)));
    } else {
      r := Ok(sample);
    }
  }

  /** A member that already has the sample's class comes back unchanged. */
  lemma MemberCastConforming(es: seq<Entry>, name: Text, sample: JVal)
    requires !sample.Null? && HasKey(es, Str(name))
    requires JSONAdapter.Conforms(JsonClass.Member(es, Str(name)), JSONAdapter.ClassOf(sample))
    ensures MemberCast(es, name, sample) == Ok(JsonClass.Member(es, Str(name)))
  {
    JSONAdapter.CastConforming(JsonClass.Member(es, Str(name)), JSONAdapter.ClassOf(sample));
  }

  // ---------------------------------------------------------------- the ignore list

  /** The state every AbstractObject carries: the name of its runtime class (the
      first argument its replacer and reviver see) and its ignore list, a
      HashSet of field names. */
  class Converter {
    const cls: Text
    var ignoredFields: set<Text>

    constructor (cls: Text)
      ensures this.cls == cls && ignoredFields == {}
    {
      this.cls := cls;
      ignoredFields := {};
    }

    /** The converter as the walks see it. */
    function AsConv(): (c: Conv)
      reads this
      ensures c.cls == cls && c.ignored == ignoredFields
    {
      Conv(cls, ignoredFields)
    }

    /** `isIgnored(fldName)`. */
    predicate IsIgnored(name: Text)
      reads this
    {
      name in ignoredFields
    }

    /** `setIgnored(fldNames)`: clear, then add. */
    method SetIgnored(names: seq<Text>)
      modifies this
      ensures ignoredFields == set n | n in names
      ensures forall n :: IsIgnored(n) <==> n in names
    {
      ignoredFields := {};
      AddIgnored(names);
    }

    /** `addIgnored(fldNames)`: `Collections.addAll`, one name at a time. */
    method AddIgnored(names: seq<Text>)
      modifies this
      ensures ignoredFields == old(ignoredFields) + set n | n in names
    {
      for i := 0 to |names|
        invariant ignoredFields == old(ignoredFields) + set n | n in names[..i]
      {
        assert names[..i + 1] == names[..i] + [names[i]];
        ignoredFields := ignoredFields + {names[i]};
      }
      assert names[..|names|] == names;
    }

    /** `getIgnored()`: `toArray` of the set, each name once, in no promised
        order. */
    method GetIgnored() returns (names: seq<Text>)
      ensures (set n | n in names) == ignoredFields
      ensures forall i, j | 0 <= i < j < |names| :: names[i] != names[j]
    {
      names := [];
      var rest := ignoredFields;
      while rest != {}
        invariant rest !! (set n | n in names)
        invariant rest + (set n | n in names) == ignoredFields
        invariant forall i, j | 0 <= i < j < |names| :: names[i] != names[j]
        decreases rest
      {
        var n :| n in rest;
        names := names + [n];
        rest := rest - {n};
      }
    }
  }
}
