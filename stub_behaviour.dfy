/**
 * What the emitted stub does when it runs: the constructor leaves every field
 * at its type's default value, a getter returns its backing field, a setter
 * overwrites it with the value passed, and every other method returns nothing
 * or its return type's default value, changing no field.
 */
module StubBehaviour {
  import opened Wrappers
  import opened Reflection
  import opened InterfaceImplementor

  /** A run-time value; `Default(t)` is the zero value the CLR gives a fresh field or local of type `t`. */
  datatype Value = Default(t: TypeRef) | Supplied(token: int)

  /** The fields of one stub object. */
  type Instance = map<Field, Value>

  /** What a call returns (`None` for `void`) and the object's fields afterwards. */
  datatype Outcome = Outcome(returned: Option<Value>, state: Instance)

  /** `new Mock_X()`: the constructor only calls `object()`, so every field holds its default. */
  function NewInstance(plan: Plan): Instance
  {
    map f | f in plan.fields :: Default(f.fieldType)
  }

  /** Runs a generated method; the value a setter stores is its last argument. */
  function Invoke(m: Member, obj: Instance, args: seq<Value>): Outcome
    requires |args| == |m.paramTypes|
    requires m.body.LoadField? ==> m.body.field in obj
    requires m.body.StoreValue? ==> |args| > 0
  {
    match m.body
    case LoadField(f) => Outcome(Some(obj[f]), obj)
    case StoreValue(f) => Outcome(None, obj[f := args[|args| - 1]])
    case ReturnDefault(t) => Outcome(Some(Default(t)), obj)
    case ReturnNothing => Outcome(None, obj)
  }

  /** A getter returns the current value of its property's field and changes nothing. */
  lemma GetterReadsField(p: Property, g: MethodInfo, obj: Instance, args: seq<Value>)
    requires |args| == |g.paramTypes| && BackingField(p) in obj
    ensures Invoke(Getter(p, g), obj, args) == Outcome(Some(obj[BackingField(p)]), obj)
  {
  }

  /** A setter returns nothing and overwrites its property's field, and only that field. */
  lemma SetterWritesOnlyItsField(p: Property, s: MethodInfo, obj: Instance, args: seq<Value>)
    requires |args| == |s.paramTypes| > 0
    ensures var after := Invoke(Setter(p, s), obj, args);
            && after.returned == None
            && BackingField(p) in after.state
            && after.state[BackingField(p)] == args[|args| - 1]
            && (forall f :: f != BackingField(p) ==> (f in after.state <==> f in obj))
            && (forall f :: f in obj && f != BackingField(p) ==> after.state[f] == obj[f])
  {
  }

  /** The backing field is a plain cell: a get after a set returns the value that was set. */
  lemma GetAfterSet(p: Property, obj: Instance, setArgs: seq<Value>, getArgs: seq<Value>)
    requires p.getter.Some? && p.setter.Some?
    requires |setArgs| == |p.setter.value.paramTypes| > 0
    requires |getArgs| == |p.getter.value.paramTypes|
    ensures var stored := Invoke(Setter(p, p.setter.value), obj, setArgs).state;
            && BackingField(p) in stored
            && Invoke(Getter(p, p.getter.value), stored, getArgs).returned == Some(setArgs[|setArgs| - 1])
  {
  }

  /**
   * A setter leaves the field of every other property as it was, even one with
   * the same name and type: each property has a field of its own.
   */
  lemma SetterLeavesOtherPropertiesAlone(p: Property, q: Property, s: MethodInfo, obj: Instance, args: seq<Value>)
    requires p != q && |args| == |s.paramTypes| > 0 && BackingField(q) in obj
    ensures BackingField(p) != BackingField(q)
    ensures var after := Invoke(Setter(p, s), obj, args).state;
            BackingField(q) in after && after[BackingField(q)] == obj[BackingField(q)]
  {
    assert BackingField(p).owner != BackingField(q).owner;
  }

  /**
   * Setting `IThing.X` leaves `IReadOnlyThing.X`, the property it hides, at the
   * value it had, although both fields are named `_X`.
   */
  lemma HiddenPropertyStateIsSeparate(obj: Instance, v: Value)
    requires BackingField(ReadOnlyX) in obj
    ensures BackingField(ReadOnlyX).name == BackingField(HidingX).name
    ensures var after := Invoke(Setter(HidingX, SetX), obj, [v]).state;
            && BackingField(ReadOnlyX) in after
            && Invoke(Getter(HidingX, GetX), after, []).returned == Some(v)
            && Invoke(Getter(ReadOnlyX, ReadOnlyGetX), after, []).returned == Some(obj[BackingField(ReadOnlyX)])
  {
    SetterLeavesOtherPropertiesAlone(HidingX, ReadOnlyX, SetX, obj, [v]);
  }

  /** A default method returns nothing for `void`, the default of its return type otherwise, and changes nothing. */
  lemma DefaultMethodIsInert(m: MethodInfo, obj: Instance, args: seq<Value>)
    requires |args| == |m.paramTypes|
    ensures Invoke(DefaultMember(m), obj, args)
         == Outcome(if m.returnType == Void then None else Some(Default(m.returnType)), obj)
  {
  }

  /** Every field a generated accessor reads or writes is a field the plan defines. */
  lemma AccessorsUseDefinedFields(order: seq<Property>, m: Member)
    requires m in AccessorMembersFor(order)
    ensures m.body.LoadField? || m.body.StoreValue?
    ensures m.body.field in FieldsFor(order)
  {
    AccessorMembersCover(order, m);
    var p :| p in order && m in PropertyMembers(p);
    var k :| 0 <= k < |order| && order[k] == p;
    FieldsForAt(order);
    assert FieldsFor(order)[k] == BackingField(p);
  }

  /** On a new stub, every getter returns its property type's default value. */
  lemma FreshStubReadsDefaults(plan: Plan, order: seq<Property>, p: Property, args: seq<Value>)
    requires plan.fields == FieldsFor(order) && p in order && p.getter.Some?
    requires |args| == |p.getter.value.paramTypes|
    ensures BackingField(p) in NewInstance(plan)
    ensures Invoke(Getter(p, p.getter.value), NewInstance(plan), args).returned == Some(Default(p.propertyType))
  {
    var k :| 0 <= k < |order| && order[k] == p;
    FieldsForAt(order);
    assert plan.fields[k] == BackingField(p);
  }
}
