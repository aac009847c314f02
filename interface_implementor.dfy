/**
 * CreateTypeFor: the stub type synthesised for one interface, as a plan of
 * fields and methods instead of the Reflection.Emit calls that build it.
 *
 * The plan keeps what the emitted type contains: its full name, one private
 * backing field per property, a getter that returns the field, a setter that
 * stores into it, a body returning the default value for every other method,
 * and for each generated method the interface method it overrides. Every plan
 * also has a public parameterless constructor that only calls `object()`.
 */
module InterfaceImplementor {
  import opened Wrappers
  import opened Reflection
  import opened Collections
  import opened Flattening

  // ---------------------------------------------------------------- naming

  /** `name.StartsWith("I")`. */
  predicate StartsWithMarker(name: string)
  {
    |name| > 0 && name[0] == 'I'
  }

  /** The name with one leading 'I' removed, whatever follows it. */
  function StripMarker(name: string): string
  {
    if StartsWithMarker(name) then name[1..] else name
  }

  /** The simple name of the stub: "Mock_" and the interface name without its marker. */
  function MockName(name: string): string
  {
    "Mock_" + StripMarker(name)
  }

  /** In C# a `null` namespace concatenates as the empty string. */
  function NamespaceText(ns: Option<string>): string
  {
    match ns
    case None => ""
    case Some(s) => s
  }

  /** `type.Namespace + ".Mocks." + name`. */
  function FullMockName(t: TypeDesc): string
  {
    NamespaceText(t.namespace) + ".Mocks." + MockName(t.name)
  }

  /**
   * The full stub name is the namespace, ".Mocks.Mock_", and the interface name
   * short of one leading 'I': both the namespace and the interface name can be
   * read back from it.
   */
  lemma FullMockNameRoundTrip(t: TypeDesc)
    ensures var r, n := FullMockName(t), |NamespaceText(t.namespace)|;
            && |r| == n + 12 + |t.name| - (if StartsWithMarker(t.name) then 1 else 0)
            && r[..n] == NamespaceText(t.namespace)
            && r[n..n + 12] == ".Mocks.Mock_"
            && t.name == (if StartsWithMarker(t.name) then "I" else "") + r[n + 12..]
  {
    var r, n := FullMockName(t), |NamespaceText(t.namespace)|;
    var stripped := StripMarker(t.name);
    assert r == NamespaceText(t.namespace) + ".Mocks.Mock_" + stripped;
    assert r[n + 12..] == stripped;
    assert t.name == (if StartsWithMarker(t.name) then "I" else "") + stripped;
  }

  lemma WidgetStubName()
    ensures FullMockName(TypeDesc("IWidget", Some("Acme"), true, [], [], [], [])) == "Acme.Mocks.Mock_Widget"
    ensures FullMockName(TypeDesc("IWidget", None, true, [], [], [], [])) == ".Mocks.Mock_Widget"
  {
    assert StripMarker("IWidget") == "Widget";
  }

  /** Exactly one leading 'I' is removed, whatever character follows it. */
  lemma MarkerStrippedOnce()
    ensures MockName("Repository") == "Mock_Repository"
    ensures MockName("IIdentity") == "Mock_Identity"
    ensures MockName("Item") == "Mock_tem"
  {
    assert StripMarker("IIdentity") == "Identity";
    assert StripMarker("Item") == "tem";
  }

  /** An interface "IX" and an interface "X" of one namespace get the same stub name. */
  lemma MarkedAndUnmarkedNamesCollide(a: TypeDesc, b: TypeDesc)
    requires a.namespace == b.namespace && a.name == "I" + b.name && !StartsWithMarker(b.name)
    ensures FullMockName(a) == FullMockName(b)
  {
    assert StartsWithMarker(a.name) && a.name[1..] == b.name;
  }

  // -------------------------------------------------------- classification

  /** The methods left after every property's getter and setter is removed from the set. */
  function PlainMethods(methods: set<MethodInfo>, properties: set<Property>): set<MethodInfo>
  {
    methods - AccessorsOf(properties)
  }

  /**
   * The flattened methods split into the plain methods and the accessors of the
   * flattened properties: disjoint, and together all of them.
   */
  lemma PlainMethodsPartitionFlattened(h: seq<TypeDesc>, t: nat)
    requires Acyclic(h) && AccessorsDeclared(h) && t < |h|
    ensures var methods, properties := FlattenedMethods(h, t), FlattenedProperties(h, t);
            && PlainMethods(methods, properties) !! AccessorsOf(properties)
            && PlainMethods(methods, properties) + AccessorsOf(properties) == methods
            && forall p, m :: p in properties && m in Accessors(p) ==> m !in PlainMethods(methods, properties)
  {
    FlattenedAccessorsAreMethods(h, t);
  }

  lemma AccessorsOfInsert(ps: set<Property>, p: Property)
    ensures AccessorsOf(ps + {p}) == AccessorsOf(ps) + Accessors(p)
  {
  }

  // ------------------------------------------------------------------- plan

  /**
   * A private field of the stub. Each `DefineField` call makes a field of its
   * own, so a field records the property it backs as well as its name and type:
   * two properties named alike still have two fields.
   */
  datatype Field = Field(owner: Property, name: string, fieldType: TypeRef)

  /** The instructions of a generated method. */
  datatype Body =
    | LoadField(field: Field)    // ldarg.0; ldfld field; ret
    | StoreValue(field: Field)   // ldarg.0; ldarg value; stfld field; ret
    | ReturnDefault(t: TypeRef)  // an uninitialised local of type t is loaded and returned
    | ReturnNothing              // ret

  /** A public virtual method of the stub and the interface method it is bound to override. */
  datatype Member = Member(
    name: string,
    returnType: TypeRef,
    paramTypes: seq<TypeRef>,
    body: Body,
    overrides: MethodInfo)

  datatype Plan = Plan(typeName: string, implements: nat, fields: seq<Field>, members: seq<Member>)

  /** The exception raised for a type that is not an interface; it records that type. */
  datatype TypeIsNotAnInterface = TypeIsNotAnInterface(offending: TypeDesc)

  /** The generated method `m` has the name, return type and parameter types of `g`. */
  predicate SameSignature(m: Member, g: MethodInfo)
  {
    m.name == g.name && m.returnType == g.returnType && m.paramTypes == g.paramTypes
  }

  /** `"_" + property.Name`, of the property's type. */
  function BackingField(p: Property): Field
  {
    Field(p, "_" + p.name, p.propertyType)
  }

  /** The getter the source declares: the property's type, and no parameters. */
  function GetterAsWritten(p: Property, g: MethodInfo): Member
  {
    Member(g.name, p.propertyType, [], LoadField(BackingField(p)), g)
  }

  /** The setter the source declares: void, and one parameter of the property's type. */
  function SetterAsWritten(p: Property, s: MethodInfo): Member
  {
    Member(s.name, Void, [p.propertyType], StoreValue(BackingField(p)), s)
  }

  /** The getter declared with the signature of the interface getter it overrides. */
  function Getter(p: Property, g: MethodInfo): Member
  {
    Member(g.name, g.returnType, g.paramTypes, LoadField(BackingField(p)), g)
  }

  /** The setter declared with the signature of the interface setter it overrides. */
  function Setter(p: Property, s: MethodInfo): Member
  {
    Member(s.name, s.returnType, s.paramTypes, StoreValue(BackingField(p)), s)
  }

  /** Getter first, then setter; a missing accessor generates nothing. */
  function PropertyMembers(p: Property): seq<Member>
  {
    (if p.getter.Some? then [Getter(p, p.getter.value)] else [])
    + (if p.setter.Some? then [Setter(p, p.setter.value)] else [])
  }

  function DefaultBody(t: TypeRef): Body
  {
    if t != Void then ReturnDefault(t) else ReturnNothing
  }

  function DefaultMember(m: MethodInfo): Member
  {
    Member(m.name, m.returnType, m.paramTypes, DefaultBody(m.returnType), m)
  }

  /** The fields defined while visiting the properties in the order `ps`. */
  function FieldsFor(ps: seq<Property>): seq<Field>
  {
    if ps == [] then [] else FieldsFor(ps[..|ps| - 1]) + [BackingField(ps[|ps| - 1])]
  }

  /** The accessor methods defined while visiting the properties in the order `ps`. */
  function AccessorMembersFor(ps: seq<Property>): seq<Member>
  {
    if ps == [] then [] else AccessorMembersFor(ps[..|ps| - 1]) + PropertyMembers(ps[|ps| - 1])
  }

  /** The default methods defined while visiting the plain methods in the order `ms`. */
  function DefaultMembersFor(ms: seq<MethodInfo>): seq<Member>
  {
    if ms == [] then [] else DefaultMembersFor(ms[..|ms| - 1]) + [DefaultMember(ms[|ms| - 1])]
  }

  /** The interface methods the generated methods override, in order of definition. */
  function Targets(ms: seq<Member>): seq<MethodInfo>
  {
    if ms == [] then [] else Targets(ms[..|ms| - 1]) + [ms[|ms| - 1].overrides]
  }

  /** Visiting one more property extends the enumeration, the fields and the accessors. */
  lemma PropertyVisited(po: seq<Property>, done: set<Property>, p: Property)
    requires Enumerates(po, done) && p !in done
    ensures Enumerates(po + [p], done + {p})
    ensures FieldsFor(po + [p]) == FieldsFor(po) + [BackingField(p)]
    ensures AccessorMembersFor(po + [p]) == AccessorMembersFor(po) + PropertyMembers(p)
    ensures AccessorsOf(done + {p}) == AccessorsOf(done) + Accessors(p)
  {
    assert (po + [p])[..|po|] == po;
    assert SetOf(po + [p]) == SetOf(po) + {p};
    DistinctAppend(po, [p]);
    AccessorsOfInsert(done, p);
  }

  /** Implementing one more plain method extends the enumeration and the default methods. */
  lemma MethodImplemented(mo: seq<MethodInfo>, done: set<MethodInfo>, m: MethodInfo)
    requires Enumerates(mo, done) && m !in done
    ensures Enumerates(mo + [m], done + {m})
    ensures DefaultMembersFor(mo + [m]) == DefaultMembersFor(mo) + [DefaultMember(m)]
  {
    assert (mo + [m])[..|mo|] == mo;
    assert SetOf(mo + [m]) == SetOf(mo) + {m};
    DistinctAppend(mo, [m]);
  }

  // ----------------------------------------------------- what a plan holds

  lemma {:induction false} FieldsForAt(ps: seq<Property>)
    ensures |FieldsFor(ps)| == |ps|
    ensures forall k :: 0 <= k < |ps| ==> FieldsFor(ps)[k] == BackingField(ps[k])
  {
    if ps != [] {
      FieldsForAt(ps[..|ps| - 1]);
    }
  }

  /**
   * One private field per distinct property, whatever the visiting order:
   * as many fields as properties, each property's `"_" + Name` field among
   * them, and no field that belongs to no property.
   */
  lemma OneFieldPerProperty(order: seq<Property>, properties: set<Property>)
    requires Enumerates(order, properties)
    ensures |FieldsFor(order)| == |properties|
    ensures forall p :: p in properties ==> BackingField(p) in FieldsFor(order)
    ensures forall f :: f in FieldsFor(order) ==> exists p :: p in properties && f == BackingField(p)
    ensures Distinct(FieldsFor(order))
  {
    FieldsForAt(order);
    DistinctCardinality(order);
    forall a, b | 0 <= a < b < |order|
      ensures FieldsFor(order)[a] != FieldsFor(order)[b]
    {
      assert FieldsFor(order)[a].owner == order[a];
    }
    forall p | p in properties
      ensures BackingField(p) in FieldsFor(order)
    {
      var k :| 0 <= k < |order| && order[k] == p;
      assert FieldsFor(order)[k] == BackingField(p);
    }
    forall f | f in FieldsFor(order)
      ensures exists p :: p in properties && f == BackingField(p)
    {
      var k :| 0 <= k < |FieldsFor(order)| && FieldsFor(order)[k] == f;
      assert order[k] in properties;
    }
  }

  lemma {:induction false} TargetsAppend(a: seq<Member>, b: seq<Member>)
    ensures Targets(a + b) == Targets(a) + Targets(b)
    decreases |b|
  {
    if b == [] {
      assert a + b == a;
    } else {
      var b' := b[..|b| - 1];
      assert (a + b)[..|a + b| - 1] == a + b';
      TargetsAppend(a, b');
    }
  }

  /** The default methods override exactly the plain methods, in the order they were visited. */
  lemma {:induction false} DefaultTargets(order: seq<MethodInfo>)
    ensures Targets(DefaultMembersFor(order)) == order
  {
    if order != [] {
      var init := order[..|order| - 1];
      DefaultTargets(init);
      TargetsAppend(DefaultMembersFor(init), [DefaultMember(order[|order| - 1])]);
      assert Targets([DefaultMember(order[|order| - 1])]) == [order[|order| - 1]];
    }
  }

  /** The accessor methods of one property override its getter and its setter, each once. */
  lemma PropertyTargets(p: Property)
    requires GetterIsNotSetter(p)
    ensures Distinct(Targets(PropertyMembers(p)))
    ensures SetOf(Targets(PropertyMembers(p))) == Accessors(p)
  {
    var g := if p.getter.Some? then [Getter(p, p.getter.value)] else [];
    var s := if p.setter.Some? then [Setter(p, p.setter.value)] else [];
    TargetsAppend(g, s);
    assert Targets(g) == (if p.getter.Some? then [p.getter.value] else []);
    assert Targets(s) == (if p.setter.Some? then [p.setter.value] else []);
  }

  lemma AccessorsOfDisjointFromNew(ps: set<Property>, p: Property)
    requires AccessorsDisjoint(ps + {p}) && p !in ps
    ensures AccessorsOf(ps) !! Accessors(p)
  {
  }

  lemma SetOfAppend<T>(a: seq<T>, b: seq<T>)
    ensures SetOf(a + b) == SetOf(a) + SetOf(b)
  {
  }

  /** Properties that share no accessor have their accessors overridden exactly once each. */
  lemma {:induction false} AccessorTargets(order: seq<Property>)
    requires Distinct(order) && AccessorsDisjoint(SetOf(order))
    ensures Distinct(Targets(AccessorMembersFor(order)))
    ensures SetOf(Targets(AccessorMembersFor(order))) == AccessorsOf(SetOf(order))
  {
    if order != [] {
      var init, p := order[..|order| - 1], order[|order| - 1];
      assert order == init + [p];
      SetOfAppend(init, [p]);
      assert SetOf(order) == SetOf(init) + {p};
      assert Distinct(init);
      assert AccessorsDisjoint(SetOf(init));
      AccessorTargets(init);
      assert p !in SetOf(init);
      var a, b := Targets(AccessorMembersFor(init)), Targets(PropertyMembers(p));
      PropertyTargets(p);
      TargetsAppend(AccessorMembersFor(init), PropertyMembers(p));
      SetOfAppend(a, b);
      AccessorsOfInsert(SetOf(init), p);
      AccessorsOfDisjointFromNew(SetOf(init), p);
      DistinctAppend(a, b);
    }
  }

  /**
   * Every method of the flattened interface, accessor or not, is overridden by
   * exactly one generated method, and nothing else is overridden.
   */
  lemma EveryMethodImplementedOnce(
    h: seq<TypeDesc>, t: nat, propertyOrder: seq<Property>, methodOrder: seq<MethodInfo>)
    requires WellFormed(h) && t < |h|
    requires Enumerates(propertyOrder, FlattenedProperties(h, t))
    requires Enumerates(methodOrder, PlainMethods(FlattenedMethods(h, t), FlattenedProperties(h, t)))
    ensures var targets := Targets(AccessorMembersFor(propertyOrder) + DefaultMembersFor(methodOrder));
            Distinct(targets) && SetOf(targets) == FlattenedMethods(h, t)
  {
    FlattenedAccessorsUnshared(h, t);
    assert AccessorsDisjoint(SetOf(propertyOrder));
    PlainMethodsPartitionFlattened(h, t);
    AccessorTargets(propertyOrder);
    DefaultTargets(methodOrder);
    TargetsAppend(AccessorMembersFor(propertyOrder), DefaultMembersFor(methodOrder));
    DistinctAppend(Targets(AccessorMembersFor(propertyOrder)), methodOrder);
  }

  const ReadOnlyGetX := MethodInfo(0, "get_X", Named("System.Int32"), [])
  const GetX := MethodInfo(1, "get_X", Named("System.Int32"), [])
  const SetX := MethodInfo(1, "set_X", Void, [Named("System.Int32")])
  const ReadOnlyX := Property(0, "X", Named("System.Int32"), Some(ReadOnlyGetX), None)
  const HidingX := Property(1, "X", Named("System.Int32"), Some(GetX), Some(SetX))

  /** `IReadOnlyThing { int X { get; } }` and `IThing : IReadOnlyThing { new int X { get; set; } }`. */
  function Hiding(): seq<TypeDesc>
  {
    [ TypeDesc("IReadOnlyThing", Some("Acme"), true, [ReadOnlyGetX], [ReadOnlyX], [], []),
      TypeDesc("IThing", Some("Acme"), true, [GetX, SetX], [HidingX], [], [0]) ]
  }

  /** Each interface of `Hiding()` declares its own methods and properties, accessors included. */
  lemma HidingDeclaresItsMembers()
    ensures AccessorsDeclared(Hiding()) && DeclaredWhereListed(Hiding())
  {
    var h := Hiding();
    assert h[0].properties == [ReadOnlyX] && h[1].properties == [HidingX];
    assert Accessors(ReadOnlyX) == {ReadOnlyGetX};
    assert Accessors(HidingX) == {GetX, SetX};
  }

  /** The hierarchy of a property hidden with `new` is a legal one. */
  lemma HidingIsWellFormed()
    ensures WellFormed(Hiding())
  {
    HidingDeclaresItsMembers();
    assert GetX.name[0] != SetX.name[0];
  }

  /**
   * A property hidden with `new` keeps its own getter: both `get_X` methods of
   * `IThing` are flattened, next to both properties.
   */
  lemma HiddenPropertyKeepsItsGetter()
    ensures FlattenedProperties(Hiding(), 1) == {ReadOnlyX, HidingX}
    ensures FlattenedMethods(Hiding(), 1) == {ReadOnlyGetX, GetX, SetX}
  {
    var h := Hiding();
    assert Collect(h, 0, DeclaredMethods) == [ReadOnlyGetX];
    assert Collect(h, 0, DeclaredProperties) == [ReadOnlyX];
    assert RecursiveGetMethods(h, 1) == [GetX, SetX, ReadOnlyGetX];
    assert RecursiveGetProperties(h, 1) == [HidingX, ReadOnlyX];
  }

  /** All three methods of `IThing` are accessors, so none is left for a default body. */
  lemma HidingLeavesNoPlainMethod()
    ensures PlainMethods(FlattenedMethods(Hiding(), 1), FlattenedProperties(Hiding(), 1)) == {}
  {
    HiddenPropertyKeepsItsGetter();
    assert AccessorsOf({}) == {};
    AccessorsOfInsert({}, ReadOnlyX);
    assert {} + {ReadOnlyX} == {ReadOnlyX};
    AccessorsOfInsert({ReadOnlyX}, HidingX);
    assert {ReadOnlyX} + {HidingX} == {ReadOnlyX, HidingX};
    assert Accessors(ReadOnlyX) == {ReadOnlyGetX};
    assert Accessors(HidingX) == {GetX, SetX};
  }

  /** Each of the two getters is overridden once, by the accessor generated for its own property. */
  lemma HiddenPropertyAccessorTargets()
    ensures Targets(AccessorMembersFor([ReadOnlyX, HidingX])) == [ReadOnlyGetX, GetX, SetX]
  {
    var ro, rw := PropertyMembers(ReadOnlyX), PropertyMembers(HidingX);
    assert [ReadOnlyX, HidingX][..1] == [ReadOnlyX];
    assert AccessorMembersFor([ReadOnlyX]) == AccessorMembersFor([]) + ro;
    assert AccessorMembersFor([ReadOnlyX, HidingX]) == ro + rw;
    TargetsAppend(ro, rw);
    PropertyTargets(ReadOnlyX);
    assert Targets(ro) == [ReadOnlyGetX];
    var g, st := Getter(HidingX, GetX), Setter(HidingX, SetX);
    assert rw == [g, st] && [g, st][..1] == [g];
    assert Targets(rw) == [GetX, SetX];
  }

  /** Each generated method is declared with the name, return type and parameter types of the method it overrides. */
  lemma {:induction false} MembersMatchTheirTargets(propertyOrder: seq<Property>, methodOrder: seq<MethodInfo>)
    ensures forall m :: m in AccessorMembersFor(propertyOrder) + DefaultMembersFor(methodOrder)
                        ==> SameSignature(m, m.overrides)
  {
    AccessorMembersMatch(propertyOrder);
    DefaultMembersMatch(methodOrder);
  }

  lemma {:induction false} AccessorMembersMatch(order: seq<Property>)
    ensures forall m :: m in AccessorMembersFor(order) ==> SameSignature(m, m.overrides)
  {
    if order != [] {
      AccessorMembersMatch(order[..|order| - 1]);
    }
  }

  lemma {:induction false} DefaultMembersForAt(order: seq<MethodInfo>)
    ensures |DefaultMembersFor(order)| == |order|
    ensures forall k :: 0 <= k < |order| ==> DefaultMembersFor(order)[k] == DefaultMember(order[k])
  {
    if order != [] {
      DefaultMembersForAt(order[..|order| - 1]);
    }
  }

  lemma {:induction false} DefaultMembersMatch(order: seq<MethodInfo>)
    ensures forall m :: m in DefaultMembersFor(order) ==> SameSignature(m, m.overrides)
  {
    if order != [] {
      DefaultMembersMatch(order[..|order| - 1]);
    }
  }

  /**
   * The accessor methods are those of the visited properties and no others:
   * a getter for each property that has one, a setter for each that has one.
   */
  lemma {:induction false} AccessorMembersCover(order: seq<Property>, m: Member)
    ensures m in AccessorMembersFor(order) <==> exists p :: p in order && m in PropertyMembers(p)
  {
    if order != [] {
      var init, last := order[..|order| - 1], order[|order| - 1];
      AccessorMembersCover(init, m);
      assert forall p :: p in init ==> p in order;
      if exists p :: p in order && m in PropertyMembers(p) {
        var p :| p in order && m in PropertyMembers(p);
        if p != last {
          var k :| 0 <= k < |order| && order[k] == p;
          assert init[k] == p;
        }
      }
    }
  }

  // ---------------------------------------------- accessor signatures as written

  const IndexerGetter := MethodInfo(0, "get_Item", Named("System.Int32"), [Named("System.Int32")])
  const IndexerSetter := MethodInfo(0, "set_Item", Void, [Named("System.Int32"), Named("System.Int32")])
  /** `int this[int index] { get; set; }` */
  const Indexer := Property(0, "Item", Named("System.Int32"), Some(IndexerGetter), Some(IndexerSetter))

  /**
   * As written, an indexer's accessors are declared without the index
   * parameter, so neither matches the interface accessor it is bound to.
   */
  lemma IndexerAccessorsMismatchAsWritten()
    ensures !SameSignature(GetterAsWritten(Indexer, IndexerGetter), IndexerGetter)
    ensures !SameSignature(SetterAsWritten(Indexer, IndexerSetter), IndexerSetter)
    ensures SameSignature(Getter(Indexer, IndexerGetter), IndexerGetter)
    ensures SameSignature(Setter(Indexer, IndexerSetter), IndexerSetter)
  {
  }

  /**
   * The getter as written matches the interface getter exactly when that getter
   * returns the property's type and takes no parameters, and then it is the
   * corrected getter: the correction changes nothing for ordinary properties.
   */
  lemma GetterAsWrittenMatchesIff(p: Property, g: MethodInfo)
    ensures SameSignature(GetterAsWritten(p, g), g) <==> g.returnType == p.propertyType && g.paramTypes == []
    ensures SameSignature(GetterAsWritten(p, g), g) ==> GetterAsWritten(p, g) == Getter(p, g)
  {
  }

  /** Likewise for the setter: it matches exactly when it is `void` with one parameter of the property's type. */
  lemma SetterAsWrittenMatchesIff(p: Property, s: MethodInfo)
    ensures SameSignature(SetterAsWritten(p, s), s) <==> s.returnType == Void && s.paramTypes == [p.propertyType]
    ensures SameSignature(SetterAsWritten(p, s), s) ==> SetterAsWritten(p, s) == Setter(p, s)
  {
  }

  // --------------------------------------------------------- CreateTypeFor

  /**
   * The body of the `foreach` over the properties, for one property: its
   * private backing field, then a getter and a setter wherever the interface
   * has one, each taken out of `methods` so that it gets no default body.
   */
  method DefineProperty(propertyInfo: Property, fields: seq<Field>, members: seq<Member>, methods: set<MethodInfo>)
    returns (fields': seq<Field>, members': seq<Member>, methods': set<MethodInfo>)
    ensures fields' == fields + [BackingField(propertyInfo)]
    ensures members' == members + PropertyMembers(propertyInfo)
    ensures methods' == methods - Accessors(propertyInfo)
  {
    var field := Field(propertyInfo, "_" + propertyInfo.name, propertyInfo.propertyType);
    fields' := fields + [field];
    members', methods' := members, methods;
    if propertyInfo.getter.Some? {
      var getMethod := propertyInfo.getter.value;
      methods' := methods' - {getMethod};
      members' := members' + [Member(getMethod.name, getMethod.returnType, getMethod.paramTypes, LoadField(field), getMethod)];
    }
    ghost var membersAfterGetter, methodsAfterGetter := members', methods';
    if propertyInfo.setter.Some? {
      var setMethod := propertyInfo.setter.value;
      methods' := methods' - {setMethod};
      members' := members' + [Member(setMethod.name, setMethod.returnType, setMethod.paramTypes, StoreValue(field), setMethod)];
    }
    assert methodsAfterGetter == methods - (if propertyInfo.getter.Some? then {propertyInfo.getter.value} else {});
    assert membersAfterGetter == members + (if propertyInfo.getter.Some? then [Getter(propertyInfo, propertyInfo.getter.value)] else []);
  }

  /** The `foreach` over the properties, with every property visited once in some order. */
  method DefinePropertyMembers(properties: set<Property>, methods: set<MethodInfo>)
    returns (fields: seq<Field>, members: seq<Member>, remaining: set<MethodInfo>, ghost order: seq<Property>)
    ensures Enumerates(order, properties)
    ensures fields == FieldsFor(order)
    ensures members == AccessorMembersFor(order)
    ensures remaining == PlainMethods(methods, properties)
  {
    fields, members, remaining, order := [], [], methods, [];
    var unvisited := properties;
    while unvisited != {}
      invariant unvisited <= properties
      invariant Enumerates(order, properties - unvisited)
      invariant remaining == methods - AccessorsOf(properties - unvisited)
      invariant fields == FieldsFor(order)
      invariant members == AccessorMembersFor(order)
      decreases unvisited
    {
      var propertyInfo :| propertyInfo in unvisited;
      fields, members, remaining := DefineProperty(propertyInfo, fields, members, remaining);
      PropertyVisited(order, properties - unvisited, propertyInfo);
      assert properties - (unvisited - {propertyInfo}) == (properties - unvisited) + {propertyInfo};
      unvisited := unvisited - {propertyInfo};
      order := order + [propertyInfo];
    }
  }

  /**
   * The `foreach` over the remaining methods: a public virtual method with the
   * same name, return type and parameter types, whose body returns nothing
   * for `void` and an uninitialised local otherwise, bound to the interface method.
   */
  method DefineDefaultMembers(methods: set<MethodInfo>) returns (members: seq<Member>, ghost order: seq<MethodInfo>)
    ensures Enumerates(order, methods)
    ensures members == DefaultMembersFor(order)
    ensures |members| == |methods|
    ensures forall m :: m in methods ==> DefaultMember(m) in members
    ensures forall m :: m in members ==> m.overrides in methods && SameSignature(m, m.overrides)
  {
    members, order := [], [];
    var unimplemented := methods;
    while unimplemented != {}
      invariant unimplemented <= methods
      invariant Enumerates(order, methods - unimplemented)
      invariant members == DefaultMembersFor(order)
      decreases unimplemented
    {
      var methodInfo :| methodInfo in unimplemented;
      var returnType := methodInfo.returnType;
      var argumentTypes: seq<TypeRef> := [];
      for k := 0 to |methodInfo.paramTypes|
        invariant argumentTypes == methodInfo.paramTypes[..k]
      {
        argumentTypes := argumentTypes + [methodInfo.paramTypes[k]];
      }
      var body := ReturnNothing;
      if returnType != Void {
        body := ReturnDefault(returnType);
      }
      assert argumentTypes == methodInfo.paramTypes;
      members := members + [Member(methodInfo.name, returnType, argumentTypes, body, methodInfo)];
      MethodImplemented(order, methods - unimplemented, methodInfo);
      assert methods - (unimplemented - {methodInfo}) == (methods - unimplemented) + {methodInfo};
      unimplemented := unimplemented - {methodInfo};
      order := order + [methodInfo];
    }
    DistinctCardinality(order);
    DefaultMembersForAt(order);
    forall m | m in methods
      ensures DefaultMember(m) in members
    {
      var k :| 0 <= k < |order| && order[k] == m;
      assert members[k] == DefaultMember(m);
    }
  }

  /**
   * The type builder's work for one type. The two `HashSet`s are walked in an
   * unspecified order; `propertyOrder` and `methodOrder` are the orders this
   * run took, and the plan is determined by them.
   */
  method CreateTypeFor(h: seq<TypeDesc>, t: nat)
    returns (r: Result<Plan, TypeIsNotAnInterface>, ghost propertyOrder: seq<Property>, ghost methodOrder: seq<MethodInfo>)
    requires Acyclic(h) && t < |h|
    ensures r.Failure? <==> !h[t].isInterface
    ensures r.Failure? ==> r.error == TypeIsNotAnInterface(h[t])
    ensures r.Success? ==>
      && r.value.typeName == FullMockName(h[t])
      && r.value.implements == t
      && Enumerates(propertyOrder, FlattenedProperties(h, t))
      && Enumerates(methodOrder, PlainMethods(FlattenedMethods(h, t), FlattenedProperties(h, t)))
      && r.value.fields == FieldsFor(propertyOrder)
      && r.value.members == AccessorMembersFor(propertyOrder) + DefaultMembersFor(methodOrder)
  {
    var iface := h[t];
    if !iface.isInterface {
      return Failure(TypeIsNotAnInterface(iface)), [], [];
    }

    var name := iface.name;
    if |name| > 0 && name[0] == 'I' {
      name := name[1..];
    }
    name := "Mock_" + name;
    name := NamespaceText(iface.namespace) + ".Mocks." + name;

    var methods := SetOf(RecursiveGetMethods(h, t));
    var properties := SetOf(RecursiveGetProperties(h, t));
    // The events set is filled from the properties, as in the source.
    var events := SetOf(RecursiveGetProperties(h, t));

    var fields, accessors, plain;
    fields, accessors, plain, propertyOrder := DefinePropertyMembers(properties, methods);
    var defaults;
    defaults, methodOrder := DefineDefaultMembers(plain);

    // Events are visited and nothing is generated for them.
    var eventsLeft := events;
    while eventsLeft != {}
      decreases eventsLeft
    {
      var eventInfo :| eventInfo in eventsLeft;
      eventsLeft := eventsLeft - {eventInfo};
    }

    r := Success(Plan(name, t, fields, accessors + defaults));
  }
}
