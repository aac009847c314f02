/**
 * The part of .NET reflection the stub generator reads: types, their methods,
 * properties and events, and the interfaces each one extends.
 *
 * A loaded assembly is a sequence of type descriptions, and a type is named by
 * its index in that sequence. Equality of these descriptions is structural and
 * stands for the identity of `MethodInfo` and `PropertyInfo` objects; like
 * those, a method and a property carry the type that declares them, so that
 * `IThing.get_X` and `IReadOnlyThing.get_X` are two methods even when their
 * signatures agree.
 */
module Reflection {
  import opened Wrappers

  /** A type as it appears in a member signature. */
  datatype TypeRef = Void | Named(fullName: string)

  /** A method as `Type.GetMethods` reports it: its declaring type and its signature. */
  datatype MethodInfo = MethodInfo(declaringType: nat, name: string, returnType: TypeRef, paramTypes: seq<TypeRef>)

  /** A property; `GetGetMethod` / `GetSetMethod` answer `null` (`None`) for a missing accessor. */
  datatype Property = Property(
    declaringType: nat,
    name: string,
    propertyType: TypeRef,
    getter: Option<MethodInfo>,
    setter: Option<MethodInfo>)

  datatype Event = Event(name: string, handlerType: TypeRef)

  /**
   * One type of an assembly. `namespace` is `None` for the global namespace
   * (`Type.Namespace == null`); `interfaces` are the indices of the interfaces
   * the type directly extends. (`Type.GetInterfaces` also lists the indirect
   * ones; in this model the recursion follows direct bases only.)
   */
  datatype TypeDesc = TypeDesc(
    name: string,
    namespace: Option<string>,
    isInterface: bool,
    methods: seq<MethodInfo>,
    properties: seq<Property>,
    events: seq<Event>,
    interfaces: seq<nat>)

  /** Every type extends only types listed before it, so inheritance has no cycle. */
  predicate Acyclic(h: seq<TypeDesc>)
  {
    forall i, k :: 0 <= i < |h| && 0 <= k < |h[i].interfaces| ==> h[i].interfaces[k] < i
  }

  /** The accessor methods of a property: its getter and its setter, when present. */
  function Accessors(p: Property): set<MethodInfo>
  {
    (if p.getter.Some? then {p.getter.value} else {}) + (if p.setter.Some? then {p.setter.value} else {})
  }

  /** The accessor methods of all the given properties. */
  function AccessorsOf(ps: set<Property>): set<MethodInfo>
  {
    set p, m | p in ps && m in Accessors(p) :: m
  }

  /** `Type.GetMethods` of an interface lists the accessors of its own properties. */
  predicate AccessorsDeclared(h: seq<TypeDesc>)
  {
    forall i, p, m :: 0 <= i < |h| && p in h[i].properties && m in Accessors(p) ==> m in h[i].methods
  }

  /** A type's own methods and properties are declared by that type. */
  predicate DeclaredWhereListed(h: seq<TypeDesc>)
  {
    && (forall i, m :: 0 <= i < |h| && m in h[i].methods ==> m.declaringType == i)
    && (forall i, p :: 0 <= i < |h| && p in h[i].properties ==> p.declaringType == i)
  }

  /** Two different properties of one type never share an accessor method. */
  predicate AccessorsUnsharedWithinType(h: seq<TypeDesc>)
  {
    forall i, p, q :: 0 <= i < |h| && p in h[i].properties && q in h[i].properties && p != q
                      ==> Accessors(p) !! Accessors(q)
  }

  /** A property's getter and setter are different methods (`get_X` and `set_X`). */
  predicate GetterIsNotSetter(p: Property)
  {
    p.getter.Some? && p.setter.Some? ==> p.getter.value != p.setter.value
  }

  /** What the CLR and the C# compiler guarantee of the reflected types the generator is handed. */
  predicate WellFormed(h: seq<TypeDesc>)
  {
    && Acyclic(h)
    && AccessorsDeclared(h)
    && DeclaredWhereListed(h)
    && AccessorsUnsharedWithinType(h)
    && (forall i, p :: 0 <= i < |h| && p in h[i].properties ==> GetterIsNotSetter(p))
  }

  /** Different properties share no accessor, and no property's getter is its setter. */
  predicate AccessorsDisjoint(ps: set<Property>)
  {
    && (forall p, q :: p in ps && q in ps && p != q ==> Accessors(p) !! Accessors(q))
    && (forall p :: p in ps ==> GetterIsNotSetter(p))
  }

  /**
   * Across the whole assembly, different properties share no accessor: within
   * one type by the rules of the language, across types because an accessor
   * belongs to the type that declares its property.
   */
  lemma AccessorsUnshared(h: seq<TypeDesc>, i: nat, j: nat, p: Property, q: Property)
    requires WellFormed(h) && i < |h| && j < |h|
    requires p in h[i].properties && q in h[j].properties && p != q
    ensures Accessors(p) !! Accessors(q)
  {
    if i != j {
      forall m | m in Accessors(p)
        ensures m !in Accessors(q)
      {
        assert m in h[i].methods && m.declaringType == i;
      }
    }
  }

  /** A chain of direct inheritance steps, each one from a type to an interface it extends. */
  ghost predicate IsChain(h: seq<TypeDesc>, c: seq<nat>)
  {
    && |c| > 0
    && (forall k :: 0 <= k < |c| ==> c[k] < |h|)
    && (forall k :: 0 < k < |c| ==> c[k] in h[c[k - 1]].interfaces)
  }

  /** Type `j` is type `i` itself or an interface `i` extends, directly or not. */
  ghost predicate Inherits(h: seq<TypeDesc>, i: nat, j: nat)
  {
    exists c :: IsChain(h, c) && c[0] == i && c[|c| - 1] == j
  }
}
