/**
 * RecursiveGetMethods, RecursiveGetProperties and RecursiveGetEvents: the
 * members an interface declares, followed by everything each of the interfaces
 * it extends yields, recursively. The three walk the hierarchy in the same way,
 * so they share one generator, `Collect`, parameterised by what a type declares.
 */
module Flattening {
  import opened Wrappers
  import opened Reflection
  import opened Collections

  function DeclaredMethods(t: TypeDesc): seq<MethodInfo> { t.methods }

  function DeclaredProperties(t: TypeDesc): seq<Property> { t.properties }

  function DeclaredEvents(t: TypeDesc): seq<Event> { t.events }

  /** The type's own members, then, base by base, all that the base yields. Duplicates stay. */
  function Collect<T>(h: seq<TypeDesc>, i: nat, declared: TypeDesc -> seq<T>): seq<T>
    requires Acyclic(h) && i < |h|
    decreases i, 1
  {
    declared(h[i]) + CollectBases(h, i, h[i].interfaces, declared)
  }

  /** The nested `foreach` over `type.GetInterfaces()`. */
  function CollectBases<T>(h: seq<TypeDesc>, i: nat, bases: seq<nat>, declared: TypeDesc -> seq<T>): seq<T>
    requires Acyclic(h) && i < |h|
    requires forall k :: 0 <= k < |bases| ==> bases[k] < i
    decreases i, 0, |bases|
  {
    if bases == [] then [] else Collect(h, bases[0], declared) + CollectBases(h, i, bases[1..], declared)
  }

  lemma {:induction false} CollectBasesMembership<T>(
    h: seq<TypeDesc>, i: nat, bases: seq<nat>, declared: TypeDesc -> seq<T>, x: T)
    requires Acyclic(h) && i < |h|
    requires forall k :: 0 <= k < |bases| ==> bases[k] < i
    ensures x in CollectBases(h, i, bases, declared)
        <==> exists k :: 0 <= k < |bases| && x in Collect(h, bases[k], declared)
    decreases |bases|
  {
    if bases != [] {
      var rest := bases[1..];
      CollectBasesMembership(h, i, rest, declared, x);
      if x in CollectBases(h, i, rest, declared) {
        var k :| 0 <= k < |rest| && x in Collect(h, rest[k], declared);
        assert bases[k + 1] == rest[k];
      }
      if exists k :: 0 <= k < |bases| && x in Collect(h, bases[k], declared) {
        var k :| 0 <= k < |bases| && x in Collect(h, bases[k], declared);
        if k > 0 {
          assert rest[k - 1] == bases[k];
        }
      }
    }
  }

  /** One level of the recursion: own members, or a member collected from a direct base. */
  lemma CollectUnfold<T>(h: seq<TypeDesc>, i: nat, declared: TypeDesc -> seq<T>, x: T)
    requires Acyclic(h) && i < |h|
    ensures x in Collect(h, i, declared)
        <==> x in declared(h[i])
             || exists k :: 0 <= k < |h[i].interfaces| && x in Collect(h, h[i].interfaces[k], declared)
  {
    CollectBasesMembership(h, i, h[i].interfaces, declared, x);
  }

  lemma {:induction false} CollectedIsInherited<T>(h: seq<TypeDesc>, i: nat, declared: TypeDesc -> seq<T>, x: T)
    requires Acyclic(h) && i < |h| && x in Collect(h, i, declared)
    ensures exists j :: 0 <= j < |h| && Inherits(h, i, j) && x in declared(h[j])
    decreases i
  {
    CollectUnfold(h, i, declared, x);
    if x in declared(h[i]) {
      assert IsChain(h, [i]);
    } else {
      var k :| 0 <= k < |h[i].interfaces| && x in Collect(h, h[i].interfaces[k], declared);
      var b := h[i].interfaces[k];
      CollectedIsInherited(h, b, declared, x);
      var j :| 0 <= j < |h| && Inherits(h, b, j) && x in declared(h[j]);
      var c :| IsChain(h, c) && c[0] == b && c[|c| - 1] == j;
      var c' := [i] + c;
      forall n | 0 < n < |c'|
        ensures c'[n] in h[c'[n - 1]].interfaces
      {
        if n > 1 {
          assert c'[n] == c[n - 1] && c'[n - 1] == c[n - 2];
        }
      }
      assert IsChain(h, c') && c'[0] == i && c'[|c'| - 1] == j;
    }
  }

  lemma {:induction false} InheritedIsCollected<T>(h: seq<TypeDesc>, c: seq<nat>, declared: TypeDesc -> seq<T>, x: T)
    requires Acyclic(h) && IsChain(h, c) && x in declared(h[c[|c| - 1]])
    ensures x in Collect(h, c[0], declared)
    decreases |c|
  {
    CollectUnfold(h, c[0], declared, x);
    if |c| > 1 {
      var rest := c[1..];
      assert IsChain(h, rest) by {
        forall n | 0 < n < |rest|
          ensures rest[n] in h[rest[n - 1]].interfaces
        {
          assert rest[n] == c[n + 1] && rest[n - 1] == c[n];
        }
      }
      InheritedIsCollected(h, rest, declared, x);
      var k :| 0 <= k < |h[c[0]].interfaces| && h[c[0]].interfaces[k] == c[1];
    }
  }

  /**
   * Reference definition of flattening: an element is collected for type `i`
   * exactly when some type that `i` inherits from (or `i` itself) declares it.
   */
  lemma CollectIsInheritedMembers<T>(h: seq<TypeDesc>, i: nat, declared: TypeDesc -> seq<T>)
    requires Acyclic(h) && i < |h|
    ensures forall x :: x in Collect(h, i, declared)
                    <==> exists j :: 0 <= j < |h| && Inherits(h, i, j) && x in declared(h[j])
  {
    forall x
      ensures x in Collect(h, i, declared)
          <==> exists j :: 0 <= j < |h| && Inherits(h, i, j) && x in declared(h[j])
    {
      if x in Collect(h, i, declared) {
        CollectedIsInherited(h, i, declared, x);
      }
      if exists j :: 0 <= j < |h| && Inherits(h, i, j) && x in declared(h[j]) {
        var j :| 0 <= j < |h| && Inherits(h, i, j) && x in declared(h[j]);
        var c :| IsChain(h, c) && c[0] == i && c[|c| - 1] == j;
        InheritedIsCollected(h, c, declared, x);
      }
    }
  }

  function RecursiveGetMethods(h: seq<TypeDesc>, i: nat): (r: seq<MethodInfo>)
    requires Acyclic(h) && i < |h|
    ensures forall m :: m in r <==> exists j :: 0 <= j < |h| && Inherits(h, i, j) && m in h[j].methods
  {
    CollectIsInheritedMembers(h, i, DeclaredMethods);
    Collect(h, i, DeclaredMethods)
  }

  function RecursiveGetProperties(h: seq<TypeDesc>, i: nat): (r: seq<Property>)
    requires Acyclic(h) && i < |h|
    ensures forall p :: p in r <==> exists j :: 0 <= j < |h| && Inherits(h, i, j) && p in h[j].properties
  {
    CollectIsInheritedMembers(h, i, DeclaredProperties);
    Collect(h, i, DeclaredProperties)
  }

  function RecursiveGetEvents(h: seq<TypeDesc>, i: nat): (r: seq<Event>)
    requires Acyclic(h) && i < |h|
    ensures forall e :: e in r <==> exists j :: 0 <= j < |h| && Inherits(h, i, j) && e in h[j].events
  {
    CollectIsInheritedMembers(h, i, DeclaredEvents);
    Collect(h, i, DeclaredEvents)
  }

  /** `new HashSet<MethodInfo>(RecursiveGetMethods(type))`. */
  function FlattenedMethods(h: seq<TypeDesc>, i: nat): set<MethodInfo>
    requires Acyclic(h) && i < |h|
  {
    SetOf(RecursiveGetMethods(h, i))
  }

  /** `new HashSet<PropertyInfo>(RecursiveGetProperties(type))`. */
  function FlattenedProperties(h: seq<TypeDesc>, i: nat): set<Property>
    requires Acyclic(h) && i < |h|
  {
    SetOf(RecursiveGetProperties(h, i))
  }

  /**
   * Every accessor of a flattened property is itself a flattened method, since
   * an interface lists its own properties' accessors among its methods.
   */
  lemma FlattenedAccessorsAreMethods(h: seq<TypeDesc>, i: nat)
    requires Acyclic(h) && AccessorsDeclared(h) && i < |h|
    ensures AccessorsOf(FlattenedProperties(h, i)) <= FlattenedMethods(h, i)
  {
    CollectIsInheritedMembers(h, i, DeclaredProperties);
    CollectIsInheritedMembers(h, i, DeclaredMethods);
    forall m | m in AccessorsOf(FlattenedProperties(h, i))
      ensures m in FlattenedMethods(h, i)
    {
      var p :| p in FlattenedProperties(h, i) && m in Accessors(p);
      var j :| 0 <= j < |h| && Inherits(h, i, j) && p in DeclaredProperties(h[j]);
      assert m in DeclaredMethods(h[j]);
    }
  }

  /**
   * Distinct flattened properties have disjoint accessors, and no getter is
   * also a setter; this includes a property and the `new` property hiding it.
   */
  lemma FlattenedAccessorsUnshared(h: seq<TypeDesc>, i: nat)
    requires WellFormed(h) && i < |h|
    ensures AccessorsDisjoint(FlattenedProperties(h, i))
  {
    CollectIsInheritedMembers(h, i, DeclaredProperties);
    forall p, q | p in FlattenedProperties(h, i) && q in FlattenedProperties(h, i) && p != q
      ensures Accessors(p) !! Accessors(q)
    {
      var j :| 0 <= j < |h| && Inherits(h, i, j) && p in DeclaredProperties(h[j]);
      var k :| 0 <= k < |h| && Inherits(h, i, k) && q in DeclaredProperties(h[k]);
      AccessorsUnshared(h, j, k, p, q);
    }
    forall p | p in FlattenedProperties(h, i)
      ensures GetterIsNotSetter(p)
    {
      var j :| 0 <= j < |h| && Inherits(h, i, j) && p in DeclaredProperties(h[j]);
    }
  }

  const DiamondMethod := MethodInfo(0, "M", Void, [])

  /** IBase declares M; ILeft and IRight extend IBase; IBottom extends both. */
  function Diamond(): seq<TypeDesc>
  {
    [ TypeDesc("IBase", Some("Acme"), true, [DiamondMethod], [], [], []),
      TypeDesc("ILeft", Some("Acme"), true, [], [], [], [0]),
      TypeDesc("IRight", Some("Acme"), true, [], [], [], [0]),
      TypeDesc("IBottom", Some("Acme"), true, [], [], [], [1, 2]) ]
  }

  /**
   * Following direct bases, as this model does, the generator yields M once
   * along each of the two paths of a diamond; the `HashSet` keeps it once.
   */
  lemma DiamondMemberKeptOnce()
    ensures Acyclic(Diamond())
    ensures multiset(RecursiveGetMethods(Diamond(), 3))[DiamondMethod] == 2
    ensures FlattenedMethods(Diamond(), 3) == {DiamondMethod}
  {
    var h := Diamond();
    assert Collect(h, 0, DeclaredMethods) == [DiamondMethod];
    assert Collect(h, 1, DeclaredMethods) == [DiamondMethod];
    assert Collect(h, 2, DeclaredMethods) == [DiamondMethod];
    assert RecursiveGetMethods(h, 3) == [DiamondMethod, DiamondMethod];
  }
}
