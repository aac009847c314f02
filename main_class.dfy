/**
 * The command line of SharpMock: check the argument count, load the assembly,
 * and sort its interfaces into lists by namespace. Loading the assembly and
 * writing the output are I/O; the loader is a parameter here.
 */
module MainClass {
  import opened Wrappers
  import opened Reflection

  const UsageLine := "The first argument is an assembly, and the second is the file to generate"

  /** The `ArgumentNullException` that `Dictionary.TryGetValue` raises for a `null` key. */
  datatype NullNamespaceKey = NullNamespaceKey(offending: nat)

  datatype RunOutcome =
    | PrintedUsage(line: string)
    | Crashed(error: NullNamespaceKey)
      /** The interfaces by namespace, ready for the output file. */
    | Grouped(assemblyFile: string, outputFile: string, assembly: seq<TypeDesc>, interfacesByNamespace: map<string, seq<nat>>)

  /** Type `i` is an interface of namespace `ns`. */
  predicate InNamespace(asm: seq<TypeDesc>, i: nat, ns: string)
    requires i < |asm|
  {
    asm[i].isInterface && asm[i].namespace == Some(ns)
  }

  /** Type `i` is an interface of the global namespace (`Namespace == null`). */
  predicate GlobalInterface(asm: seq<TypeDesc>, i: nat)
    requires i < |asm|
  {
    asm[i].isInterface && asm[i].namespace.None?
  }

  /** The interfaces of namespace `ns` among the first `n` types, in order. */
  function Bucket(asm: seq<TypeDesc>, n: nat, ns: string): seq<nat>
    requires n <= |asm|
  {
    if n == 0 then [] else Bucket(asm, n - 1, ns) + (if InNamespace(asm, n - 1, ns) then [n - 1] else [])
  }

  /** The namespaces of the interfaces among the first `n` types. */
  function NamespacesBefore(asm: seq<TypeDesc>, n: nat): set<string>
    requires n <= |asm|
  {
    set i | 0 <= i < n && asm[i].isInterface && asm[i].namespace.Some? :: asm[i].namespace.value
  }

  /** The dictionary after the first `n` types: one bucket per namespace seen. */
  function Groups(asm: seq<TypeDesc>, n: nat): map<string, seq<nat>>
    requires n <= |asm|
  {
    map ns | ns in NamespacesBefore(asm, n) :: Bucket(asm, n, ns)
  }

  function InterfaceCount(asm: seq<TypeDesc>, n: nat): nat
    requires n <= |asm|
  {
    if n == 0 then 0 else InterfaceCount(asm, n - 1) + (if asm[n - 1].isInterface then 1 else 0)
  }

  /** The sum of the lengths of all the lists. */
  ghost function TotalSize(m: map<string, seq<nat>>): nat
    decreases m.Keys
  {
    if m.Keys == {} then 0 else var k :| k in m; |m[k]| + TotalSize(m - {k})
  }

  // ---------------------------------------------------------------- Main

  /**
   * `Main`: with any argument count but two only the usage line is printed;
   * otherwise the interfaces of `loadTypes(args[0])` (standing for
   * `Assembly.LoadFile(args[0]).GetTypes()`) are grouped by namespace.
   */
  method RunMain(args: seq<string>, loadTypes: string -> seq<TypeDesc>) returns (outcome: RunOutcome)
    ensures |args| != 2 <==> outcome == PrintedUsage(UsageLine)
    ensures |args| == 2 ==>
      var asm := loadTypes(args[0]);
      && (outcome.Crashed? <==> exists i :: 0 <= i < |asm| && GlobalInterface(asm, i))
      && (!outcome.Crashed? ==> outcome == Grouped(args[0], args[1], asm, Groups(asm, |asm|)))
  {
    if 2 != |args| {
      return PrintedUsage(UsageLine);
    }
    var assemblyFilename := args[0];
    var outputFilename := args[1];
    var assembly := loadTypes(assemblyFilename);
    var grouped := GroupByNamespace(assembly);
    match grouped
    case Failure(e) => outcome := Crashed(e);
    case Success(interfacesByNamespace) =>
      outcome := Grouped(assemblyFilename, outputFilename, assembly, interfacesByNamespace);
  }

  /**
   * The `foreach` over the interfaces of the assembly: each is appended to the
   * list of its namespace, a new list being added the first time a namespace
   * is seen. An interface of the global namespace makes `TryGetValue` throw.
   */
  method GroupByNamespace(asm: seq<TypeDesc>) returns (r: Result<map<string, seq<nat>>, NullNamespaceKey>)
    ensures r.Failure? <==> exists i :: 0 <= i < |asm| && GlobalInterface(asm, i)
    ensures r.Failure? ==>
      && r.error.offending < |asm|
      && GlobalInterface(asm, r.error.offending)
      && forall j :: 0 <= j < r.error.offending ==> !GlobalInterface(asm, j)
    ensures r.Success? ==> r.value == Groups(asm, |asm|)
  {
    var interfacesByNamespace: map<string, seq<nat>> := map[];
    assert Groups(asm, 0) == map[];
    var i := 0;
    while i < |asm|
      invariant 0 <= i <= |asm|
      invariant forall j :: 0 <= j < i ==> !GlobalInterface(asm, j)
      invariant interfacesByNamespace == Groups(asm, i)
    {
      GroupsStep(asm, i);
      if asm[i].isInterface {
        if asm[i].namespace.None? {
          assert GlobalInterface(asm, i);
          return Failure(NullNamespaceKey(i));
        }
        var ns := asm[i].namespace.value;
        var interfaces: seq<nat>;
        if ns in interfacesByNamespace {
          interfaces := interfacesByNamespace[ns];
        } else {
          interfaces := [];
          interfacesByNamespace := interfacesByNamespace[ns := interfaces];
        }
        interfaces := interfaces + [i];
        // The list in the dictionary is the one that grew.
        interfacesByNamespace := interfacesByNamespace[ns := interfaces];
      }
      i := i + 1;
    }
    return Success(interfacesByNamespace);
  }

  // -------------------------------------------------------------- lemmas

  /** A bucket holds exactly the interfaces of its namespace, and nothing that is not an interface. */
  lemma {:induction false} BucketMembership(asm: seq<TypeDesc>, n: nat, ns: string, x: nat)
    requires n <= |asm|
    ensures x in Bucket(asm, n, ns) <==> x < n && InNamespace(asm, x, ns)
  {
    if n > 0 {
      BucketMembership(asm, n - 1, ns, x);
    }
  }

  /** A namespace has a non-empty bucket exactly when one of its interfaces has been seen. */
  lemma BucketEmptyIffUnseen(asm: seq<TypeDesc>, n: nat, ns: string)
    requires n <= |asm|
    ensures Bucket(asm, n, ns) == [] <==> ns !in NamespacesBefore(asm, n)
  {
    if ns in NamespacesBefore(asm, n) {
      var i :| 0 <= i < n && asm[i].isInterface && asm[i].namespace.Some? && asm[i].namespace.value == ns;
      BucketMembership(asm, n, ns, i);
    }
    if Bucket(asm, n, ns) != [] {
      var x := Bucket(asm, n, ns)[0];
      BucketMembership(asm, n, ns, x);
    }
  }

  /** One more type: an interface of namespace `ns` is appended to that namespace's list, created if new. */
  lemma GroupsStep(asm: seq<TypeDesc>, i: nat)
    requires i < |asm|
    ensures asm[i].isInterface && asm[i].namespace.Some? ==>
      var ns, g := asm[i].namespace.value, Groups(asm, i);
      Groups(asm, i + 1) == g[ns := (if ns in g then g[ns] else []) + [i]]
    ensures !(asm[i].isInterface && asm[i].namespace.Some?) ==> Groups(asm, i + 1) == Groups(asm, i)
  {
    var g, g' := Groups(asm, i), Groups(asm, i + 1);
    if asm[i].isInterface && asm[i].namespace.Some? {
      var ns := asm[i].namespace.value;
      var v := (if ns in g then g[ns] else []) + [i];
      assert NamespacesBefore(asm, i + 1) == NamespacesBefore(asm, i) + {ns};
      BucketEmptyIffUnseen(asm, i, ns);
      forall k | k in g'
        ensures g'[k] == g[ns := v][k]
      {
      }
      assert g' == g[ns := v];
    } else {
      assert NamespacesBefore(asm, i + 1) == NamespacesBefore(asm, i);
      forall k | k in g'
        ensures g'[k] == g[k]
      {
      }
      assert g' == g;
    }
  }

  /** Within a bucket the interfaces keep the order of the input (and none occurs twice). */
  lemma {:induction false} BucketInInputOrder(asm: seq<TypeDesc>, n: nat, ns: string)
    requires n <= |asm|
    ensures forall a, b :: 0 <= a < b < |Bucket(asm, n, ns)| ==> Bucket(asm, n, ns)[a] < Bucket(asm, n, ns)[b]
  {
    if n > 0 {
      var before := Bucket(asm, n - 1, ns);
      BucketInInputOrder(asm, n - 1, ns);
      forall a | 0 <= a < |before|
        ensures before[a] < n - 1
      {
        BucketMembership(asm, n - 1, ns, before[a]);
      }
    }
  }

  /** No bucket is ever empty. */
  lemma NoEmptyBucket(asm: seq<TypeDesc>, n: nat)
    requires n <= |asm|
    ensures forall ns :: ns in Groups(asm, n) ==> |Groups(asm, n)[ns]| > 0
  {
    forall ns | ns in Groups(asm, n)
      ensures |Groups(asm, n)[ns]| > 0
    {
      BucketEmptyIffUnseen(asm, n, ns);
    }
  }

  /** Every interface with a namespace is in its namespace's bucket exactly once, and in no other bucket. */
  lemma EachInterfaceInOneBucket(asm: seq<TypeDesc>, n: nat, x: nat)
    requires n <= |asm| && x < n && asm[x].isInterface && asm[x].namespace.Some?
    ensures var ns, g := asm[x].namespace.value, Groups(asm, n);
            && ns in g
            && multiset(g[ns])[x] == 1
            && forall other :: other in g && other != ns ==> x !in g[other]
  {
    var ns, g := asm[x].namespace.value, Groups(asm, n);
    assert ns in NamespacesBefore(asm, n);
    BucketMembership(asm, n, ns, x);
    BucketInInputOrder(asm, n, ns);
    OccursOnce(g[ns], x);
    forall other | other in g && other != ns
      ensures x !in g[other]
    {
      BucketMembership(asm, n, other, x);
    }
  }

  /** In a strictly increasing list an element that occurs, occurs once. */
  lemma {:induction false} OccursOnce(s: seq<nat>, x: nat)
    requires forall a, b :: 0 <= a < b < |s| ==> s[a] < s[b]
    requires x in s
    ensures multiset(s)[x] == 1
  {
    var init, last := s[..|s| - 1], s[|s| - 1];
    assert s == init + [last];
    if x == last {
      assert forall a :: 0 <= a < |init| ==> init[a] < last;
      assert x !in init;
    } else {
      OccursOnce(init, x);
    }
  }

  lemma {:induction false} TotalSizeRemove(m: map<string, seq<nat>>, k: string)
    requires k in m
    ensures TotalSize(m) == |m[k]| + TotalSize(m - {k})
    decreases m.Keys
  {
    var k' :| k' in m && TotalSize(m) == |m[k']| + TotalSize(m - {k'});
    if k' != k {
      TotalSizeRemove(m - {k'}, k);
      TotalSizeRemove(m - {k}, k');
      assert m - {k'} - {k} == m - {k} - {k'};
    }
  }

  lemma TotalSizeUpdate(m: map<string, seq<nat>>, k: string, v: seq<nat>)
    ensures TotalSize(m[k := v]) + (if k in m then |m[k]| else 0) == TotalSize(m) + |v|
  {
    TotalSizeRemove(m[k := v], k);
    assert m[k := v] - {k} == m - {k};
    if k in m {
      TotalSizeRemove(m, k);
    } else {
      assert m - {k} == m;
    }
  }

  /** The bucket sizes add up to the number of interfaces: each is placed once. */
  lemma {:induction false} BucketSizesSum(asm: seq<TypeDesc>, n: nat)
    requires n <= |asm|
    requires forall j :: 0 <= j < n ==> !GlobalInterface(asm, j)
    ensures TotalSize(Groups(asm, n)) == InterfaceCount(asm, n)
  {
    if n == 0 {
      assert Groups(asm, 0) == map[];
    } else {
      var g, g' := Groups(asm, n - 1), Groups(asm, n);
      BucketSizesSum(asm, n - 1);
      GroupsStep(asm, n - 1);
      if asm[n - 1].isInterface {
        assert !GlobalInterface(asm, n - 1);
        var ns := asm[n - 1].namespace.value;
        var v := (if ns in g then g[ns] else []) + [n - 1];
        assert g' == g[ns := v];
        TotalSizeUpdate(g, ns, v);
        assert InterfaceCount(asm, n) == InterfaceCount(asm, n - 1) + 1;
      } else {
        assert g' == g;
        assert InterfaceCount(asm, n) == InterfaceCount(asm, n - 1);
      }
    }
  }

  /** Two namespaces given as N1, N1, N2: the buckets are N1: [0, 1] and N2: [2]. */
  lemma GroupingExample()
    ensures var asm := [ TypeDesc("X1", Some("N1"), true, [], [], [], []),
                         TypeDesc("X2", Some("N1"), true, [], [], [], []),
                         TypeDesc("Y1", Some("N2"), true, [], [], [], []),
                         TypeDesc("Helper", Some("N1"), false, [], [], [], []) ];
            Groups(asm, 4) == map["N1" := [0, 1], "N2" := [2]]
  {
    var asm := [ TypeDesc("X1", Some("N1"), true, [], [], [], []),
                 TypeDesc("X2", Some("N1"), true, [], [], [], []),
                 TypeDesc("Y1", Some("N2"), true, [], [], [], []),
                 TypeDesc("Helper", Some("N1"), false, [], [], [], []) ];
    assert Groups(asm, 0) == map[];
    GroupsStep(asm, 0);
    assert Groups(asm, 1) == map[]["N1" := [] + [0]];
    assert [] + [0] == [0];
    assert Groups(asm, 1) == map["N1" := [0]];
    GroupsStep(asm, 1);
    assert Groups(asm, 2) == map["N1" := [0]]["N1" := [0] + [1]];
    assert [0] + [1] == [0, 1];
    assert Groups(asm, 2) == map["N1" := [0, 1]];
    GroupsStep(asm, 2);
    assert Groups(asm, 3) == map["N1" := [0, 1]]["N2" := [] + [2]];
    assert [] + [2] == [2];
    assert Groups(asm, 3) == map["N1" := [0, 1], "N2" := [2]];
    GroupsStep(asm, 3);
  }
}
