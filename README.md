# SharpMock stub synthesis, modelled in Dafny

SharpMock generates a stub class for each interface in an assembly.
`InterfaceImplementor.CreateTypeFor` checks that it was given an interface. It
names the stub `Namespace + ".Mocks.Mock_" + name`, where one leading `I` is
dropped from the name. It then flattens the methods and properties of the
interface and of every interface it extends into `HashSet`s. For each property
it defines a private backing field, plus a getter and/or a setter over that
field wherever the interface has one, and it takes those accessors out of the
method set. Every method still left
gets a body that returns nothing or its return type's default value. Each
generated method is bound as the override of the interface method it
implements. `Main` checks that it has two arguments, loads the assembly and
sorts its interfaces into one list per namespace.

The model has these modules:

- `Reflection`: the reflected types. An assembly's interface hierarchy is a
  sequence of `TypeDesc` records whose base interfaces are indices of earlier
  records (`Acyclic`). Inheritance itself is defined by chains of direct
  extension (`Inherits`). Like `MethodInfo` and `PropertyInfo`, a method and a
  property carry the index of the type that declares them. A property
  re-declared with `new` in a derived interface therefore has accessors of its
  own, even when their signatures equal those of the hidden property.
- `Flattening`: the three recursive generators, as one recursive function
  `Collect`. Each is proved to yield exactly the members of the types the
  interface inherits from.
- `InterfaceImplementor`: the stub's name and, in place of the Reflection.Emit
  calls, a `Plan` of the fields and methods the stub type receives.
  `CreateTypeFor` is a method with loops over a mutable method set. Its
  postcondition ties the plan to specification functions over the order in
  which the two `HashSet`s happen to be enumerated.
- `StubBehaviour`: what the generated methods do when called, over a map from
  fields to values.
- `MainClass`: the argument-count guard and the grouping loop in `Main`.
- `Collections` and `Wrappers`: sets of sequence elements, distinctness,
  `Option` and `Result`.

## Model

| member | source | states |
|---|---|---|
| InterfaceImplementor.CreateTypeFor | SharpMock/InterfaceImplementor.cs:27-191 | A non-interface raises `TypeIsNotAnInterface` carrying that type, and no plan is produced. For an interface, the stub is named `FullMockName` and implements it. It gets one backing field per flattened property and, in the order the sets were walked, the accessors of every property followed by a default body for every plain method. |
| InterfaceImplementor.DefinePropertyMembers | SharpMock/InterfaceImplementor.cs:72-140 | After the loop over the property set, every property was visited exactly once. Fields and accessors were appended in visiting order, and the method set lost exactly the accessors of all properties. |
| InterfaceImplementor.DefineProperty | SharpMock/InterfaceImplementor.cs:74-139 | One property appends its `"_" + Name` field of the property's type, then a getter and/or setter where the interface has one. It removes exactly those accessors from `methods`. |
| InterfaceImplementor.DefineDefaultMembers | SharpMock/InterfaceImplementor.cs:144-180 | Each remaining method is visited once, so there are as many generated methods as remaining methods. Each remaining method gets a method with the same name, return type and copied parameter types, bound to it, whose body returns nothing for `void` and the default value otherwise. Every generated method overrides a remaining method whose signature it has. |
| InterfaceImplementor.FullMockNameRoundTrip | SharpMock/InterfaceImplementor.cs:35-41 | The stub name is the namespace (empty when `null`), then `.Mocks.Mock_`, then the interface name without one leading `I`. Its length follows, and the namespace and interface name can be read back from it. |
| InterfaceImplementor.WidgetStubName | SharpMock/InterfaceImplementor.cs:35-41 | `IWidget` in `Acme` becomes `Acme.Mocks.Mock_Widget`. In the global namespace it becomes `.Mocks.Mock_Widget`. |
| InterfaceImplementor.MarkerStrippedOnce | SharpMock/InterfaceImplementor.cs:36-39 | Exactly one leading `I` is dropped, whatever follows it: `IIdentity` becomes `Mock_Identity`, `Item` becomes `Mock_tem`, and `Repository` keeps its name. |
| InterfaceImplementor.MarkedAndUnmarkedNamesCollide | SharpMock/InterfaceImplementor.cs:35-41 | `IX` and `X` in one namespace get the same stub name. |
| InterfaceImplementor.PlainMethodsPartitionFlattened | SharpMock/InterfaceImplementor.cs:63-66 | The methods left after removing the accessors and the removed accessors are disjoint. Together they are the whole flattened method set, and no accessor of a flattened property is left. |
| InterfaceImplementor.OneFieldPerProperty | SharpMock/InterfaceImplementor.cs:72-79 | There are as many fields as distinct flattened properties. Each property's `"_" + Name` field is among them, and every field belongs to some property. The fields are pairwise distinct: each `DefineField` call makes a field of its own, even for two properties with the same name and type. |
| InterfaceImplementor.EveryMethodImplementedOnce | SharpMock/InterfaceImplementor.cs:63-180 | The generated methods override every flattened interface method, accessors included, exactly once each, and override nothing else. This also covers a property hidden with `new`, whose getter and the hiding getter are different methods. |
| InterfaceImplementor.AccessorTargets | SharpMock/InterfaceImplementor.cs:82-139 | The accessor methods override the getters and setters of the visited properties, each exactly once. |
| InterfaceImplementor.DefaultTargets | SharpMock/InterfaceImplementor.cs:144-180 | The default methods override exactly the remaining methods, in visiting order. |
| InterfaceImplementor.PropertyTargets | SharpMock/InterfaceImplementor.cs:82-139 | One property's generated methods override exactly its getter and setter, once each. |
| InterfaceImplementor.MembersMatchTheirTargets | SharpMock/InterfaceImplementor.cs:90-107 | Every generated method is declared with the name, return type and parameter types of the interface method it overrides. |
| InterfaceImplementor.AccessorMembersCover | SharpMock/InterfaceImplementor.cs:82-139 | A method is among the generated accessors if and only if it is the getter or setter generated for some visited property. |
| InterfaceImplementor.IndexerAccessorsMismatchAsWritten | SharpMock/InterfaceImplementor.cs:90-94 | For the indexer `int this[int]`, the getter and setter declared as written differ in signature from the interface accessors they override. The corrected ones match. |
| InterfaceImplementor.GetterAsWrittenMatchesIff | SharpMock/InterfaceImplementor.cs:90-94 | The getter as written matches its interface getter exactly when that getter returns the property type and has no parameters. In that case it equals the corrected getter. |
| InterfaceImplementor.SetterAsWrittenMatchesIff | SharpMock/InterfaceImplementor.cs:119-123 | The setter as written matches its interface setter exactly when that setter is `void` with one parameter of the property type. In that case it equals the corrected setter. |
| Flattening.RecursiveGetMethods | SharpMock/InterfaceImplementor.cs:199-207 | A method is yielded if and only if the interface itself, or an interface it extends directly or indirectly, declares it. |
| Flattening.RecursiveGetProperties | SharpMock/InterfaceImplementor.cs:215-223 | A property is yielded if and only if the interface or one of its direct or indirect bases declares it. |
| Flattening.RecursiveGetEvents | SharpMock/InterfaceImplementor.cs:231-239 | An event is yielded if and only if the interface or one of its direct or indirect bases declares it. |
| Flattening.CollectUnfold | SharpMock/InterfaceImplementor.cs:199-207 | One level of the recursion: a member is yielded if and only if the type declares it or the recursion over one of its direct bases yields it. |
| Flattening.CollectIsInheritedMembers | SharpMock/InterfaceImplementor.cs:199-239 | The generator's output is exactly the members declared along the inheritance chains that start at the interface. |
| Flattening.FlattenedAccessorsAreMethods | SharpMock/InterfaceImplementor.cs:60-66 | Every accessor of a flattened property is in the flattened method set, so removing it removes a real entry. |
| Flattening.FlattenedAccessorsUnshared | SharpMock/InterfaceImplementor.cs:66 | Distinct flattened properties have disjoint accessors, and no getter is also a setter. This includes a property and the `new` property that hides it. |
| Flattening.DiamondMemberKeptOnce | SharpMock/InterfaceImplementor.cs:63 | In a diamond, following direct bases as this model does, the generator yields the shared method once along each path, twice in all. The `HashSet` keeps it once. |
| Reflection.AccessorsUnshared | SharpMock/InterfaceImplementor.cs:82-116 | Two different properties anywhere in the assembly share no accessor. Within one type this is a language rule. Across types it holds because an accessor belongs to the type that declares its property. So each `methods.Remove` removes a method of one property only. |
| InterfaceImplementor.HidingIsWellFormed | SharpMock/InterfaceImplementor.cs:72-116 | The hierarchy `IReadOnlyThing { int X { get; } }`, `IThing : IReadOnlyThing { new int X { get; set; } }` satisfies `WellFormed`, so the general lemmas apply to it. |
| InterfaceImplementor.HiddenPropertyKeepsItsGetter | SharpMock/InterfaceImplementor.cs:63-66 | For `IThing`, both properties are flattened, along with both `get_X` methods and `set_X`. |
| InterfaceImplementor.HidingLeavesNoPlainMethod | SharpMock/InterfaceImplementor.cs:82-116 | For `IThing`, all three methods are accessors, so none gets a default body. |
| InterfaceImplementor.HiddenPropertyAccessorTargets | SharpMock/InterfaceImplementor.cs:82-138 | For `IThing`, the generated accessors override `IReadOnlyThing.get_X`, `IThing.get_X` and `IThing.set_X`, once each. |
| StubBehaviour.GetterReadsField | SharpMock/InterfaceImplementor.cs:101-103 | A getter returns the current value of its backing field and changes nothing. |
| StubBehaviour.SetterWritesOnlyItsField | SharpMock/InterfaceImplementor.cs:130-134 | A setter returns nothing, stores the passed value in its backing field, and leaves every other field as it was. |
| StubBehaviour.SetterLeavesOtherPropertiesAlone | SharpMock/InterfaceImplementor.cs:130-134 | Two different properties have different backing fields, so a setter leaves every other property's field as it was, even one with the same name and type. |
| StubBehaviour.HiddenPropertyStateIsSeparate | SharpMock/InterfaceImplementor.cs:78-134 | Setting `IThing.X` makes its getter return the new value. `IReadOnlyThing.X` keeps its old value, although both fields are named `_X`. |
| StubBehaviour.GetAfterSet | SharpMock/InterfaceImplementor.cs:101-134 | A get after a set returns the value that was set. |
| StubBehaviour.DefaultMethodIsInert | SharpMock/InterfaceImplementor.cs:166-176 | A default method returns nothing for `void`, or the default of its return type, and changes no field. |
| StubBehaviour.AccessorsUseDefinedFields | SharpMock/InterfaceImplementor.cs:78-79 | Every field an accessor reads or writes is a field the stub defines. |
| StubBehaviour.FreshStubReadsDefaults | SharpMock/InterfaceImplementor.cs:50-58 | On a new stub, every getter returns the default value of its property type. |
| MainClass.RunMain | SharpMock/Main.cs:13-37 | With any argument count but two, only the usage line is produced. Otherwise the run fails if and only if the assembly has an interface in the global namespace. If it does not fail, it yields the file names, the loaded types and the namespace grouping of all their interfaces. |
| MainClass.GroupByNamespace | SharpMock/Main.cs:25-37 | The dictionary filled by the loop equals `Groups` of the whole assembly. `TryGetValue` on a `null` namespace throws, and the failure names the first global interface. |
| MainClass.BucketMembership | SharpMock/Main.cs:27-36 | A type is in a namespace's list if and only if it is an interface of that namespace. |
| MainClass.BucketInInputOrder | SharpMock/Main.cs:27-36 | Within a list, interfaces keep their input order, strictly increasing. |
| MainClass.NoEmptyBucket | SharpMock/Main.cs:30-34 | A list is added only when its namespace is first seen, so no list is empty. |
| MainClass.BucketEmptyIffUnseen | SharpMock/Main.cs:30-34 | A namespace has entries if and only if an interface of it has been seen. |
| MainClass.GroupsStep | SharpMock/Main.cs:29-36 | One step of the loop appends the interface to its namespace's list, creating the list if needed. Every other type leaves the dictionary unchanged. |
| MainClass.EachInterfaceInOneBucket | SharpMock/Main.cs:27-37 | Each interface occurs exactly once in its namespace's list and in no other list. |
| MainClass.BucketSizesSum | SharpMock/Main.cs:27-37 | The list lengths add up to the number of interfaces. |
| MainClass.GroupingExample | SharpMock/Main.cs:25-37 | Interfaces in `N1`, `N1` and `N2`, followed by a class in `N1`, group as `N1: [0, 1]` and `N2: [2]`; the class is in no list. |
| Collections.DistinctCardinality | SharpMock/InterfaceImplementor.cs:72 | Enumerating a set without repeats visits as many elements as the set has. |

## Left out

- Reflection.Emit (`ModuleBuilder`, `TypeBuilder`, `ILGenerator`, opcodes, `CreateType`) is not modelled. The method returns the `Plan` of fields and methods instead. The constructor, which only calls `object()`, is implied by every plan.
- The `InterfaceImplementor` constructor and its `moduleBuilder` field are left out, since they only register the emitted type.
- .NET's own `GetMethods`, `GetProperties` and `GetInterfaces` are not modelled. The hierarchy is explicit data, and member identity is structural equality over the declaring type and the signature. In .NET, `GetInterfaces` already lists indirect bases. The model's recursion follows direct bases only, so it yields fewer duplicates: on a real diamond, the shared method comes out three times rather than twice. The sets after deduplication are the same.
- The CLR's actual default values for each type are not modelled. `Default(t)` stands for the zero or `null` of type `t`.
- Events: line 69 fills the events set from the properties, and the loop over it generates nothing. The model does the same, so `RecursiveGetEvents` is modelled but never used.
- `Assembly.LoadFile` is a function parameter of `RunMain`. `Console.WriteLine` becomes the `PrintedUsage` outcome.
- The `StreamWriter` and `Implement` call in `Main.cs` (lines 39-44) are not modelled. `InterfaceImplementor` has no `Implement` method and no parameterless constructor, so the model stops at the grouped dictionary.
- Exception message text is not modelled. An exception is its type and the offending type or index.
- `StartsWith("I")` is culture-sensitive in .NET. The model compares the first character only.
- Clashes between generated names are not checked, just as the source does not check them. A property and the `new` property hiding it give two distinct fields, both named `_X`, and two methods named `get_X` with one signature. The plan holds both, each bound to its own interface method. Whether `CreateType` accepts such a type is not modelled.
- MainClass.GroupByNamespace: the `List` in the dictionary is mutated through an alias. The model writes the grown list back into the map, which gives the same contents.
- `HashSet` enumeration order is unspecified. `CreateTypeFor` picks elements nondeterministically, and its ghost outputs record the order it took.
- InterfaceImplementor.CreateTypeFor: requires an acyclic hierarchy with an index in range, which the CLR guarantees for loaded types.

## Findings

| source | as written | input that shows it | evidently intended | confidence | as-written member | corrected member |
|---|---|---|---|---|---|---|
| SharpMock/InterfaceImplementor.cs:90-94, 119-123 | The getter is declared returning the property type with no parameters, and the setter `void` with one parameter of the property type, whatever the interface accessor's signature. | An interface indexer `int this[int i] { get; set; }`: `get_Item(int)` is overridden by a parameterless getter and `set_Item(int, int)` by a one-parameter setter, so `CreateType` rejects the signature mismatch. | Declare each accessor with the return and parameter types of the interface accessor it overrides, and store the last argument. | not executed | InterfaceImplementor.IndexerAccessorsMismatchAsWritten | InterfaceImplementor.MembersMatchTheirTargets |

The rest of the model uses the corrected `Getter` and `Setter`. By
`GetterAsWrittenMatchesIff` and `SetterAsWrittenMatchesIff`, they coincide with
the accessors as written for every property whose getter returns the property
type with no parameters and whose setter is `void` with one parameter of that
type. In C#, that is every non-indexed property.
