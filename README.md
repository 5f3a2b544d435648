# KeepSimple.Configuration in Dafny

This project models the core of KeepSimple.Configuration, a path-addressed
configuration store. The core has four parts:

- **The path algebra.** A path is a string whose segments are separated by
  `:`. `Combine`, `Split`, `SkipLast` and `GetLast` convert between the two
  forms (module `ConfigurationPath`).
- **The tree.** Each `Configuration` node has a name, an optional parent, a
  dictionary of children and a dictionary of string values. The class
  `Configuration.Store` holds every node in one arena (`nodes: seq<Node>`).
  A C# reference to a node becomes an index into that arena, and each method
  takes the node it is invoked on as `at`.
  - `AddValue`, `GetValue`, `RemoveValue`, `GetChildren` and `RemoveChildren`
    are methods that update or read the arena.
  - Each is proved against a function of the arena: `Added`, `ValueAt`,
    `Resolve` and `SubtreeAt`.
  - The laws about those functions are in `ConfigurationLaws`.
- **The binder, `Get<T>`.**
  - The run-time type of the target is a closed `Shape` datatype.
  - `TypeDescriptor` conversion is a function parameter `conv`.
  - The dispatch, `CreateInstance`'s guards, and the array, dictionary,
    collection and member loops are methods (`ConfigurationGet`). Each is
    proved equal to a function.
  - The binding rules are lemmas about those functions (`ConfigurationGetLaws`).
- **Four sources.** Each source reads its input in a loop that writes pairs
  with `AddValue`:
  - the command-line arguments (`CommandLine`);
  - the lines of an INI file (`Ini`);
  - a loaded JSON object (`Json`, with a visitor class that carries the
    context stack and `jsonPath`);
  - the node sequence an `XmlReader` reports (`Xml`).

  Each source has a specification function that returns a `Load`. A `Load`
  holds the writes made, in order, and the exception that stopped the loop,
  if any. Each source's method is proved to leave the tree as
  `AddedAll(old nodes, at, load.writes)` and to return `load.error`. The
  properties of each source are proved about its specification function:
  - `JsonLaws`, `XmlLaws` and the lemmas inside `CommandLine` and `Ini`;
  - for INI, a second, independent reading of the whole file.

Exceptions that the source code raises are values of the model:

- `SourceError` is `FormatError` or `ArgumentError`;
- `BindError` is `InvalidOperation`, `NotSupported`, `NullReference`,
  `TypeMismatch`, `ArgumentNull` or `ParameterCount`. `TypeMismatch` stands
  for the `InvalidCastException` of a cast and the `ArgumentException` of
  `SetValue`. `ParameterCount` is the `TargetParameterCountException` of
  `SetValue` on an indexer.

A `Shape` lists the public properties of every class it describes,
dictionary and collection classes included, and says whether the class has
a public parameterless constructor. `string` is converted by the string
converter itself: a string comes back unchanged and null becomes `""`. Only
value types go through `conv`.

A settable property whose type is a dictionary or collection class is not
filled like a top-level target of that type. `BindInstance` treats it like
any other class: it creates an instance and binds that instance's own
settable properties, which for such a class include the indexer `Item`.
Setting an indexer without an index throws, so an owner with a
`Dictionary<string, string>` property fails as soon as the child for that
property exists. The model follows the code here
(`ConfigurationGetLaws.ContainerMemberBinding`,
`ConfigurationGetLaws.StringDictionaryMemberFails`).

Where the interface documentation and the code disagree, the model follows
the code. `IConfiguration.cs:55` documents `Path` as the absolute path
within the configuration. The code only prefixes the parent's name. See
"## Findings".

## Model

| member | source | states |
|---|---|---|
| ConfigurationPath.Split | KeepSimple.Configuration/ConfigurationPath.cs:52-58 | `Split` has one more segment than the path has `:`, so it is never empty, and no segment contains `:` |
| ConfigurationPath.Combine | KeepSimple.Configuration/ConfigurationPath.cs:28-45 | the buffer loop with its trailing-separator removal gives the parts joined by single `:` with no separator at either end; zero parts give `""` |
| ConfigurationPath.JoinAppend | KeepSimple.Configuration/ConfigurationPath.cs:33-44 | combining one more part adds exactly one separator and the part |
| ConfigurationPath.TerminatedIsJoinPlusSeparator | KeepSimple.Configuration/ConfigurationPath.cs:35-42 | before trimming, the buffer is the combined path followed by one separator (empty for no parts), so removing the last character leaves the combined path |
| ConfigurationPath.JoinSplit | KeepSimple.Configuration/ConfigurationPath.cs:28-58 | `Combine(Split(p)) == p` for every path `p` |
| ConfigurationPath.SplitJoin | KeepSimple.Configuration/ConfigurationPath.cs:28-58 | `Split(Combine(parts)) == parts` whenever there is at least one part and no part contains `:` |
| ConfigurationPath.SplitSegment | KeepSimple.Configuration/ConfigurationPath.cs:52-58 | a string without `:` splits into itself alone |
| ConfigurationPath.SplitPrefix | KeepSimple.Configuration/ConfigurationPath.cs:52-58 | splitting `segment:rest` gives `segment` followed by the segments of `rest` |
| ConfigurationPath.NoSeparatorCount | KeepSimple.Configuration/ConfigurationPath.cs:52-58 | the separator count is zero exactly when `:` does not occur in the path |
| ConfigurationPath.SkipLast | KeepSimple.Configuration/ConfigurationPath.cs:65-75 | null exactly when the path has one segment; otherwise a proper prefix of the path that a separator follows |
| ConfigurationPath.GetLast | KeepSimple.Configuration/ConfigurationPath.cs:82-89 | a suffix of the path that contains no separator |
| ConfigurationPath.SkipLastNoneIff | KeepSimple.Configuration/ConfigurationPath.cs:65-75 | `SkipLast(p)` is null exactly when `p` has no `:` |
| ConfigurationPath.SplitSkipLast | KeepSimple.Configuration/ConfigurationPath.cs:65-75 | the segments of a non-null `SkipLast(p)` are those of `p` without the last |
| ConfigurationPath.GetLastSegment | KeepSimple.Configuration/ConfigurationPath.cs:82-89 | `GetLast(p)` contains no `:`, and is `p` itself when `p` has none |
| ConfigurationPath.SkipLastGetLast | KeepSimple.Configuration/ConfigurationPath.cs:65-89 | when `SkipLast(p)` is not null, `SkipLast(p) + ":" + GetLast(p) == p` |
| ConfigurationPath.SplitInjective | KeepSimple.Configuration/ConfigurationPath.cs:52-58 | two paths with the same segments are equal |
| Configuration.Store.constructor | KeepSimple.Configuration/Configuration.cs:19-30 | a new, empty arena |
| Configuration.Store.NewConfiguration | KeepSimple.Configuration/Configuration.cs:24-30 | `new Configuration(name, parent)` appends a node with that name and parent and no children or values; the arena stays well formed |
| Configuration.Store.AddValue | KeepSimple.Configuration/Configuration.cs:36-61 | the segment loop (reuse a child, or create one whose parent is the current node) and the final `_values` write leave exactly the arena `Added(old, at, Split(path), value)`, still well formed |
| ConfigurationLaws.AddValueReadBack | KeepSimple.Configuration/Configuration.cs:36-79 | after `AddValue(p, v)`: `GetValue(p) == v`; no existing node changes except by those entries; exactly the missing intermediate nodes are created |
| ConfigurationLaws.AddValueOthersUnchanged | KeepSimple.Configuration/Configuration.cs:43-60 | `AddValue` changes no value at any other segment sequence |
| ConfigurationLaws.LookupAfterWalk | KeepSimple.Configuration/Configuration.cs:46-58 | the segment loop of `AddValue` only adds nodes without values, so every segment sequence reads as before |
| ConfigurationLaws.LookupAfterSet | KeepSimple.Configuration/Configuration.cs:60 | writing value `key` of the node `init` leads to changes what no other segment sequence reads |
| ConfigurationLaws.LastWriteWins | KeepSimple.Configuration/Configuration.cs:60 | after a sequence of writes, a path reads the last value written to it, or what it read before when none was written |
| ConfigurationLaws.AddedAllAppend | KeepSimple.Configuration/Configuration.cs:36-61 | applying two batches of writes in turn is applying their concatenation |
| Configuration.Store.AddValues | KeepSimple.Configuration/Configuration.cs:36-61 | applying writes one `AddValue` at a time gives `AddedAll` of them |
| Configuration.Store.GetChildren | KeepSimple.Configuration/Configuration.cs:103-128 | walks the segments through the children dictionaries in order; null at the first missing segment, otherwise the node reached |
| Configuration.Store.GetValue | KeepSimple.Configuration/Configuration.cs:63-79 | the value named `GetLast(path)` on the node `SkipLast(path)` leads to (the node itself for one segment); null when the node or the value is missing |
| Configuration.Store.RemoveValue | KeepSimple.Configuration/Configuration.cs:81-101 | true exactly when the owning node resolves, even when the value was absent; the only change is that value's removal from that node |
| ConfigurationLaws.RemoveValueLaws | KeepSimple.Configuration/Configuration.cs:81-101 | after the removal the value reads null, every other path reads as before, and no node or child entry is removed |
| ConfigurationLaws.RemovedValueIsGone | KeepSimple.Configuration/Configuration.cs:86-98 | after `RemoveValue(p)` on a resolving owner, `GetValue(p)` is null |
| ConfigurationLaws.LookupAfterRemove | KeepSimple.Configuration/Configuration.cs:96 | removing value `key` of the node `init` leads to changes what no other segment sequence reads |
| ConfigurationLaws.RemoveValueKeepsOthers | KeepSimple.Configuration/Configuration.cs:81-101 | after `RemoveValue(p)`, `GetValue(q)` is unchanged for every other path `q` |
| Configuration.Store.RemoveChildren | KeepSimple.Configuration/Configuration.cs:130-140 | false when there is no subtree at the path; otherwise the subtree's own parent loses the child entry named `GetLast(path)`, and nothing else changes |
| ConfigurationLaws.ResolveShrinks | KeepSimple.Configuration/Configuration.cs:103-128 | dropping child entries cannot make a path lead somewhere new |
| ConfigurationLaws.RemoveChildrenLaws | KeepSimple.Configuration/Configuration.cs:130-140 | after `RemoveChildren(p)`, `GetChildren(p)` is null, no value below `p` reads any more, the arena keeps its size and the detached node itself is unchanged |
| ConfigurationLaws.DetachedPathGone | KeepSimple.Configuration/Configuration.cs:132-136 | once the parent has lost its entry for the last segment, the removed path no longer resolves |
| ConfigurationLaws.BelowUnresolvedGone | KeepSimple.Configuration/Configuration.cs:63-79 | no value lies below a prefix that does not resolve |
| ConfigurationLaws.PathOfResolved | KeepSimple.Configuration/Configuration.cs:159-175 | `Path` of a node reached by two or more segments is its parent's segment, `:`, and its own |
| ConfigurationLaws.PathDropsAncestors | KeepSimple.Configuration/Configuration.cs:159-175 | after `AddValue("a:b:c:v", "x")` under an unnamed root, the `Path` of the node at `a:b:c` is `b:c`, while its absolute path is `a:b:c` |
| ConfigurationLaws.AbsolutePathIsResolvedPath | KeepSimple.Configuration/IConfiguration.cs:54-57 | the absolute path the interface documents is, for every node under an unnamed root, the path that leads to it |
| ConfigurationLaws.SplitABCV | KeepSimple.Configuration/ConfigurationPath.cs:52-58 | `a:b:c:v` splits into `a`, `b`, `c`, `v` |
| ConfigurationGet.Get | KeepSimple.Configuration/ConfigurationGetExtensions.cs:289-301 | `Get<T>` sends a value type or `string` to `BindValueType` and everything else to `BindObjectType`; the result is the `Bound` function's |
| ConfigurationGetLaws.ValueTypeBinding | KeepSimple.Configuration/ConfigurationGetExtensions.cs:43-60 | a scalar or nullable target is the converted `GetValue(path)`, or the default when that fails; a nullable target whose value is missing or empty is null, whatever the default |
| ConfigurationGetLaws.GetAfterAddValue | KeepSimple.Configuration/ConfigurationGetExtensions.cs:100-107 | after `AddValue(path, v)`, a scalar `Get` is `v` converted, or the default when it does not convert |
| ConfigurationGetLaws.StringTarget | KeepSimple.Configuration/ConfigurationGetExtensions.cs:62-68 | a `string` target is the value at the path unchanged, or `""` when there is none; it never falls back to the default |
| ConfigurationGetLaws.ObjectTarget | KeepSimple.Configuration/ConfigurationGetExtensions.cs:47-51 | `TryConvertValue(object, x)` is the raw string; `Get<object>` never reaches it and is a fresh object |
| ConfigurationGet.BindObjectType | KeepSimple.Configuration/ConfigurationGetExtensions.cs:109-131 | dispatch in this order: abstract or interface, array, dictionary, collection, then `CreateInstance` followed by `BindInstance` |
| ConfigurationGetLaws.AbstractTarget | KeepSimple.Configuration/ConfigurationGetExtensions.cs:113-114 | an abstract or interface target is the default, whatever the tree holds |
| ConfigurationGetLaws.ContainerWithoutSubtree | KeepSimple.Configuration/ConfigurationGetExtensions.cs:116-125 | with no subtree at the path, an array or collection target, or a dictionary target with a supported key type, dereferences null; a dictionary or collection class without a parameterless constructor fails with `InvalidOperationException` first |
| ConfigurationGetLaws.ContainerWithoutConstructor | KeepSimple.Configuration/ConfigurationGetExtensions.cs:30-32 | a collection target, or a dictionary target with a supported key type, whose class has no public parameterless constructor raises `InvalidOperationException` whatever the tree holds |
| ConfigurationGet.BindInstance | KeepSimple.Configuration/ConfigurationGetExtensions.cs:133-166 | the member loop gives the `Populated` function's result |
| ConfigurationGet.BindMember | KeepSimple.Configuration/ConfigurationGetExtensions.cs:137-164 | one turn of the member loop gives the `BoundMember` function's result |
| ConfigurationGetLaws.MembersBoundIndependently | KeepSimple.Configuration/ConfigurationGetExtensions.cs:135-165 | members are bound one by one: binding fails exactly when a member fails, with the first failing member's exception; otherwise each slot holds what its member is assigned, or its prior value |
| ConfigurationGetLaws.BoundMembersFailure | KeepSimple.Configuration/ConfigurationGetExtensions.cs:135-165 | the member loop fails exactly when some member fails, with the exception of the first failing member |
| ConfigurationGetLaws.BoundMembersSlots | KeepSimple.Configuration/ConfigurationGetExtensions.cs:135-165 | after a member loop that succeeds, every member before `k` was assigned, and each slot holds its assignment or its prior value |
| ConfigurationGetLaws.CompositeBinding | KeepSimple.Configuration/ConfigurationGetExtensions.cs:30-42 | a composite with a public parameterless constructor is its instance with every member bound from the subtree; without one it is `InvalidOperationException` |
| ConfigurationGetLaws.CompositeWithoutSubtree | KeepSimple.Configuration/ConfigurationGetExtensions.cs:127-158 | with no subtree, a composite binds only when no member has a setter that is not private; otherwise the first such member fails, with the creation error of a nested type that cannot be created, else `NullReferenceException` |
| ConfigurationGetLaws.NestedMemberCreatedFirst | KeepSimple.Configuration/ConfigurationGetExtensions.cs:155-164 | a nested member's type is created before its child is looked up, so a type that cannot be created fails even without that child |
| ConfigurationGetLaws.InterfaceMemberFails | KeepSimple.Configuration/ConfigurationGetExtensions.cs:17-20 | a settable member typed as an interface makes its owner fail with `InvalidOperationException` |
| ConfigurationGetLaws.ObjectMemberIsEmpty | KeepSimple.Configuration/ConfigurationGetExtensions.cs:155-164 | a settable `object` member with an existing child becomes a fresh object |
| ConfigurationGetLaws.ContainerMemberBinding | KeepSimple.Configuration/ConfigurationGetExtensions.cs:155-164 | a settable dictionary or collection member with an existing child gets a fresh instance with no entries or items whose own settable properties are bound from the child; it fails exactly when one of them fails, with the first one's exception, and without a parameterless constructor it raises `InvalidOperationException` |
| ConfigurationGetLaws.IndexerMemberFails | KeepSimple.Configuration/ConfigurationGetExtensions.cs:140-145 | a settable indexer read from a single value raises `TargetParameterCountException` exactly when its value converts; a `string` indexer always raises it |
| ConfigurationGetLaws.StringDictionaryMemberFails | KeepSimple.Configuration/ConfigurationGetExtensions.cs:155-164 | a class with a settable `Dictionary<string, string>` member fails with `TargetParameterCountException` whenever the child for that member exists |
| ConfigurationGetLaws.MultiDimensionalArrayMember | KeepSimple.Configuration/ConfigurationGetExtensions.cs:147-153 | a settable multi-dimensional array member with an existing child raises the `ArgumentException` of `SetValue` once the one-dimensional array is built, or the error of building it |
| ConfigurationGet.BindElement | KeepSimple.Configuration/ConfigurationGetExtensions.cs:193-194 | `CreateInstance` then `BindInstance` from one child gives the `NewBound` function's result |
| ConfigurationGet.BindArray | KeepSimple.Configuration/ConfigurationGetExtensions.cs:168-203 | the array binding gives the `BoundArray` function's result |
| ConfigurationGet.FillScalars | KeepSimple.Configuration/ConfigurationGetExtensions.cs:179-187 | the indexed `for` loop leaves slot `i` holding the value named `i` converted, or what was there |
| ConfigurationGet.FillElements | KeepSimple.Configuration/ConfigurationGetExtensions.cs:188-200 | the `foreach` loop over the children puts the instance bound from child `i` in slot `i`; it stops at the first failure |
| ConfigurationGetLaws.ScalarElementsAt | KeepSimple.Configuration/ConfigurationGetExtensions.cs:181-186 | element `i` of a scalar array is the value named `i` converted, or the element default |
| ConfigurationGetLaws.ChildElementsAt | KeepSimple.Configuration/ConfigurationGetExtensions.cs:190-199 | binding one instance per child succeeds exactly when every child binds; element `i` is then child `i`'s instance, and otherwise the error is the first failing child's |
| ConfigurationGetLaws.ChildElementsSuccess | KeepSimple.Configuration/ConfigurationGetExtensions.cs:190-199 | when every child binds, element `i` is the instance bound from the `i`-th child |
| ConfigurationGetLaws.ChildElementsFailure | KeepSimple.Configuration/ConfigurationGetExtensions.cs:190-199 | a failure is that of the first child that fails to bind, every child before it binding |
| ConfigurationGetLaws.ScalarArrayBinding | KeepSimple.Configuration/ConfigurationGetExtensions.cs:171-186 | a scalar array's length is the subtree's `Values.Count`; element `i` is read from key `i` and keeps the default when that is missing or does not convert |
| ConfigurationGetLaws.CompositeArrayBinding | KeepSimple.Configuration/ConfigurationGetExtensions.cs:171-200 | an array of composites has one element per child, in enumeration order, and fails exactly when one of them fails |
| ConfigurationGetLaws.MultiDimensionalArray | KeepSimple.Configuration/ConfigurationGetExtensions.cs:116-117 | a multi-dimensional array target never binds: once `BindArray` succeeds, the cast of its one-dimensional result raises `InvalidCastException`, and a scalar element type always gets that far when the subtree exists |
| ConfigurationGet.BindDictionary | KeepSimple.Configuration/ConfigurationGetExtensions.cs:205-247 | the dictionary binding gives the `BoundDictionary` function's result: the key type is checked first, then the class is created, then the subtree is read |
| ConfigurationGetLaws.DictionaryBinding | KeepSimple.Configuration/ConfigurationGetExtensions.cs:205-247 | a dictionary target with a supported key type holds exactly the keys that some value (scalar values) or some child (otherwise) converts to, fails exactly when a pair has a null key or a child does not bind, and leaves the class's own properties as constructed |
| ConfigurationGet.InsertValues | KeepSimple.Configuration/ConfigurationGetExtensions.cs:223-230 | the loop over `Values` gives the `ScalarEntries` function's result |
| ConfigurationGet.InsertChildren | KeepSimple.Configuration/ConfigurationGetExtensions.cs:234-243 | the loop over `Children` gives the `ChildEntries` function's result |
| ConfigurationGetLaws.ScalarEntriesFailure | KeepSimple.Configuration/ConfigurationGetExtensions.cs:223-230 | a dictionary with scalar values fails with `ArgumentNullException` exactly when some pair converts to a null key; the caller sees it wrapped in `TargetInvocationException` |
| ConfigurationGetLaws.ScalarEntriesContent | KeepSimple.Configuration/ConfigurationGetExtensions.cs:223-230 | a key is present exactly when some value's name converts to it and the value converts too; it holds the value of the last such pair |
| ConfigurationGetLaws.ScalarEntriesKeys | KeepSimple.Configuration/ConfigurationGetExtensions.cs:223-230 | a key is present exactly when some value makes an entry under it |
| ConfigurationGetLaws.ScalarEntriesValues | KeepSimple.Configuration/ConfigurationGetExtensions.cs:223-230 | each present key holds the converted value of the last pair that makes it |
| ConfigurationGetLaws.ChildEntriesContent | KeepSimple.Configuration/ConfigurationGetExtensions.cs:234-243 | binding fails exactly when a child whose name converts fails; otherwise a key is present exactly when some child's name converts to it, and it holds the instance bound from the last such child |
| ConfigurationGetLaws.ChildEntriesFailure | KeepSimple.Configuration/ConfigurationGetExtensions.cs:234-243 | binding fails exactly when some child whose name converts has a null key or does not bind |
| ConfigurationGetLaws.ChildEntriesKeys | KeepSimple.Configuration/ConfigurationGetExtensions.cs:234-243 | a key is present exactly when some child's name converts to it |
| ConfigurationGetLaws.ChildEntriesValues | KeepSimple.Configuration/ConfigurationGetExtensions.cs:234-243 | each present key holds the instance bound from the last child whose name converts to it |
| ConfigurationGetLaws.UnsupportedKeyType | KeepSimple.Configuration/ConfigurationGetExtensions.cs:211-213 | a key type that is neither a value type nor `string` gives null, even for a class without a parameterless constructor |
| ConfigurationGet.BindCollection | KeepSimple.Configuration/ConfigurationGetExtensions.cs:249-278 | the collection binding gives the `BoundCollection` function's result: the class is created before the subtree is read |
| ConfigurationGetLaws.KeepConvertedAll | KeepSimple.Configuration/ConfigurationGetExtensions.cs:260-264 | keeping the values that convert drops only values that do not convert |
| ConfigurationGetLaws.ScalarItemsAreKept | KeepSimple.Configuration/ConfigurationGetExtensions.cs:260-264 | the items of a scalar collection are the subtree's values that convert, in enumeration order |
| ConfigurationGetLaws.ScalarCollectionBinding | KeepSimple.Configuration/ConfigurationGetExtensions.cs:258-264 | a scalar collection holds the converted values in enumeration order, one item per value when all convert; the class's own properties stay as constructed |
| ConfigurationGetLaws.CompositeCollectionBinding | KeepSimple.Configuration/ConfigurationGetExtensions.cs:266-275 | a collection of composites gets one item per child, in enumeration order, and fails exactly when one of them fails |
| CommandLine.GetValidatedSwitchMappingsCopy | KeepSimple.Configuration/ConfigurationCommandLineExtensions.cs:131-154 | the copy loop gives the `ValidatedSwitches` function's result |
| CommandLine.ValidatedSwitchesContent | KeepSimple.Configuration/ConfigurationCommandLineExtensions.cs:136-153 | the copy maps each case-folded key to its value and holds nothing else; a failure is `ArgumentException` |
| CommandLine.ValidatedSwitchesLaw | KeepSimple.Configuration/ConfigurationCommandLineExtensions.cs:140-148 | validation succeeds exactly when every key starts with `-` and no two keys are equal ignoring case |
| CommandLine.ValidatedSwitchesKeys | KeepSimple.Configuration/ConfigurationCommandLineExtensions.cs:136-153 | validation fails only with `ArgumentException`, and the copy's keys are the case-folded keys of the mapping |
| CommandLine.ValidatedSwitchesValues | KeepSimple.Configuration/ConfigurationCommandLineExtensions.cs:150 | each case-folded key of an accepted mapping holds its own value |
| CommandLine.ValidatedSwitchesSound | KeepSimple.Configuration/ConfigurationCommandLineExtensions.cs:140-148 | every key of an accepted mapping starts with `-`, and no two are equal ignoring case |
| CommandLine.ValidatedSwitchesComplete | KeepSimple.Configuration/ConfigurationCommandLineExtensions.cs:140-148 | a mapping whose keys all start with `-` and differ ignoring case is accepted |
| CommandLine.SwitchKeysStartWithDash | KeepSimple.Configuration/ConfigurationCommandLineExtensions.cs:140-150 | every key of a validated copy starts with `-` |
| CommandLine.ReadTurn | KeepSimple.Configuration/ConfigurationCommandLineExtensions.cs:46-123 | one turn of the enumerator loop: the turn `NextTurn` describes |
| CommandLine.AddCommandLine | KeepSimple.Configuration/ConfigurationCommandLineExtensions.cs:30-39 | null arguments add nothing; a bad mapping stops before any argument; otherwise the tree gets the writes of `CommandLineLoad`, in order |
| CommandLine.ReadArguments | KeepSimple.Configuration/ConfigurationCommandLineExtensions.cs:42-128 | the `while (MoveNext())` loop applies the pairs of `ArgumentsFrom` with `AddValue`, in order, and stops at the first `FormatException` |
| CommandLine.ArgumentsStep | KeepSimple.Configuration/ConfigurationCommandLineExtensions.cs:44-127 | what a skipped, paired or failing turn adds to the writes read so far |
| CommandLine.NullArguments | KeepSimple.Configuration/ConfigurationCommandLineExtensions.cs:32-33 | a null argument list adds nothing |
| CommandLine.BadMappingsWriteNothing | KeepSimple.Configuration/ConfigurationCommandLineExtensions.cs:36-39 | an invalid switch mapping raises `ArgumentException` before any argument is read |
| CommandLine.SlashIsDoubleDash | KeepSimple.Configuration/ConfigurationCommandLineExtensions.cs:57-63 | `/x` is read exactly as `--x` |
| CommandLine.LongSwitchWithValue | KeepSimple.Configuration/ConfigurationCommandLineExtensions.cs:100-122 | an unmapped `--k=v` is the pair `k`, `v` with leading and trailing `"` trimmed |
| CommandLine.LongSwitchThenValue | KeepSimple.Configuration/ConfigurationCommandLineExtensions.cs:86-98 | an unmapped `--k` takes the next argument verbatim, and the next turn starts after it |
| CommandLine.DanglingSwitch | KeepSimple.Configuration/ConfigurationCommandLineExtensions.cs:91-96 | a switch in last position with no value is ignored |
| CommandLine.BareArgumentSkipped | KeepSimple.Configuration/ConfigurationCommandLineExtensions.cs:65-73 | an argument with neither a prefix nor `=` is skipped |
| CommandLine.UnprefixedPair | KeepSimple.Configuration/ConfigurationCommandLineExtensions.cs:100-122 | `k=v` without a prefix is accepted with the key before the first `=`; a validated mapping cannot rename it |
| CommandLine.UnmappedShortSwitchSkipped | KeepSimple.Configuration/ConfigurationCommandLineExtensions.cs:80-84 | an unmapped `-k` without `=` is skipped and does not consume the next argument |
| CommandLine.ShortSwitchFormatError | KeepSimple.Configuration/ConfigurationCommandLineExtensions.cs:109-113 | a turn raises `FormatException` exactly when it is a short switch with `=` whose key part no mapping names |
| CommandLine.MappedSwitch | KeepSimple.Configuration/ConfigurationCommandLineExtensions.cs:75-79 | a switch without `=` that a mapping names, ignoring case and including its dashes, takes the next argument as its value under the mapped key |
| CommandLine.LevelScenario | KeepSimple.Configuration/ConfigurationCommandLineExtensions.cs:30-127 | `--level=3 -x 5` with `-x` mapped to `ExtraLevel` writes `level = 3` and `ExtraLevel = 5`, and both read back |
| CommandLine.LevelSwitches | KeepSimple.Configuration/ConfigurationCommandLineExtensions.cs:136-153 | the mapping `-x` to `ExtraLevel` validates to the single key `-X` |
| CommandLine.LevelArguments | KeepSimple.Configuration/ConfigurationCommandLineExtensions.cs:42-127 | under that mapping, `--level=3 -x 5` reads the two pairs `level = 3`, then `ExtraLevel = 5` |
| CommandLine.LevelLoad | KeepSimple.Configuration/ConfigurationCommandLineExtensions.cs:30-127 | the whole load of `--level=3 -x 5` with that mapping writes those two pairs and raises nothing |
| Ini.ReadIniLine | KeepSimple.Configuration/ConfigurationIniExtensions.cs:34-71 | the classification of one line: the result of `Parsed` |
| Ini.AddIniLines | KeepSimple.Configuration/ConfigurationIniExtensions.cs:30-74 | the line loop applies the pairs of `IniLoad`, in order, with the running section prefix, and stops at the first `FormatException` |
| Ini.LinesStep | KeepSimple.Configuration/ConfigurationIniExtensions.cs:32-74 | what one line adds to the writes read so far |
| Ini.IniLoadIsReference | KeepSimple.Configuration/ConfigurationIniExtensions.cs:30-74 | the loop equals an independent reading: every assignment before the first unrecognised line, each keyed under the last header before it |
| Ini.LinesFromReference | KeepSimple.Configuration/ConfigurationIniExtensions.cs:30-74 | the loop from any line on completes the independent reading of the lines before it |
| Ini.ReferenceStep | KeepSimple.Configuration/ConfigurationIniExtensions.cs:30-74 | how the independent reading of `i + 1` lines extends that of `i` |
| Ini.FirstUnrecognized | KeepSimple.Configuration/ConfigurationIniExtensions.cs:58-62 | the first line without `=` that is not blank, a comment or a header, if any |
| Ini.IniFormatError | KeepSimple.Configuration/ConfigurationIniExtensions.cs:58-62 | a file raises `FormatException` exactly when one of its lines is unrecognised, and raises nothing else |
| Ini.SectionOfBeforeHeaders | KeepSimple.Configuration/ConfigurationIniExtensions.cs:30 | before the first header the prefix is empty |
| Ini.SectionOfAfterHeader | KeepSimple.Configuration/ConfigurationIniExtensions.cs:50-55 | a header `[s]` gives every later line the prefix `s:`, up to the next header |
| Ini.HeaderLine | KeepSimple.Configuration/ConfigurationIniExtensions.cs:34-55 | `[s]` with white space around it is the header of section `s` |
| Ini.CommentLine | KeepSimple.Configuration/ConfigurationIniExtensions.cs:34-47 | a line whose first non-blank character is `;`, `#` or `/` adds nothing |
| Ini.PaddedAssignment | KeepSimple.Configuration/ConfigurationIniExtensions.cs:34-71 | `name = value` with white space around either part is that pair, split at the first `=`, with the value unquoted |
| Ini.QuotesRemoved | KeepSimple.Configuration/ConfigurationIniExtensions.cs:68-71 | both quotes of a quoted value are removed, and nothing else |
| Ini.UnquotedLaw | KeepSimple.Configuration/ConfigurationIniExtensions.cs:68-71 | a value is either kept, or it is its result between two quotes |
| Strings.TrimLaw | KeepSimple.Configuration/ConfigurationIniExtensions.cs:35 | trimming leaves a contiguous part that neither starts nor ends with a trimmed character, removes only such characters, and removes everything exactly when all are such |
| Strings.TrimPadded | KeepSimple.Configuration/ConfigurationIniExtensions.cs:34-65 | trimming removes exactly the padding around a string that is already trimmed |
| Strings.TrimIdempotent | KeepSimple.Configuration/ConfigurationIniExtensions.cs:64-65 | trimming twice is trimming once |
| Strings.IndexOf | KeepSimple.Configuration/ConfigurationIniExtensions.cs:58 | the position of the first occurrence of the character, or none when it does not occur |
| Json.JsonVisitor.constructor | KeepSimple.Configuration/ConfigurationJsonExtensions.cs:32-33 | the visit starts with an empty context and an empty `jsonPath` |
| Json.JsonVisitor.EnterContext | KeepSimple.Configuration/ConfigurationJsonExtensions.cs:54-58 | pushes the name; `jsonPath` is then the combined context |
| Json.JsonVisitor.ExitContext | KeepSimple.Configuration/ConfigurationJsonExtensions.cs:110-114 | pops the top name; `jsonPath` is then the combined context |
| Json.JsonVisitor.VisitToken | KeepSimple.Configuration/ConfigurationJsonExtensions.cs:65-90 | dispatches on the token type and applies the writes of `Visit`; an unsupported type raises `FormatException`; without an exception, the context and `jsonPath` are as before |
| Json.JsonVisitor.VisitJObject | KeepSimple.Configuration/ConfigurationJsonExtensions.cs:44-63 | each property is visited with its name pushed, and the stack is balanced after each |
| Json.JsonVisitor.VisitArray | KeepSimple.Configuration/ConfigurationJsonExtensions.cs:92-100 | each item is visited with its index pushed as a decimal numeral, and the stack is balanced after each |
| Json.JsonVisitor.VisitPrimitive | KeepSimple.Configuration/ConfigurationJsonExtensions.cs:102-108 | one `AddValue` under the current `jsonPath` |
| Json.AddJsonObject | KeepSimple.Configuration/ConfigurationJsonExtensions.cs:30-42 | the root object is visited with a new visitor; the tree gets the writes of `JsonLoad` |
| Json.PropertiesStep | KeepSimple.Configuration/ConfigurationJsonExtensions.cs:46-51 | what one property adds to the writes visited so far |
| Json.ItemsStep | KeepSimple.Configuration/ConfigurationJsonExtensions.cs:94-99 | what one item adds to the writes visited so far |
| Numerals.NatToString | KeepSimple.Configuration/ConfigurationJsonExtensions.cs:96 | `index.ToString()`: decimal digits, with no leading zero |
| Numerals.NatToStringValue | KeepSimple.Configuration/ConfigurationJsonExtensions.cs:96 | the numeral's digits spell the index |
| Numerals.NatToStringInjective | KeepSimple.Configuration/ConfigurationJsonExtensions.cs:94-99 | different indices give different numerals, so array items get distinct keys |
| JsonLaws.VisitLeaves | KeepSimple.Configuration/ConfigurationJsonExtensions.cs:65-108 | a document with only supported tokens writes each primitive leaf once, in document order, under the combined property names and indices leading to it |
| JsonLaws.VisitError | KeepSimple.Configuration/ConfigurationJsonExtensions.cs:87-88 | a visit raises `FormatException` exactly when some nested token has an unsupported type |
| JsonLaws.DocumentLoad | KeepSimple.Configuration/ConfigurationJsonExtensions.cs:30-114 | a whole document writes one pair per primitive leaf, keyed by its path from the root; with an unsupported token it writes the leaves before that token and raises `FormatException` |
| JsonLaws.VisitReached | KeepSimple.Configuration/ConfigurationJsonExtensions.cs:65-108 | a visit writes the leaves reached before the first unsupported token, keyed by their paths, and fails with `FormatException` exactly when there is such a token |
| JsonLaws.ReachedAll | KeepSimple.Configuration/ConfigurationJsonExtensions.cs:65-108 | in a document with only supported tokens every leaf is reached |
| JsonLaws.EmptyContainers | KeepSimple.Configuration/ConfigurationJsonExtensions.cs:44-100 | empty objects and empty arrays write nothing |
| JsonLaws.NestedDocument | KeepSimple.Configuration/ConfigurationJsonExtensions.cs:44-114 | `{"a":{"b":"1"},"c":["x","y"]}` writes `a:b`, `c:0`, `c:1`, in that order |
| Xml.AddNamePrefix | KeepSimple.Configuration/ConfigurationXmlExtensions.cs:173-194 | the stack after the `Name` check: the `NamePrefixed` function's result |
| Xml.AddAttributePair | KeepSimple.Configuration/ConfigurationXmlExtensions.cs:198-212 | one `AddValue` of the attribute under the prefix; the stack is as before |
| Xml.ProcessAttributes | KeepSimple.Configuration/ConfigurationXmlExtensions.cs:147-169 | applies the action to each attribute in order and stops with `FormatException` at the first one with a namespace |
| Xml.AttributesNext | KeepSimple.Configuration/ConfigurationXmlExtensions.cs:154-165 | what the attribute at `i` adds to the stack and the writes of the attributes before it |
| Xml.AttributesNameWritesNothing | KeepSimple.Configuration/ConfigurationXmlExtensions.cs:173-194 | the `Name` pass writes nothing |
| Xml.RootIndex | KeepSimple.Configuration/ConfigurationXmlExtensions.cs:128-138 | the first node that is not a declaration or processing instruction, or the end |
| Xml.SkipUntilRootElement | KeepSimple.Configuration/ConfigurationXmlExtensions.cs:128-138 | the reader stops at `RootIndex` |
| Xml.ReadNode | KeepSimple.Configuration/ConfigurationXmlExtensions.cs:62-122 | one turn of the `switch`: the stack, the remembered node type and the writes of `NodeStep` |
| Xml.ReadElement | KeepSimple.Configuration/ConfigurationXmlExtensions.cs:64-75 | an element pushes its local name, runs the `Name` pass and then the pair pass, stops at the first exception, and pops again when it is self-closing |
| Xml.NodesStep | KeepSimple.Configuration/ConfigurationXmlExtensions.cs:60-123 | what one node adds to the writes read so far |
| Xml.ReadNodes | KeepSimple.Configuration/ConfigurationXmlExtensions.cs:60-123 | the `while (reader.Read())` loop applies the writes of `NodesFrom`, in order, and stops at the first exception |
| Xml.RootLoad | KeepSimple.Configuration/ConfigurationXmlExtensions.cs:53-59 | the root's `Name` pass writes nothing; a namespace error there ends the load; otherwise the load is the root's pair pass followed by the nodes after the root |
| Xml.AddXmlNodes | KeepSimple.Configuration/ConfigurationXmlExtensions.cs:51-123 | skips the prolog, processes the root's attributes with an empty stack, reads the rest; the tree gets the writes of `XmlLoad` |
| XmlLaws.AttributePairsLaw | KeepSimple.Configuration/ConfigurationXmlExtensions.cs:198-212 | without namespaces, each attribute `a` writes `(Combine(prefix + [a]), value)`, in order, and the stack is unchanged |
| XmlLaws.NamespaceError | KeepSimple.Configuration/ConfigurationXmlExtensions.cs:159-162 | either pass raises `FormatException` exactly when some attribute has a namespace |
| XmlLaws.NamePrefixLaw | KeepSimple.Configuration/ConfigurationXmlExtensions.cs:179-193 | a `Name` attribute, in any case, turns the top prefix `t` into `t:value`, or is pushed on an empty stack; any other attribute leaves the stack |
| XmlLaws.NamePassKeepsDepth | KeepSimple.Configuration/ConfigurationXmlExtensions.cs:185-189 | the `Name` pass keeps the depth of a non-empty stack and every prefix below the top |
| XmlLaws.NamedElement | KeepSimple.Configuration/ConfigurationXmlExtensions.cs:64-212 | an element with a `Name` attribute renames its prefix and also writes that attribute as an ordinary pair |
| XmlLaws.SelfClosingElement | KeepSimple.Configuration/ConfigurationXmlExtensions.cs:64-122 | a self-closing element restores the stack, counts as ended, and writes only its attributes |
| XmlLaws.EmptyElement | KeepSimple.Configuration/ConfigurationXmlExtensions.cs:77-91 | an end right after its start writes the empty value under the element's path and pops it |
| XmlLaws.TextElement | KeepSimple.Configuration/ConfigurationXmlExtensions.cs:93-101 | text or CDATA inside an element is written under the element's path, and the end adds no empty value |
| XmlLaws.EndElementPops | KeepSimple.Configuration/ConfigurationXmlExtensions.cs:77-91 | an end element pops a non-empty stack and ignores an empty one; it writes exactly when it directly follows a start |
| XmlLaws.UnsupportedNode | KeepSimple.Configuration/ConfigurationXmlExtensions.cs:109-110 | an unsupported node type raises `FormatException` and ends the load |
| XmlLaws.RootNameIgnored | KeepSimple.Configuration/ConfigurationXmlExtensions.cs:53-57 | the root's local name never reaches a key: renaming the root changes nothing |
| XmlLaws.AppDocument | KeepSimple.Configuration/ConfigurationXmlExtensions.cs:51-123 | `<config Name="app"><port>80</port><flag/></config>` writes `app:Name = app` and `app:port = 80` only |
| XmlLaws.AppRoot | KeepSimple.Configuration/ConfigurationXmlExtensions.cs:53-59 | the root `<config Name="app">` turns the empty stack into `app` and writes `app:Name = app` |
| XmlLaws.AppBody | KeepSimple.Configuration/ConfigurationXmlExtensions.cs:60-123 | the nodes after that root write only `app:port = 80` |

## Left out

- Null arguments. The `ArgumentNullException` guards of `Combine`, `Split`, `SkipLast`, `GetLast`, `AddValue`, `GetChildren`, `RemoveValue` and `Get` are not modelled, because Dafny strings and sequences cannot be null. The null argument list of the command-line source is modelled with `Option`.
- Dictionary storage order. Children and values are enumerated in insertion order. .NET `Dictionary` reuses freed slots after `Remove`, and the model does not, so enumeration after a removal may differ.
- Aliasing through references. A node is an index into one arena, not a heap object. Detached subtrees stay in the arena, as they stay reachable in C# through old references.
- File and stream I/O. `FileStream`, `StreamReader`, `JObject.Load` and `XmlReader.Create` are outside the model. The sources take their input as already read: lines, a JSON token tree, or the reader's node sequence.
- `JValue.ToString(CultureInfo.InvariantCulture)` formatting. A primitive JSON token carries its text.
- `XmlReader` tokenising, `DtdProcessing.Prohibit` and the `IgnoreComments`/`IgnoreWhitespace` settings. The reader's nodes are given as a sequence, as the reader would report them.
- `GetLineInfo` and all exception messages. Exceptions are values without text.
- `VisitProperty` is not a separate method: its one call is inlined into `Json.JsonVisitor.VisitJObject`.
- Json.JsonVisitor.ExitContext: requires a non-empty context, because `Stack.Pop` on an empty stack throws. The visitor only pops after a push.
- `TypeDescriptor` converters, culture-specific and floating-point parsing. Conversion is the parameter `conv`, a partial function from a scalar type and an optional string to a value.
- Reflection. `GetProperties`, `FindOpenGenericInterface` and `Activator.CreateInstance` are replaced by the closed `Shape` datatype with explicit member lists, in the order `GetProperties` reports them. An exception thrown by a constructor itself is not modelled.
- `GetDeclaredProperty("Item")`, `GetDeclaredMethod("Add")` and `GenericTypeArguments` of the target class. The model assumes the dictionary and collection class declares its own indexer and `Add` and is generic itself. A class that inherits them, or that is not generic, makes the source raise `NullReferenceException` or `IndexOutOfRangeException`; the model does not raise these.
- Exception wrapping. The indexer and `Add` are invoked through reflection, so an exception they throw reaches the caller inside a `TargetInvocationException`. The model returns the inner exception; for the dictionary indexer that is `ArgumentNull`.
- Recursive target types. A `Shape` is a finite tree, so a type that contains itself is not expressible.
- The item setter and the `Add` method are modelled by their effect on a map or a sequence. An item setter that throws for a reason other than a null key is not modelled.
- Array sizes and element types beyond one dimension: only the rank is modelled. A multi-dimensional target or member gets the one-dimensional array `BindArray` builds, which does not fit it (`TypeMismatch`: `InvalidCastException` for a target, `ArgumentException` for a member). `NotSupportedException` comes only from `CreateInstance` of a multi-dimensional array type that is itself an array element, a dictionary value or a collection item.
- A missing subtree for a top-level array, dictionary, collection or composite target. The source dereferences null there. The model returns the error `NullReference` instead of excluding the case with a precondition (`ConfigurationGetLaws.ContainerWithoutSubtree`, `ConfigurationGetLaws.CompositeWithoutSubtree`).
- `OrdinalIgnoreCase` is modelled for ASCII letters only (`Strings.Fold`). Culture-sensitive `StartsWith` is modelled as ordinal.
- `ToString` of `Configuration` (Configuration.cs:142-148) is display text only.
- ConfigurationEnvExtensions.cs is not part of this model. It forwards environment variables to `AddValue` and has no logic of its own.
- ConfigurationBuilder.cs is not part of this model. It only holds a root `Configuration`.
- The public wrappers `AddCommandLine`, `AddIniFile`, `AddJsonFile` and `AddXmlFile` only check for null and forward to their internal methods. They are not modelled separately.

## Findings

| source | as written | input that shows it | evidently intended | confidence | as-written member | corrected member |
|---|---|---|---|---|---|---|
| KeepSimple.Configuration/Configuration.cs:159-175 | `Path` is the parent's `Name`, `:` and the node's own name, so every ancestor above the parent is dropped | `AddValue("a:b:c:v", "x")` on a root; the node at `a:b:c` reports `Path` `b:c` | the absolute path within the configuration, as IConfiguration.cs:55 documents: `a:b:c` | not executed | ConfigurationLaws.PathDropsAncestors | ConfigurationLaws.AbsolutePathIsResolvedPath |
