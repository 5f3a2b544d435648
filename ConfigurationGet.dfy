/**
 * The binder `Get<T>`: it reads a value or a subtree of the configuration
 * tree into an object of the target type `T`.
 *
 * Reflection is replaced by a closed description of the target type, a
 * `Shape`; the objects the binder creates are `Value`s; the culture-invariant
 * `TypeConverter` is the function parameter `conv`.  Every exception the
 * binder can raise is a `BindError`.
 *
 * The `Bound...` functions say what each binder routine computes; the methods
 * named after the routines of the program do the same work with loops and are
 * proved to compute those functions.
 */
module ConfigurationGet {
  import opened Wrappers
  import opened ConfigurationPath
  import opened Configuration
  import opened Numerals

  // ---------------------------------------------------------------------------
  // Types, objects and errors

  /** A type converted from a string: `string`, or a value type (a number, an enum, a struct) named by its type name. */
  datatype ScalarType = StringType | ValueType(name: string)

  /** The run-time type the binder dispatches on. */
  datatype Shape =
    | Scalar(t: ScalarType)                 // a value type or `string`
    | Nullable(underlying: ScalarType)      // `Nullable<U>`
    | Object                                // `object` itself
    | Abstract                              // an interface or an abstract class
    | Array(element: Shape, rank: nat)      // `E[]`, `E[,]`, ...
    // a class implementing `IDictionary<K, V>`, with its own public properties
    | Dictionary(key: Shape, value: Shape, members: seq<Member>, hasDefaultConstructor: bool)
    // a class implementing `ICollection<I>` but not `IDictionary`, with its own public properties
    | Collection(item: Shape, members: seq<Member>, hasDefaultConstructor: bool)
    | Composite(members: seq<Member>, hasDefaultConstructor: bool)  // any other class

  /**
   * A public instance property: its name, its type, whether it has a setter
   * that is not private (a `protected` or `internal` setter counts), whether
   * it is an indexer (`Item` of a dictionary or a list), and the value the
   * constructor leaves in it.
   */
  datatype Member = Member(name: string, shape: Shape, settable: bool, indexer: bool, initial: Value)

  /** An object the binder hands back. */
  datatype Value =
    | NullValue
    | Text(text: string)                          // a `string`
    | Zero(typeName: string)                      // `default(U)` of a value type `U`
    | Converted(t: ScalarType, canonical: string) // what a converter produced
    | ArrayValue(elements: seq<Value>)
    | DictionaryValue(entries: map<Value, Value>, fields: seq<Value>)  // its entries, and one slot per member
    | CollectionValue(items: seq<Value>, fields: seq<Value>)         // its items, and one slot per member
    | ObjectValue(fields: seq<Value>)             // one slot per member of the class, in member order

  /** The exceptions the binder raises. */
  datatype BindError =
    | InvalidOperation  // `CreateInstance` of an interface, an abstract type, or a type without a public parameterless constructor
    | NotSupported      // `CreateInstance` of a multi-dimensional array type
    | NullReference     // a binder routine dereferences the missing subtree of a top-level target
    | TypeMismatch      // a one-dimensional array stored where a multi-dimensional one is expected
    | ArgumentNull      // a dictionary key that converts to null (the indexer is invoked by reflection, so it arrives wrapped in `TargetInvocationException`)
    | ParameterCount    // `SetValue` without an index on an indexer (`TargetParameterCountException`)

  /** `TypeDescriptor.GetConverter(t).ConvertFromInvariantString(s)` for a value type `t`: `None` when the converter cannot convert or throws. */
  type Converter = (ScalarType, Option<string>) -> Option<Value>

  /** `IsValueType || == typeof(string)`: the targets read from a single value. */
  predicate IsScalar(s: Shape)
  {
    s.Scalar? || s.Nullable?
  }

  /** The element with which `Array.CreateInstance` fills a new array. */
  function DefaultOf(s: Shape): Value
  {
    match s
    case Scalar(ValueType(name)) => Zero(name)
    case _ => NullValue
  }

  /** The shapes whose public properties `BindInstance` enumerates: `object` and arrays have none it can set. */
  predicate HasMembers(s: Shape)
  {
    s.Composite? || s.Dictionary? || s.Collection?
  }

  /** The objects that carry one slot per property of their type. */
  predicate HasFields(v: Value)
  {
    v.ObjectValue? || v.DictionaryValue? || v.CollectionValue?
  }

  // ---------------------------------------------------------------------------
  // Helpers of the binder

  /**
   * The converter of `t` applied to `value`: `StringConverter` hands a string
   * back as it is and turns null into the empty string; a value type goes to `conv`.
   */
  function ConvertScalar(t: ScalarType, value: Option<string>, conv: Converter): Option<Value>
  {
    match t
    case StringType => Some(Text(value.GetOr("")))
    case ValueType(_) => conv(t, value)
  }

  /** `TryConvertValue`: the converted object, or `None` when conversion fails. */
  function TryConvertValue(s: Shape, value: Option<string>, conv: Converter): Option<Value>
  {
    match s
    case Object => Some(if value.Some? then Text(value.value) else NullValue)
    case Nullable(u) => if value.None? || value.value == "" then Some(NullValue) else ConvertScalar(u, value, conv)
    case Scalar(t) => ConvertScalar(t, value, conv)
    case _ => None
  }

  /** The value every member holds right after construction. */
  function Initials(members: seq<Member>): seq<Value>
  {
    seq(|members|, i requires 0 <= i < |members| => members[i].initial)
  }

  /** `CreateInstance` (its guards only): the fresh object, or the exception. */
  function CreateInstance(s: Shape): Result<Value, BindError>
  {
    match s
    case Abstract => Failure(InvalidOperation)
    case Array(_, rank) => if rank > 1 then Failure(NotSupported) else Success(ArrayValue([]))
    case Composite(members, hasDefaultConstructor) =>
      if hasDefaultConstructor then Success(ObjectValue(Initials(members))) else Failure(InvalidOperation)
    case Object => Success(ObjectValue([]))
    case Dictionary(_, _, members, hasDefaultConstructor) =>
      if hasDefaultConstructor then Success(DictionaryValue(map[], Initials(members))) else Failure(InvalidOperation)
    case Collection(_, members, hasDefaultConstructor) =>
      if hasDefaultConstructor then Success(CollectionValue([], Initials(members))) else Failure(InvalidOperation)
    case Scalar(_) => Failure(InvalidOperation)    // no value type below declares a parameterless constructor; string has none
    case Nullable(_) => Failure(InvalidOperation)
  }

  /** `BindValueType`: the converted value at `path`, or `defaultValue` when conversion fails. */
  function BindValueType(nodes: seq<Node>, at: NodeId, path: string, s: Shape, defaultValue: Value, conv: Converter): Value
  {
    TryConvertValue(s, ValueAt(nodes, at, path), conv).GetOr(defaultValue)
  }

  // ---------------------------------------------------------------------------
  // What each binder routine computes

  /** The `i`-th child of `node` in enumeration order (`Children.Values`). */
  function ChildAt(nodes: seq<Node>, node: NodeId, i: nat): (c: NodeId)
    requires WellFormed(nodes) && node < |nodes| && i < |nodes[node].childOrder|
    ensures c < |nodes|
  {
    assert NodeOk(nodes, node) && nodes[node].childOrder[i] in nodes[node].childOrder;
    nodes[node].children[nodes[node].childOrder[i]]
  }

  /** The `i`-th value of `node` in enumeration order (`Values`). */
  function ValueOf(nodes: seq<Node>, node: NodeId, i: nat): string
    requires WellFormed(nodes) && node < |nodes| && i < |nodes[node].valueOrder|
  {
    assert NodeOk(nodes, node) && nodes[node].valueOrder[i] in nodes[node].valueOrder;
    nodes[node].values[nodes[node].valueOrder[i]]
  }

  /** `Values.Count` and `Children.Count` are the lengths of the enumeration orders. */
  lemma Counts(nodes: seq<Node>, node: NodeId)
    requires WellFormed(nodes) && node < |nodes|
    ensures |nodes[node].values| == |nodes[node].valueOrder|
    ensures |nodes[node].children| == |nodes[node].childOrder|
  {
    assert NodeOk(nodes, node);
    EnumeratesCount(nodes[node].valueOrder, nodes[node].values.Keys);
    EnumeratesCount(nodes[node].childOrder, nodes[node].children.Keys);
  }

  /** The fields after the member loop of `BindInstance` has seen its first `k` members. */
  function BoundMembers(nodes: seq<Node>, owner: Shape, fields: seq<Value>, k: nat, config: Option<NodeId>, conv: Converter)
    : (r: Result<seq<Value>, BindError>)
    requires WellFormed(nodes) && (config.Some? ==> config.value < |nodes|)
    requires HasMembers(owner) && k <= |owner.members| && |fields| == |owner.members|
    ensures r.Success? ==> |r.value| == |fields|
    decreases owner, 1, k
  {
    if k == 0 then Success(fields)
    else
      var before :- BoundMembers(nodes, owner, fields, k - 1, config, conv);
      BoundMember(nodes, owner, k - 1, before, config, conv)
  }

  /** One turn of the member loop of `BindInstance`, for member `j`: it stores what `j` is assigned, if anything. */
  function BoundMember(nodes: seq<Node>, owner: Shape, j: nat, fields: seq<Value>, config: Option<NodeId>, conv: Converter)
    : (r: Result<seq<Value>, BindError>)
    requires WellFormed(nodes) && (config.Some? ==> config.value < |nodes|)
    requires HasMembers(owner) && j < |owner.members| && |fields| == |owner.members|
    ensures r.Success? ==> |r.value| == |fields|
    decreases owner, 0, 1
  {
    var slot :- Assigned(nodes, owner, j, config, conv);
    Success(if slot.Some? then fields[j := slot.value] else fields)
  }

  /** `property.SetValue(instance, v)`, when there is a `v` to store: an indexer expects an index as well, so it throws. */
  function Stored(m: Member, v: Option<Value>): Result<Option<Value>, BindError>
  {
    if v.Some? && m.indexer then Failure(ParameterCount) else Success(v)
  }

  /**
   * The value `BindInstance` assigns to member `j` of `owner` (`None`: the
   * member is left as it is), or the exception it raises there.
   */
  function Assigned(nodes: seq<Node>, owner: Shape, j: nat, config: Option<NodeId>, conv: Converter)
    : Result<Option<Value>, BindError>
    requires WellFormed(nodes) && (config.Some? ==> config.value < |nodes|)
    requires HasMembers(owner) && j < |owner.members|
    decreases owner, 0, 0
  {
    var m := owner.members[j];
    if !m.settable then Success(None)
    else if IsScalar(m.shape) then
      if config.None? then Failure(NullReference)
      else Stored(m, TryConvertValue(m.shape, ValueAt(nodes, config.value, m.name), conv))
    else if m.shape.Array? then
      if config.None? then Failure(NullReference)
      else
        match SubtreeAt(nodes, config.value, m.name)
        case None => Success(None)
        case Some(child) =>
          var a :- BoundArray(nodes, m.shape, Some(child), conv);
          var stored :- Stored(m, Some(a));
          if m.shape.rank > 1 then Failure(TypeMismatch) else Success(stored)
    else
      var instance :- CreateInstance(m.shape);
      if config.None? then Failure(NullReference)
      else
        match SubtreeAt(nodes, config.value, m.name)
        case None => Success(None)
        case Some(child) =>
          var b :- Populated(nodes, m.shape, instance, Some(child), conv);
          Stored(m, Some(b))
  }

  /** `BindInstance(instance, s, config)`: the instance with its settable members bound from `config`. */
  function Populated(nodes: seq<Node>, s: Shape, instance: Value, config: Option<NodeId>, conv: Converter): Result<Value, BindError>
    requires WellFormed(nodes) && (config.Some? ==> config.value < |nodes|)
    decreases s, 2, 0
  {
    if HasMembers(s) && HasFields(instance) && |instance.fields| == |s.members| then
      var fields :- BoundMembers(nodes, s, instance.fields, |s.members|, config, conv);
      Success(instance.(fields := fields))
    else Success(instance)
  }

  /** A fresh instance of `s` bound from node `node`: what the array, dictionary and collection loops build per child. */
  function NewBound(nodes: seq<Node>, s: Shape, node: NodeId, conv: Converter): Result<Value, BindError>
    requires WellFormed(nodes) && node < |nodes|
    decreases s, 3, 0
  {
    var instance :- CreateInstance(s);
    Populated(nodes, s, instance, Some(node), conv)
  }

  /** The first `k` elements bound from the children of `parent`, in enumeration order. */
  function ChildElements(nodes: seq<Node>, e: Shape, parent: NodeId, k: nat, conv: Converter): (r: Result<seq<Value>, BindError>)
    requires WellFormed(nodes) && parent < |nodes| && k <= |nodes[parent].childOrder|
    ensures r.Success? ==> |r.value| == k
    decreases e, 4, k
  {
    if k == 0 then Success([])
    else
      var before :- ChildElements(nodes, e, parent, k - 1, conv);
      var element :- NewBound(nodes, e, ChildAt(nodes, parent, k - 1), conv);
      Success(before + [element])
  }

  /** The first `k` elements of a scalar array bound from `node`: element `i` is read from the value named `i`. */
  function ScalarElements(nodes: seq<Node>, node: NodeId, e: Shape, k: nat, conv: Converter): (r: seq<Value>)
    ensures |r| == k
  {
    if k == 0 then []
    else
      ScalarElements(nodes, node, e, k - 1, conv)
        + [TryConvertValue(e, ValueAt(nodes, node, NatToString(k - 1)), conv).GetOr(DefaultOf(e))]
  }

  /** `BindArray(s, config)` for an array shape `s` (the rank is checked where the array is stored). */
  function BoundArray(nodes: seq<Node>, s: Shape, config: Option<NodeId>, conv: Converter): Result<Value, BindError>
    requires WellFormed(nodes) && (config.Some? ==> config.value < |nodes|)
    requires s.Array?
    decreases s, 5, 0
  {
    if config.None? then Failure(NullReference)
    else
      var n := nodes[config.value];
      if IsScalar(s.element) then
        Success(ArrayValue(ScalarElements(nodes, config.value, s.element, |n.valueOrder|, conv)))
      else
        var elements :- ChildElements(nodes, s.element, config.value, |n.childOrder|, conv);
        Success(ArrayValue(elements))
  }

  /** The indexer setter of a dictionary: it refuses a null key and overwrites an existing entry. */
  function SetEntry(entries: map<Value, Value>, key: Value, value: Value): Result<map<Value, Value>, BindError>
  {
    if key == NullValue then Failure(ArgumentNull) else Success(entries[key := value])
  }

  /** The entries a dictionary with scalar values gets from the first `k` values of `node`. */
  function ScalarEntries(nodes: seq<Node>, node: NodeId, ks: Shape, vs: Shape, k: nat, conv: Converter)
    : Result<map<Value, Value>, BindError>
    requires WellFormed(nodes) && node < |nodes| && k <= |nodes[node].valueOrder|
  {
    if k == 0 then Success(map[])
    else
      var before :- ScalarEntries(nodes, node, ks, vs, k - 1, conv);
      var key := nodes[node].valueOrder[k - 1];
      match (TryConvertValue(ks, Some(key), conv), TryConvertValue(vs, Some(ValueOf(nodes, node, k - 1)), conv))
      case (Some(ck), Some(cv)) => SetEntry(before, ck, cv)
      case _ => Success(before)
  }

  /** The entries a dictionary with composite values gets from the first `k` children of `node`. */
  function ChildEntries(nodes: seq<Node>, node: NodeId, ks: Shape, vs: Shape, k: nat, conv: Converter)
    : Result<map<Value, Value>, BindError>
    requires WellFormed(nodes) && node < |nodes| && k <= |nodes[node].childOrder|
  {
    if k == 0 then Success(map[])
    else
      var before :- ChildEntries(nodes, node, ks, vs, k - 1, conv);
      var key := nodes[node].childOrder[k - 1];
      match TryConvertValue(ks, Some(key), conv)
      case None => Success(before)
      case Some(ck) =>
        var element :- NewBound(nodes, vs, ChildAt(nodes, node, k - 1), conv);
        SetEntry(before, ck, element)
  }

  /** `BindDictionary(s, config)` for a dictionary shape `s`. */
  function BoundDictionary(nodes: seq<Node>, s: Shape, config: Option<NodeId>, conv: Converter): Result<Value, BindError>
    requires WellFormed(nodes) && (config.Some? ==> config.value < |nodes|)
    requires s.Dictionary?
  {
    if !IsScalar(s.key) then Success(NullValue)
    else if !s.hasDefaultConstructor then Failure(InvalidOperation)  // `CreateInstance(dictionaryType)`
    else if config.None? then Failure(NullReference)
    else if IsScalar(s.value) then
      var entries :- ScalarEntries(nodes, config.value, s.key, s.value, |nodes[config.value].valueOrder|, conv);
      Success(DictionaryValue(entries, Initials(s.members)))
    else
      var entries :- ChildEntries(nodes, config.value, s.key, s.value, |nodes[config.value].childOrder|, conv);
      Success(DictionaryValue(entries, Initials(s.members)))
  }

  /** The items a scalar collection gets from the first `k` values of `node`: the ones that convert. */
  function ScalarItems(nodes: seq<Node>, node: NodeId, item: Shape, k: nat, conv: Converter): (r: seq<Value>)
    requires WellFormed(nodes) && node < |nodes| && k <= |nodes[node].valueOrder|
    ensures |r| <= k
  {
    if k == 0 then []
    else
      ScalarItems(nodes, node, item, k - 1, conv)
        + match TryConvertValue(item, Some(ValueOf(nodes, node, k - 1)), conv)
          case Some(v) => [v]
          case None => []
  }

  /** `BindCollection(s, config)` for a collection shape `s`. */
  function BoundCollection(nodes: seq<Node>, s: Shape, config: Option<NodeId>, conv: Converter): Result<Value, BindError>
    requires WellFormed(nodes) && (config.Some? ==> config.value < |nodes|)
    requires s.Collection?
  {
    if !s.hasDefaultConstructor then Failure(InvalidOperation)  // `CreateInstance(collectionType)`
    else if config.None? then Failure(NullReference)
    else if IsScalar(s.item) then
      Success(CollectionValue(ScalarItems(nodes, config.value, s.item, |nodes[config.value].valueOrder|, conv), Initials(s.members)))
    else
      var items :- ChildElements(nodes, s.item, config.value, |nodes[config.value].childOrder|, conv);
      Success(CollectionValue(items, Initials(s.members)))
  }

  /** `BindObjectType`: the target that is not read from a single value. */
  function BoundObject(nodes: seq<Node>, at: NodeId, path: string, s: Shape, defaultValue: Value, conv: Converter)
    : Result<Value, BindError>
    requires WellFormed(nodes) && at < |nodes|
  {
    var config := SubtreeAt(nodes, at, path);
    match s
    case Abstract => Success(defaultValue)
    case Array(_, rank) =>
      var a :- BoundArray(nodes, s, config, conv);
      if rank > 1 then Failure(TypeMismatch) else Success(a)
    case Dictionary(_, _, _, _) => BoundDictionary(nodes, s, config, conv)
    case Collection(_, _, _) => BoundCollection(nodes, s, config, conv)
    case _ =>
      var instance :- CreateInstance(s);
      Populated(nodes, s, instance, config, conv)
  }

  /** `Get<T>(path, defaultValue)` on node `at`. */
  function Bound(nodes: seq<Node>, at: NodeId, path: string, s: Shape, defaultValue: Value, conv: Converter)
    : Result<Value, BindError>
    requires WellFormed(nodes) && at < |nodes|
  {
    if IsScalar(s) then Success(BindValueType(nodes, at, path, s, defaultValue, conv))
    else BoundObject(nodes, at, path, s, defaultValue, conv)
  }

  // ---------------------------------------------------------------------------
  // An exception ends every loop of the binder

  lemma {:induction false} BoundMembersSticks(nodes: seq<Node>, owner: Shape, fields: seq<Value>, i: nat, n: nat,
                                               config: Option<NodeId>, conv: Converter)
    requires WellFormed(nodes) && (config.Some? ==> config.value < |nodes|)
    requires HasMembers(owner) && i <= n <= |owner.members| && |fields| == |owner.members|
    ensures BoundMembers(nodes, owner, fields, i, config, conv).Failure? ==>
      BoundMembers(nodes, owner, fields, n, config, conv) == BoundMembers(nodes, owner, fields, i, config, conv)
    decreases n
  {
    if i < n {
      BoundMembersSticks(nodes, owner, fields, i, n - 1, config, conv);
    }
  }

  lemma {:induction false} ChildElementsSticks(nodes: seq<Node>, e: Shape, parent: NodeId, i: nat, n: nat, conv: Converter)
    requires WellFormed(nodes) && parent < |nodes| && i <= n <= |nodes[parent].childOrder|
    ensures ChildElements(nodes, e, parent, i, conv).Failure? ==>
      ChildElements(nodes, e, parent, n, conv) == ChildElements(nodes, e, parent, i, conv)
    decreases n
  {
    if i < n {
      ChildElementsSticks(nodes, e, parent, i, n - 1, conv);
    }
  }

  /** How the `k`-th value of `node` extends the entries of the first `k - 1`. */
  lemma ScalarEntriesStep(nodes: seq<Node>, node: NodeId, ks: Shape, vs: Shape, k: nat, conv: Converter)
    requires WellFormed(nodes) && node < |nodes| && 0 < k <= |nodes[node].valueOrder|
    ensures var prev := ScalarEntries(nodes, node, ks, vs, k - 1, conv);
      prev.Failure? ==> ScalarEntries(nodes, node, ks, vs, k, conv) == Failure(prev.error)
    ensures var prev := ScalarEntries(nodes, node, ks, vs, k - 1, conv);
      var ck0 := TryConvertValue(ks, Some(nodes[node].valueOrder[k - 1]), conv);
      var cv0 := TryConvertValue(vs, Some(ValueOf(nodes, node, k - 1)), conv);
      prev.Success? && !(ck0.Some? && cv0.Some?) ==> ScalarEntries(nodes, node, ks, vs, k, conv) == prev
    ensures var prev := ScalarEntries(nodes, node, ks, vs, k - 1, conv);
      var ck0 := TryConvertValue(ks, Some(nodes[node].valueOrder[k - 1]), conv);
      var cv0 := TryConvertValue(vs, Some(ValueOf(nodes, node, k - 1)), conv);
      prev.Success? && ck0.Some? && cv0.Some? ==>
        ScalarEntries(nodes, node, ks, vs, k, conv) == SetEntry(prev.value, ck0.value, cv0.value)
  {
  }

  /** How the `k`-th child extends the elements bound from the first `k - 1`. */
  lemma ChildElementsStep(nodes: seq<Node>, e: Shape, parent: NodeId, k: nat, conv: Converter)
    requires WellFormed(nodes) && parent < |nodes| && 0 < k <= |nodes[parent].childOrder|
    ensures var prev := ChildElements(nodes, e, parent, k - 1, conv);
      var last := NewBound(nodes, e, ChildAt(nodes, parent, k - 1), conv);
      && (prev.Failure? ==> ChildElements(nodes, e, parent, k, conv) == Failure(prev.error))
      && (prev.Success? && last.Failure? ==> ChildElements(nodes, e, parent, k, conv) == Failure(last.error))
      && (prev.Success? && last.Success? ==> ChildElements(nodes, e, parent, k, conv) == Success(prev.value + [last.value]))
  {
  }

  /** How the `k`-th child of `node` extends the entries of the first `k - 1`. */
  lemma ChildEntriesStep(nodes: seq<Node>, node: NodeId, ks: Shape, vs: Shape, k: nat, conv: Converter)
    requires WellFormed(nodes) && node < |nodes| && 0 < k <= |nodes[node].childOrder|
    ensures var prev := ChildEntries(nodes, node, ks, vs, k - 1, conv);
      prev.Failure? ==> ChildEntries(nodes, node, ks, vs, k, conv) == Failure(prev.error)
    ensures var prev := ChildEntries(nodes, node, ks, vs, k - 1, conv);
      var ck0 := TryConvertValue(ks, Some(nodes[node].childOrder[k - 1]), conv);
      prev.Success? && ck0.None? ==> ChildEntries(nodes, node, ks, vs, k, conv) == prev
    ensures var prev := ChildEntries(nodes, node, ks, vs, k - 1, conv);
      var ck0 := TryConvertValue(ks, Some(nodes[node].childOrder[k - 1]), conv);
      var element := NewBound(nodes, vs, ChildAt(nodes, node, k - 1), conv);
      prev.Success? && ck0.Some? && element.Failure? ==>
        ChildEntries(nodes, node, ks, vs, k, conv) == Failure(element.error)
    ensures var prev := ChildEntries(nodes, node, ks, vs, k - 1, conv);
      var ck0 := TryConvertValue(ks, Some(nodes[node].childOrder[k - 1]), conv);
      var element := NewBound(nodes, vs, ChildAt(nodes, node, k - 1), conv);
      prev.Success? && ck0.Some? && element.Success? ==>
        ChildEntries(nodes, node, ks, vs, k, conv) == SetEntry(prev.value, ck0.value, element.value)
  {
  }

  lemma {:induction false} ScalarEntriesSticks(nodes: seq<Node>, node: NodeId, ks: Shape, vs: Shape, i: nat, n: nat, conv: Converter)
    requires WellFormed(nodes) && node < |nodes| && i <= n <= |nodes[node].valueOrder|
    ensures ScalarEntries(nodes, node, ks, vs, i, conv).Failure? ==>
      ScalarEntries(nodes, node, ks, vs, n, conv) == ScalarEntries(nodes, node, ks, vs, i, conv)
    decreases n
  {
    if i < n {
      ScalarEntriesSticks(nodes, node, ks, vs, i, n - 1, conv);
    }
  }

  lemma {:induction false} ChildEntriesSticks(nodes: seq<Node>, node: NodeId, ks: Shape, vs: Shape, i: nat, n: nat, conv: Converter)
    requires WellFormed(nodes) && node < |nodes| && i <= n <= |nodes[node].childOrder|
    ensures ChildEntries(nodes, node, ks, vs, i, conv).Failure? ==>
      ChildEntries(nodes, node, ks, vs, n, conv) == ChildEntries(nodes, node, ks, vs, i, conv)
    decreases n
  {
    if i < n {
      ChildEntriesSticks(nodes, node, ks, vs, i, n - 1, conv);
    }
  }

  // ---------------------------------------------------------------------------
  // The binder routines

  /** `Get<T>(path, defaultValue)` invoked on node `at`. */
  method Get(store: Store, at: NodeId, path: string, s: Shape, defaultValue: Value, conv: Converter)
    returns (r: Result<Value, BindError>)
    requires store.Valid() && at < |store.nodes|
    ensures r == Bound(store.nodes, at, path, s, defaultValue, conv)
  {
    if IsScalar(s) {
      r := Success(BindValueType(store.nodes, at, path, s, defaultValue, conv));
    } else {
      r := BindObjectType(store, at, path, s, defaultValue, conv);
    }
  }

  method BindObjectType(store: Store, at: NodeId, path: string, s: Shape, defaultValue: Value, conv: Converter)
    returns (r: Result<Value, BindError>)
    requires store.Valid() && at < |store.nodes|
    ensures r == BoundObject(store.nodes, at, path, s, defaultValue, conv)
  {
    if s.Abstract? {
      return Success(defaultValue);
    }
    if s.Array? {
      var config := store.GetChildren(at, path);
      var a :- BindArray(store, s, config, conv);
      if s.rank > 1 {
        return Failure(TypeMismatch);  // the cast of the one-dimensional result to `T`
      }
      return Success(a);
    }
    if s.Dictionary? {
      var config := store.GetChildren(at, path);
      r := BindDictionary(store, s, config, conv);
      return;
    }
    if s.Collection? {
      var config := store.GetChildren(at, path);
      r := BindCollection(store, s, config, conv);
      return;
    }
    var instance :- CreateInstance(s);
    var config := store.GetChildren(at, path);
    r := BindInstance(store, s, instance, config, conv);
  }

  /** `BindInstance(instance, s, config)`: assigns the settable members of `instance` one by one. */
  method BindInstance(store: Store, s: Shape, instance: Value, config: Option<NodeId>, conv: Converter)
    returns (r: Result<Value, BindError>)
    requires store.Valid() && (config.Some? ==> config.value < |store.nodes|)
    ensures r == Populated(store.nodes, s, instance, config, conv)
    decreases s, 2, 0
  {
    if !(HasMembers(s) && HasFields(instance) && |instance.fields| == |s.members|) {
      return Success(instance);
    }
    var fields := instance.fields;
    for j := 0 to |s.members|
      invariant |fields| == |s.members|
      invariant BoundMembers(store.nodes, s, instance.fields, j, config, conv) == Success(fields)
    {
      BoundMembersSticks(store.nodes, s, instance.fields, j + 1, |s.members|, config, conv);
      fields :- BindMember(store, s, j, fields, config, conv);
    }
    return Success(instance.(fields := fields));
  }

  /** The body of the member loop of `BindInstance`, for member `j`. */
  method BindMember(store: Store, owner: Shape, j: nat, fields: seq<Value>, config: Option<NodeId>, conv: Converter)
    returns (r: Result<seq<Value>, BindError>)
    requires store.Valid() && (config.Some? ==> config.value < |store.nodes|)
    requires HasMembers(owner) && j < |owner.members| && |fields| == |owner.members|
    ensures r == BoundMember(store.nodes, owner, j, fields, config, conv)
    decreases owner, 0, 2
  {
    var m := owner.members[j];
    if !m.settable {
      return Success(fields);
    }
    if IsScalar(m.shape) {
      if config.None? {
        return Failure(NullReference);
      }
      var value := store.GetValue(config.value, m.name);
      var converted := TryConvertValue(m.shape, value, conv);
      if converted.Some? {
        if m.indexer {
          return Failure(ParameterCount);
        }
        return Success(fields[j := converted.value]);
      }
      return Success(fields);
    } else if m.shape.Array? {
      if config.None? {
        return Failure(NullReference);
      }
      var child := store.GetChildren(config.value, m.name);
      if child.None? {
        return Success(fields);
      }
      var a :- BindArray(store, m.shape, child, conv);
      if m.indexer {
        return Failure(ParameterCount);
      }
      if m.shape.rank > 1 {
        return Failure(TypeMismatch);  // `SetValue` of a one-dimensional array into a multi-dimensional property
      }
      return Success(fields[j := a]);
    } else {
      var instance :- CreateInstance(m.shape);
      if config.None? {
        return Failure(NullReference);
      }
      var child := store.GetChildren(config.value, m.name);
      if child.None? {
        return Success(fields);
      }
      var b :- BindInstance(store, m.shape, instance, child, conv);
      if m.indexer {
        return Failure(ParameterCount);
      }
      return Success(fields[j := b]);
    }
  }

  /** `CreateInstance(e)` followed by `BindInstance` from `node`: how every element, entry and item of a composite type is made. */
  method BindElement(store: Store, e: Shape, node: NodeId, conv: Converter) returns (r: Result<Value, BindError>)
    requires store.Valid() && node < |store.nodes|
    ensures r == NewBound(store.nodes, e, node, conv)
    decreases e, 3, 0
  {
    var instance :- CreateInstance(e);
    r := BindInstance(store, e, instance, Some(node), conv);
  }

  /** `BindArray(s, config)`: allocates the array and fills it slot by slot. */
  method BindArray(store: Store, s: Shape, config: Option<NodeId>, conv: Converter) returns (r: Result<Value, BindError>)
    requires store.Valid() && (config.Some? ==> config.value < |store.nodes|)
    requires s.Array?
    ensures r == BoundArray(store.nodes, s, config, conv)
    decreases s, 5, 0
  {
    if config.None? {
      return Failure(NullReference);
    }
    var node := config.value;
    var e := s.element;
    var isValueType := IsScalar(e);
    Counts(store.nodes, node);
    var length := if isValueType then |store.Values(node)| else |store.Children(node)|;
    var arrayInstance := new Value[length](_ => DefaultOf(e));
    if length == 0 {
      assert arrayInstance[..] == [];
      return Success(ArrayValue(arrayInstance[..]));
    }
    if isValueType {
      FillScalars(store, node, e, arrayInstance, conv);
    } else {
      var elements :- FillElements(store, node, e, arrayInstance, conv);
    }
    return Success(ArrayValue(arrayInstance[..]));
  }

  /** The `for` loop of `BindArray` for scalar elements: slot `i` receives the value named `i` if it converts. */
  method FillScalars(store: Store, node: NodeId, e: Shape, arrayInstance: array<Value>, conv: Converter)
    requires store.Valid() && node < |store.nodes|
    requires forall k | 0 <= k < arrayInstance.Length :: arrayInstance[k] == DefaultOf(e)
    modifies arrayInstance
    ensures arrayInstance[..] == ScalarElements(store.nodes, node, e, arrayInstance.Length, conv)
  {
    for i := 0 to arrayInstance.Length
      invariant arrayInstance[..i] == ScalarElements(store.nodes, node, e, i, conv)
      invariant forall k | i <= k < arrayInstance.Length :: arrayInstance[k] == DefaultOf(e)
    {
      var value := store.GetValue(node, NatToString(i));
      var converted := TryConvertValue(e, value, conv);
      if converted.Some? {
        arrayInstance[i] := converted.value;
      }
    }
    assert arrayInstance[..] == arrayInstance[..arrayInstance.Length];
  }

  /** The `foreach` loop of `BindArray` for composite elements: slot `i` receives an instance bound from the `i`-th child. */
  method FillElements(store: Store, node: NodeId, e: Shape, arrayInstance: array<Value>, conv: Converter)
    returns (r: Result<seq<Value>, BindError>)
    requires store.Valid() && node < |store.nodes| && arrayInstance.Length == |store.nodes[node].childOrder|
    modifies arrayInstance
    ensures r == ChildElements(store.nodes, e, node, arrayInstance.Length, conv)
    ensures r.Success? ==> r.value == arrayInstance[..]
    decreases e, 4, 0
  {
    for i := 0 to arrayInstance.Length
      invariant ChildElements(store.nodes, e, node, i, conv) == Success(arrayInstance[..i])
    {
      ChildElementsSticks(store.nodes, e, node, i + 1, arrayInstance.Length, conv);
      ghost var before := arrayInstance[..i];
      var elementInstance :- BindElement(store, e, ChildAt(store.nodes, node, i), conv);
      arrayInstance[i] := elementInstance;
      assert arrayInstance[..i + 1] == before + [elementInstance];
    }
    assert arrayInstance[..] == arrayInstance[..arrayInstance.Length];
    return Success(arrayInstance[..]);
  }

  /** `BindDictionary(s, config)`: inserts one entry per value or child whose key converts. */
  method BindDictionary(store: Store, s: Shape, config: Option<NodeId>, conv: Converter) returns (r: Result<Value, BindError>)
    requires store.Valid() && (config.Some? ==> config.value < |store.nodes|)
    requires s.Dictionary?
    ensures r == BoundDictionary(store.nodes, s, config, conv)
  {
    if !IsScalar(s.key) {
      return Success(NullValue);
    }
    var isValueType := IsScalar(s.value);
    if !s.hasDefaultConstructor {
      return Failure(InvalidOperation);  // `CreateInstance(dictionaryType)`
    }
    var fields := Initials(s.members);
    if config.None? {
      return Failure(NullReference);
    }
    var entries;
    if isValueType {
      entries :- InsertValues(store, config.value, s.key, s.value, conv);
    } else {
      entries :- InsertChildren(store, config.value, s.key, s.value, conv);
    }
    return Success(DictionaryValue(entries, fields));
  }

  /** The `foreach` over `Values` of `BindDictionary`: an entry for each value whose key and value convert. */
  method InsertValues(store: Store, node: NodeId, ks: Shape, vs: Shape, conv: Converter)
    returns (r: Result<map<Value, Value>, BindError>)
    requires store.Valid() && node < |store.nodes|
    ensures r == ScalarEntries(store.nodes, node, ks, vs, |store.nodes[node].valueOrder|, conv)
  {
    var nodes := store.nodes;
    var order := nodes[node].valueOrder;
    var entries: map<Value, Value> := map[];
    for i := 0 to |order|
      invariant ScalarEntries(nodes, node, ks, vs, i, conv) == Success(entries)
    {
      ScalarEntriesSticks(nodes, node, ks, vs, i + 1, |order|, conv);
      ScalarEntriesStep(nodes, node, ks, vs, i + 1, conv);
      var convertedKey := TryConvertValue(ks, Some(order[i]), conv);
      var convertedValue := TryConvertValue(vs, Some(ValueOf(nodes, node, i)), conv);
      if convertedKey.Some? && convertedValue.Some? {
        entries :- SetEntry(entries, convertedKey.value, convertedValue.value);
      }
    }
    return Success(entries);
  }

  /** The `foreach` over `Children` of `BindDictionary`: a bound entry for each child whose key converts. */
  method InsertChildren(store: Store, node: NodeId, ks: Shape, vs: Shape, conv: Converter)
    returns (r: Result<map<Value, Value>, BindError>)
    requires store.Valid() && node < |store.nodes|
    ensures r == ChildEntries(store.nodes, node, ks, vs, |store.nodes[node].childOrder|, conv)
  {
    var nodes := store.nodes;
    var order := nodes[node].childOrder;
    var entries: map<Value, Value> := map[];
    for i := 0 to |order|
      invariant ChildEntries(nodes, node, ks, vs, i, conv) == Success(entries)
    {
      ChildEntriesSticks(nodes, node, ks, vs, i + 1, |order|, conv);
      ChildEntriesStep(nodes, node, ks, vs, i + 1, conv);
      var convertedKey := TryConvertValue(ks, Some(order[i]), conv);
      if convertedKey.Some? {
        var elementInstance :- BindElement(store, vs, ChildAt(nodes, node, i), conv);
        entries :- SetEntry(entries, convertedKey.value, elementInstance);
      }
    }
    return Success(entries);
  }

  /** `BindCollection(s, config)`: adds the converted values, or one bound item per child. */
  method BindCollection(store: Store, s: Shape, config: Option<NodeId>, conv: Converter) returns (r: Result<Value, BindError>)
    requires store.Valid() && (config.Some? ==> config.value < |store.nodes|)
    requires s.Collection?
    ensures r == BoundCollection(store.nodes, s, config, conv)
  {
    var isValueType := IsScalar(s.item);
    if !s.hasDefaultConstructor {
      return Failure(InvalidOperation);  // `CreateInstance(collectionType)`
    }
    var items: seq<Value> := [];
    var fields := Initials(s.members);
    if config.None? {
      return Failure(NullReference);
    }
    var node := config.value;
    if isValueType {
      var order := store.nodes[node].valueOrder;
      for i := 0 to |order|
        invariant items == ScalarItems(store.nodes, node, s.item, i, conv)
      {
        var converted := TryConvertValue(s.item, Some(ValueOf(store.nodes, node, i)), conv);
        if converted.Some? {
          items := items + [converted.value];
        }
      }
    } else {
      var order := store.nodes[node].childOrder;
      for i := 0 to |order|
        invariant ChildElements(store.nodes, s.item, node, i, conv) == Success(items)
      {
        ChildElementsSticks(store.nodes, s.item, node, i + 1, |order|, conv);
        var elementInstance :- BindElement(store, s.item, ChildAt(store.nodes, node, i), conv);
        items := items + [elementInstance];
      }
    }
    return Success(CollectionValue(items, fields));
  }
}
