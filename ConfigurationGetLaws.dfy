/** What `Get<T>` promises, proved about the functions that specify the binder. */
module ConfigurationGetLaws {
  import opened Wrappers
  import opened ConfigurationPath
  import opened Configuration
  import opened ConfigurationLaws
  import opened Numerals
  import opened ConfigurationGet

  // ---------------------------------------------------------------------------
  // Targets read from a single value

  /** A scalar target reads back what `AddValue` wrote, through the converter, and falls back to the default when it does not convert. */
  lemma GetAfterAddValue(nodes: seq<Node>, at: NodeId, path: string, value: string, t: ScalarType, d: Value, conv: Converter)
    requires WellFormed(nodes) && at < |nodes|
    ensures var r := Added(nodes, at, Split(path), value);
      && WellFormed(r)
      && Bound(r, at, path, Scalar(t), d, conv) == Success(ConvertScalar(t, Some(value), conv).GetOr(d))
  {
    AddValueReadBack(nodes, at, Split(path), value);
  }

  /**
   * A `string` target never falls back to the default: it is the value at
   * `path` as it is, or the empty string when there is none, because the
   * string converter turns null into the empty string.
   */
  lemma StringTarget(nodes: seq<Node>, at: NodeId, path: string, d: Value, conv: Converter)
    requires WellFormed(nodes) && at < |nodes|
    ensures ValueAt(nodes, at, path).Some? ==>
      Bound(nodes, at, path, Scalar(StringType), d, conv) == Success(Text(ValueAt(nodes, at, path).value))
    ensures ValueAt(nodes, at, path).None? ==> Bound(nodes, at, path, Scalar(StringType), d, conv) == Success(Text(""))
  {
  }

  /**
   * A scalar or nullable target is the converted value at `path`, or the
   * default when it does not convert; a nullable target whose value is
   * missing or empty is null, whatever the default.
   */
  lemma ValueTypeBinding(nodes: seq<Node>, at: NodeId, path: string, s: Shape, d: Value, conv: Converter)
    requires WellFormed(nodes) && at < |nodes| && IsScalar(s)
    ensures Bound(nodes, at, path, s, d, conv) == Success(TryConvertValue(s, ValueAt(nodes, at, path), conv).GetOr(d))
    ensures s.Nullable? && (ValueAt(nodes, at, path).None? || ValueAt(nodes, at, path) == Some("")) ==>
      Bound(nodes, at, path, s, d, conv) == Success(NullValue)
  {
  }

  /**
   * An `object` target is never read from a value: `Get` sends it to
   * `BindObjectType`, which creates a fresh object with no members; the raw
   * string that `TryConvertValue` would return for `object` is not reached.
   */
  lemma ObjectTarget(nodes: seq<Node>, at: NodeId, path: string, x: string, d: Value, conv: Converter)
    requires WellFormed(nodes) && at < |nodes|
    ensures Bound(nodes, at, path, Object, d, conv) == Success(ObjectValue([]))
    ensures TryConvertValue(Object, Some(x), conv) == Some(Text(x))
  {
  }

  /** An interface or abstract target is the default, whatever the tree holds. */
  lemma AbstractTarget(nodes: seq<Node>, at: NodeId, path: string, d: Value, conv: Converter)
    requires WellFormed(nodes) && at < |nodes|
    ensures Bound(nodes, at, path, Abstract, d, conv) == Success(d)
  {
  }

  // ---------------------------------------------------------------------------
  // Arrays

  /** Element `i` of a scalar array is the value named `i`, converted, or the element default. */
  lemma {:induction false} ScalarElementsAt(nodes: seq<Node>, node: NodeId, e: Shape, k: nat, conv: Converter)
    ensures forall i | 0 <= i < k ::
      ScalarElements(nodes, node, e, k, conv)[i] == TryConvertValue(e, ValueAt(nodes, node, NatToString(i)), conv).GetOr(DefaultOf(e))
  {
    if k > 0 {
      ScalarElementsAt(nodes, node, e, k - 1, conv);
    }
  }

  /**
   * Binding one instance per child succeeds exactly when every child binds;
   * element `i` is then the instance bound from the `i`-th child, and a
   * failure is that of the first child that fails.
   */
  lemma ChildElementsAt(nodes: seq<Node>, e: Shape, parent: NodeId, k: nat, conv: Converter)
    requires WellFormed(nodes) && parent < |nodes| && k <= |nodes[parent].childOrder|
    ensures var r := ChildElements(nodes, e, parent, k, conv);
      && (r.Success? <==> forall i | 0 <= i < k :: NewBound(nodes, e, ChildAt(nodes, parent, i), conv).Success?)
      && (r.Success? ==> forall i | 0 <= i < k :: NewBound(nodes, e, ChildAt(nodes, parent, i), conv) == Success(r.value[i]))
      && (r.Failure? ==> exists i | 0 <= i < k ::
            && NewBound(nodes, e, ChildAt(nodes, parent, i), conv) == Failure(r.error)
            && forall j | 0 <= j < i :: NewBound(nodes, e, ChildAt(nodes, parent, j), conv).Success?)
  {
    ChildElementsSuccess(nodes, e, parent, k, conv);
    ChildElementsFailure(nodes, e, parent, k, conv);
  }

  /** When every child binds, element `i` is the instance bound from the `i`-th child. */
  lemma {:induction false} ChildElementsSuccess(nodes: seq<Node>, e: Shape, parent: NodeId, k: nat, conv: Converter)
    requires WellFormed(nodes) && parent < |nodes| && k <= |nodes[parent].childOrder|
    ensures var r := ChildElements(nodes, e, parent, k, conv);
      r.Success? ==> forall i | 0 <= i < k :: NewBound(nodes, e, ChildAt(nodes, parent, i), conv) == Success(r.value[i])
  {
    if k > 0 {
      ChildElementsSuccess(nodes, e, parent, k - 1, conv);
      ChildElementsStep(nodes, e, parent, k, conv);
      var r := ChildElements(nodes, e, parent, k, conv);
      var prev := ChildElements(nodes, e, parent, k - 1, conv);
      if r.Success? {
        forall i | 0 <= i < k
          ensures NewBound(nodes, e, ChildAt(nodes, parent, i), conv) == Success(r.value[i])
        {
          if i < k - 1 {
            assert r.value[i] == prev.value[i];
          }
        }
      }
    }
  }

  /** Child `i` is the first to fail, with `error`: it fails so, and every child before it binds. */
  ghost predicate FirstFailure(nodes: seq<Node>, e: Shape, parent: NodeId, i: nat, error: BindError, conv: Converter)
    requires WellFormed(nodes) && parent < |nodes| && i < |nodes[parent].childOrder|
  {
    && NewBound(nodes, e, ChildAt(nodes, parent, i), conv) == Failure(error)
    && forall j | 0 <= j < i :: NewBound(nodes, e, ChildAt(nodes, parent, j), conv).Success?
  }

  /** When the first `k - 1` children bind and child `k - 1` does not, it is the first failure. */
  lemma ChildElementsFailsLast(nodes: seq<Node>, e: Shape, parent: NodeId, k: nat, conv: Converter)
    requires WellFormed(nodes) && parent < |nodes| && 0 < k <= |nodes[parent].childOrder|
    requires ChildElements(nodes, e, parent, k - 1, conv).Success?
    requires ChildElements(nodes, e, parent, k, conv).Failure?
    ensures FirstFailure(nodes, e, parent, k - 1, ChildElements(nodes, e, parent, k, conv).error, conv)
  {
    ChildElementsStep(nodes, e, parent, k, conv);
    ChildElementsSuccess(nodes, e, parent, k - 1, conv);
  }

  /** A failure is that of the first child that fails to bind. */
  lemma {:induction false} ChildElementsFailure(nodes: seq<Node>, e: Shape, parent: NodeId, k: nat, conv: Converter)
    requires WellFormed(nodes) && parent < |nodes| && k <= |nodes[parent].childOrder|
    ensures var r := ChildElements(nodes, e, parent, k, conv);
      r.Failure? ==> exists i | 0 <= i < k :: FirstFailure(nodes, e, parent, i, r.error, conv)
  {
    if k > 0 {
      var r := ChildElements(nodes, e, parent, k, conv);
      var prev := ChildElements(nodes, e, parent, k - 1, conv);
      if r.Failure? {
        if prev.Failure? {
          ChildElementsFailure(nodes, e, parent, k - 1, conv);
          ChildElementsStep(nodes, e, parent, k, conv);
          var i :| 0 <= i < k - 1 && FirstFailure(nodes, e, parent, i, prev.error, conv);
          assert FirstFailure(nodes, e, parent, i, r.error, conv);
        } else {
          ChildElementsFailsLast(nodes, e, parent, k, conv);
        }
      }
    }
  }

  /**
   * A scalar array has one element per value of its subtree; element `i` is
   * read from the value named `i` and keeps the element default when that is
   * missing or does not convert.
   */
  lemma ScalarArrayBinding(nodes: seq<Node>, at: NodeId, path: string, e: Shape, rank: nat, d: Value, conv: Converter)
    requires WellFormed(nodes) && at < |nodes|
    requires IsScalar(e) && rank <= 1 && SubtreeAt(nodes, at, path).Some?
    ensures var t := SubtreeAt(nodes, at, path).value;
      var r := Bound(nodes, at, path, Array(e, rank), d, conv);
      && r.Success? && r.value.ArrayValue?
      && |r.value.elements| == |nodes[t].values|
      && forall i | 0 <= i < |nodes[t].values| ::
           r.value.elements[i] == TryConvertValue(e, ValueAt(nodes, t, NatToString(i)), conv).GetOr(DefaultOf(e))
  {
    var t := SubtreeAt(nodes, at, path).value;
    Counts(nodes, t);
    ScalarElementsAt(nodes, t, e, |nodes[t].valueOrder|, conv);
  }

  /**
   * An array of composites has one element per child of its subtree, in
   * enumeration order, each a fresh instance bound from that child; it fails
   * exactly when one of them fails.
   */
  lemma CompositeArrayBinding(nodes: seq<Node>, at: NodeId, path: string, e: Shape, rank: nat, d: Value, conv: Converter)
    requires WellFormed(nodes) && at < |nodes|
    requires !IsScalar(e) && rank <= 1 && SubtreeAt(nodes, at, path).Some?
    ensures var t := SubtreeAt(nodes, at, path).value;
      var r := Bound(nodes, at, path, Array(e, rank), d, conv);
      && (r.Success? <==> forall i | 0 <= i < |nodes[t].childOrder| :: NewBound(nodes, e, ChildAt(nodes, t, i), conv).Success?)
      && (r.Success? ==>
            && r.value.ArrayValue?
            && |r.value.elements| == |nodes[t].children|
            && forall i | 0 <= i < |nodes[t].childOrder| :: NewBound(nodes, e, ChildAt(nodes, t, i), conv) == Success(r.value.elements[i]))
  {
    var t := SubtreeAt(nodes, at, path).value;
    Counts(nodes, t);
    ChildElementsAt(nodes, e, t, |nodes[t].childOrder|, conv);
  }

  /**
   * A multi-dimensional array target never binds: the one-dimensional array
   * `BindArray` builds does not cast to it, so whenever building succeeds the
   * binding fails with a type mismatch; a scalar element type always gets
   * that far once the subtree exists.
   */
  lemma MultiDimensionalArray(nodes: seq<Node>, at: NodeId, path: string, e: Shape, rank: nat, d: Value, conv: Converter)
    requires WellFormed(nodes) && at < |nodes| && rank > 1
    ensures var built := BoundArray(nodes, Array(e, rank), SubtreeAt(nodes, at, path), conv);
      Bound(nodes, at, path, Array(e, rank), d, conv) == Failure(if built.Success? then TypeMismatch else built.error)
    ensures IsScalar(e) && SubtreeAt(nodes, at, path).Some? ==>
      Bound(nodes, at, path, Array(e, rank), d, conv) == Failure(TypeMismatch)
  {
  }

  /**
   * A settable multi-dimensional array member whose child exists is given the
   * one-dimensional array `BindArray` builds, which `SetValue` refuses: the
   * owner fails with a type mismatch once the array is built.
   */
  lemma MultiDimensionalArrayMember(nodes: seq<Node>, owner: Shape, j: nat, node: NodeId, conv: Converter)
    requires WellFormed(nodes) && node < |nodes|
    requires HasMembers(owner) && j < |owner.members|
    requires owner.members[j].settable && !owner.members[j].indexer
    requires owner.members[j].shape.Array? && owner.members[j].shape.rank > 1
    requires SubtreeAt(nodes, node, owner.members[j].name).Some?
    ensures var built := BoundArray(nodes, owner.members[j].shape, SubtreeAt(nodes, node, owner.members[j].name), conv);
      Assigned(nodes, owner, j, Some(node), conv) == Failure(if built.Success? then TypeMismatch else built.error)
  {
  }

  // ---------------------------------------------------------------------------
  // Collections

  /** The values among `strings` that convert, in order: a reference reading of the scalar collection loop. */
  function KeepConverted(item: Shape, strings: seq<string>, conv: Converter): seq<Value>
  {
    if strings == [] then []
    else
      (match TryConvertValue(item, Some(strings[0]), conv)
       case Some(v) => [v]
       case None => [])
      + KeepConverted(item, strings[1..], conv)
  }

  /** The values of `node`, in enumeration order. */
  function ValuesInOrder(nodes: seq<Node>, node: NodeId): (r: seq<string>)
    requires WellFormed(nodes) && node < |nodes|
    ensures |r| == |nodes[node].valueOrder|
    ensures forall i | 0 <= i < |r| :: r[i] == ValueOf(nodes, node, i)
  {
    seq(|nodes[node].valueOrder|, i requires 0 <= i < |nodes[node].valueOrder| => ValueOf(nodes, node, i))
  }

  lemma {:induction false} KeepConvertedSnoc(item: Shape, strings: seq<string>, x: string, conv: Converter)
    ensures KeepConverted(item, strings + [x], conv) ==
      KeepConverted(item, strings, conv) + KeepConverted(item, [x], conv)
    decreases |strings|
  {
    if strings != [] {
      assert (strings + [x])[1..] == strings[1..] + [x];
      KeepConvertedSnoc(item, strings[1..], x, conv);
    } else {
      assert strings + [x] == [x];
    }
  }

  /** Keeping the converted values drops only values that do not convert. */
  lemma {:induction false} KeepConvertedAll(item: Shape, strings: seq<string>, conv: Converter)
    ensures |KeepConverted(item, strings, conv)| <= |strings|
    ensures (forall i | 0 <= i < |strings| :: TryConvertValue(item, Some(strings[i]), conv).Some?) ==>
      && |KeepConverted(item, strings, conv)| == |strings|
      && forall i | 0 <= i < |strings| :: Some(KeepConverted(item, strings, conv)[i]) == TryConvertValue(item, Some(strings[i]), conv)
    decreases |strings|
  {
    if strings != [] {
      KeepConvertedAll(item, strings[1..], conv);
      if forall i | 0 <= i < |strings| :: TryConvertValue(item, Some(strings[i]), conv).Some? {
        assert forall i | 0 <= i < |strings[1..]| :: strings[1..][i] == strings[i + 1];
        var r := KeepConverted(item, strings, conv);
        assert TryConvertValue(item, Some(strings[0]), conv).Some?;
        forall i | 0 <= i < |strings|
          ensures Some(r[i]) == TryConvertValue(item, Some(strings[i]), conv)
        {
          if i > 0 {
            assert r[i] == KeepConverted(item, strings[1..], conv)[i - 1];
          }
        }
      }
    }
  }

  lemma {:induction false} ScalarItemsAreKept(nodes: seq<Node>, node: NodeId, item: Shape, k: nat, conv: Converter)
    requires WellFormed(nodes) && node < |nodes| && k <= |nodes[node].valueOrder|
    ensures ScalarItems(nodes, node, item, k, conv) == KeepConverted(item, ValuesInOrder(nodes, node)[..k], conv)
  {
    var all := ValuesInOrder(nodes, node);
    if k > 0 {
      ScalarItemsAreKept(nodes, node, item, k - 1, conv);
      assert all[..k] == all[..k - 1] + [all[k - 1]];
      KeepConvertedSnoc(item, all[..k - 1], all[k - 1], conv);
      assert KeepConverted(item, [all[k - 1]], conv) ==
        (match TryConvertValue(item, Some(all[k - 1]), conv) case Some(v) => [v] case None => []) + KeepConverted(item, [], conv);
    }
  }

  /**
   * A scalar collection holds the values of its subtree that convert, in
   * enumeration order; when they all convert it holds one item per value.
   */
  lemma ScalarCollectionBinding(nodes: seq<Node>, at: NodeId, path: string, item: Shape, members: seq<Member>, d: Value, conv: Converter)
    requires WellFormed(nodes) && at < |nodes|
    requires IsScalar(item) && SubtreeAt(nodes, at, path).Some?
    ensures var t := SubtreeAt(nodes, at, path).value;
      var values := ValuesInOrder(nodes, t);
      var r := Bound(nodes, at, path, Collection(item, members, true), d, conv);
      && r == Success(CollectionValue(KeepConverted(item, values, conv), Initials(members)))
      && |r.value.items| <= |nodes[t].values|
      && ((forall i | 0 <= i < |values| :: TryConvertValue(item, Some(values[i]), conv).Some?) ==>
            |r.value.items| == |nodes[t].values|)
  {
    var t := SubtreeAt(nodes, at, path).value;
    var values := ValuesInOrder(nodes, t);
    Counts(nodes, t);
    ScalarItemsAreKept(nodes, t, item, |values|, conv);
    assert values[..|values|] == values;
    KeepConvertedAll(item, values, conv);
  }

  /** A collection of composites gets one item per child, in enumeration order, and fails exactly when one of them fails. */
  lemma CompositeCollectionBinding(nodes: seq<Node>, at: NodeId, path: string, item: Shape, members: seq<Member>, d: Value, conv: Converter)
    requires WellFormed(nodes) && at < |nodes|
    requires !IsScalar(item) && SubtreeAt(nodes, at, path).Some?
    ensures var t := SubtreeAt(nodes, at, path).value;
      var r := Bound(nodes, at, path, Collection(item, members, true), d, conv);
      && (r.Success? <==> forall i | 0 <= i < |nodes[t].childOrder| :: NewBound(nodes, item, ChildAt(nodes, t, i), conv).Success?)
      && (r.Success? ==>
            && r.value.CollectionValue? && r.value.fields == Initials(members)
            && |r.value.items| == |nodes[t].children|
            && forall i | 0 <= i < |nodes[t].childOrder| :: NewBound(nodes, item, ChildAt(nodes, t, i), conv) == Success(r.value.items[i]))
  {
    var t := SubtreeAt(nodes, at, path).value;
    Counts(nodes, t);
    ChildElementsAt(nodes, item, t, |nodes[t].childOrder|, conv);
  }

  // ---------------------------------------------------------------------------
  // Dictionaries

  /** Value `i` of `node` makes an entry under `ck`: its name converts to `ck` and its value converts. */
  predicate PairConverts(nodes: seq<Node>, node: NodeId, ks: Shape, vs: Shape, i: nat, ck: Value, conv: Converter)
    requires WellFormed(nodes) && node < |nodes| && i < |nodes[node].valueOrder|
  {
    && TryConvertValue(ks, Some(nodes[node].valueOrder[i]), conv) == Some(ck)
    && TryConvertValue(vs, Some(ValueOf(nodes, node, i)), conv).Some?
  }

  /** The last of the first `k` values of `node` that makes an entry under `ck`, if any. */
  function LastPair(nodes: seq<Node>, node: NodeId, ks: Shape, vs: Shape, k: nat, ck: Value, conv: Converter): (r: Option<nat>)
    requires WellFormed(nodes) && node < |nodes| && k <= |nodes[node].valueOrder|
    ensures r.Some? ==> r.value < k && PairConverts(nodes, node, ks, vs, r.value, ck, conv)
    ensures r.Some? ==> forall j | r.value < j < k :: !PairConverts(nodes, node, ks, vs, j, ck, conv)
    ensures r.None? ==> forall i | 0 <= i < k :: !PairConverts(nodes, node, ks, vs, i, ck, conv)
  {
    if k == 0 then None
    else if PairConverts(nodes, node, ks, vs, k - 1, ck, conv) then Some(k - 1)
    else LastPair(nodes, node, ks, vs, k - 1, ck, conv)
  }

  /** Binding a dictionary with scalar values fails, with `ArgumentNull`, exactly when some pair converts to a null key. */
  lemma {:induction false} ScalarEntriesFailure(nodes: seq<Node>, node: NodeId, ks: Shape, vs: Shape, k: nat, conv: Converter)
    requires WellFormed(nodes) && node < |nodes| && k <= |nodes[node].valueOrder|
    ensures var r := ScalarEntries(nodes, node, ks, vs, k, conv);
      && (r.Failure? <==> LastPair(nodes, node, ks, vs, k, NullValue, conv).Some?)
      && (r.Failure? ==> r.error == ArgumentNull)
  {
    if k > 0 {
      ScalarEntriesFailure(nodes, node, ks, vs, k - 1, conv);
      ScalarEntriesStep(nodes, node, ks, vs, k, conv);
    }
  }

  /** A key is among the entries exactly when some value makes an entry under it. */
  lemma {:induction false} ScalarEntriesKeys(nodes: seq<Node>, node: NodeId, ks: Shape, vs: Shape, k: nat, conv: Converter)
    requires WellFormed(nodes) && node < |nodes| && k <= |nodes[node].valueOrder|
    ensures var r := ScalarEntries(nodes, node, ks, vs, k, conv);
      r.Success? ==> forall ck :: ck in r.value <==> LastPair(nodes, node, ks, vs, k, ck, conv).Some?
  {
    if k > 0 {
      ScalarEntriesKeys(nodes, node, ks, vs, k - 1, conv);
      ScalarEntriesStep(nodes, node, ks, vs, k, conv);
    }
  }

  /** Each entry holds the converted value of the last pair that makes it. */
  lemma {:induction false} ScalarEntriesValues(nodes: seq<Node>, node: NodeId, ks: Shape, vs: Shape, k: nat, conv: Converter)
    requires WellFormed(nodes) && node < |nodes| && k <= |nodes[node].valueOrder|
    ensures var r := ScalarEntries(nodes, node, ks, vs, k, conv);
      r.Success? ==> forall ck | ck in r.value && LastPair(nodes, node, ks, vs, k, ck, conv).Some? ::
        TryConvertValue(vs, Some(ValueOf(nodes, node, LastPair(nodes, node, ks, vs, k, ck, conv).value)), conv) == Some(r.value[ck])
  {
    if k > 0 {
      ScalarEntriesValues(nodes, node, ks, vs, k - 1, conv);
      ScalarEntriesStep(nodes, node, ks, vs, k, conv);
    }
  }

  /**
   * The entries of a dictionary with scalar values: a key is present exactly
   * when some value's name converts to it and the value converts too, and it
   * holds the value of the last such pair.
   */
  lemma ScalarEntriesContent(nodes: seq<Node>, node: NodeId, ks: Shape, vs: Shape, k: nat, conv: Converter)
    requires WellFormed(nodes) && node < |nodes| && k <= |nodes[node].valueOrder|
    ensures var r := ScalarEntries(nodes, node, ks, vs, k, conv);
      && (r.Success? ==> forall ck :: ck in r.value <==> LastPair(nodes, node, ks, vs, k, ck, conv).Some?)
      && (r.Success? ==> forall ck | ck in r.value ::
            TryConvertValue(vs, Some(ValueOf(nodes, node, LastPair(nodes, node, ks, vs, k, ck, conv).value)), conv) == Some(r.value[ck]))
  {
    ScalarEntriesKeys(nodes, node, ks, vs, k, conv);
    ScalarEntriesValues(nodes, node, ks, vs, k, conv);
  }

  /** Child `i` of `node` makes an entry under `ck`: its name converts to `ck`. */
  predicate KeyConverts(nodes: seq<Node>, node: NodeId, ks: Shape, i: nat, ck: Value, conv: Converter)
    requires node < |nodes| && i < |nodes[node].childOrder|
  {
    TryConvertValue(ks, Some(nodes[node].childOrder[i]), conv) == Some(ck)
  }

  /** The last of the first `k` children of `node` whose name converts to `ck`, if any. */
  function LastChild(nodes: seq<Node>, node: NodeId, ks: Shape, k: nat, ck: Value, conv: Converter): (r: Option<nat>)
    requires node < |nodes| && k <= |nodes[node].childOrder|
    ensures r.Some? ==> r.value < k && KeyConverts(nodes, node, ks, r.value, ck, conv)
    ensures r.Some? ==> forall j | r.value < j < k :: !KeyConverts(nodes, node, ks, j, ck, conv)
    ensures r.None? ==> forall i | 0 <= i < k :: !KeyConverts(nodes, node, ks, i, ck, conv)
  {
    if k == 0 then None
    else if KeyConverts(nodes, node, ks, k - 1, ck, conv) then Some(k - 1)
    else LastChild(nodes, node, ks, k - 1, ck, conv)
  }

  /** Child `i` of `node` stops a dictionary with composite values: its name converts to null, or its instance does not bind. */
  predicate ChildFails(nodes: seq<Node>, node: NodeId, ks: Shape, vs: Shape, i: nat, conv: Converter)
    requires WellFormed(nodes) && node < |nodes| && i < |nodes[node].childOrder|
  {
    var ck := TryConvertValue(ks, Some(nodes[node].childOrder[i]), conv);
    ck.Some? && (ck.value == NullValue || NewBound(nodes, vs, ChildAt(nodes, node, i), conv).Failure?)
  }

  /** Binding a dictionary with composite values fails exactly when a child whose name converts fails. */
  lemma {:induction false} ChildEntriesFailure(nodes: seq<Node>, node: NodeId, ks: Shape, vs: Shape, k: nat, conv: Converter)
    requires WellFormed(nodes) && node < |nodes| && k <= |nodes[node].childOrder|
    ensures var r := ChildEntries(nodes, node, ks, vs, k, conv);
      r.Failure? <==> exists i | 0 <= i < k :: ChildFails(nodes, node, ks, vs, i, conv)
  {
    if k > 0 {
      ChildEntriesFailure(nodes, node, ks, vs, k - 1, conv);
      ChildEntriesStep(nodes, node, ks, vs, k, conv);
      var r := ChildEntries(nodes, node, ks, vs, k, conv);
      if r.Failure? && !ChildFails(nodes, node, ks, vs, k - 1, conv) {
        assert ChildEntries(nodes, node, ks, vs, k - 1, conv).Failure?;
      }
    }
  }

  /** A key is among the entries exactly when some child's name converts to it. */
  lemma {:induction false} ChildEntriesKeys(nodes: seq<Node>, node: NodeId, ks: Shape, vs: Shape, k: nat, conv: Converter)
    requires WellFormed(nodes) && node < |nodes| && k <= |nodes[node].childOrder|
    ensures var r := ChildEntries(nodes, node, ks, vs, k, conv);
      r.Success? ==> forall ck :: ck in r.value <==> LastChild(nodes, node, ks, k, ck, conv).Some?
  {
    if k > 0 {
      ChildEntriesKeys(nodes, node, ks, vs, k - 1, conv);
      ChildEntriesStep(nodes, node, ks, vs, k, conv);
    }
  }

  /** Each entry holds the instance bound from the last child whose name makes it. */
  lemma {:induction false} ChildEntriesValues(nodes: seq<Node>, node: NodeId, ks: Shape, vs: Shape, k: nat, conv: Converter)
    requires WellFormed(nodes) && node < |nodes| && k <= |nodes[node].childOrder|
    ensures var r := ChildEntries(nodes, node, ks, vs, k, conv);
      r.Success? ==> forall ck | ck in r.value && LastChild(nodes, node, ks, k, ck, conv).Some? ::
        NewBound(nodes, vs, ChildAt(nodes, node, LastChild(nodes, node, ks, k, ck, conv).value), conv) == Success(r.value[ck])
  {
    if k > 0 {
      ChildEntriesValues(nodes, node, ks, vs, k - 1, conv);
      ChildEntriesStep(nodes, node, ks, vs, k, conv);
    }
  }

  /**
   * The entries of a dictionary with composite values: binding fails exactly
   * when a child whose name converts fails; otherwise a key is present
   * exactly when some child's name converts to it, and it holds the instance
   * bound from the last such child.
   */
  lemma ChildEntriesContent(nodes: seq<Node>, node: NodeId, ks: Shape, vs: Shape, k: nat, conv: Converter)
    requires WellFormed(nodes) && node < |nodes| && k <= |nodes[node].childOrder|
    ensures var r := ChildEntries(nodes, node, ks, vs, k, conv);
      && (r.Failure? <==> exists i | 0 <= i < k :: ChildFails(nodes, node, ks, vs, i, conv))
      && (r.Success? ==> forall ck :: ck in r.value <==> LastChild(nodes, node, ks, k, ck, conv).Some?)
      && (r.Success? ==> forall ck | ck in r.value ::
            NewBound(nodes, vs, ChildAt(nodes, node, LastChild(nodes, node, ks, k, ck, conv).value), conv) == Success(r.value[ck]))
  {
    ChildEntriesFailure(nodes, node, ks, vs, k, conv);
    ChildEntriesKeys(nodes, node, ks, vs, k, conv);
    ChildEntriesValues(nodes, node, ks, vs, k, conv);
  }

  /**
   * A dictionary whose key type is neither a value type nor `string` is null,
   * whatever the tree holds: the key type is checked before the dictionary is
   * created, so even a type without a parameterless constructor gets that far.
   */
  lemma UnsupportedKeyType(nodes: seq<Node>, at: NodeId, path: string, ks: Shape, vs: Shape, members: seq<Member>, ctor: bool,
                           d: Value, conv: Converter)
    requires WellFormed(nodes) && at < |nodes| && !IsScalar(ks)
    ensures Bound(nodes, at, path, Dictionary(ks, vs, members, ctor), d, conv) == Success(NullValue)
  {
  }

  /**
   * A dictionary target whose key type is supported: it holds exactly the
   * entries the values (for scalar values) or the children (otherwise) of
   * the subtree make, and the properties of the dictionary class itself are
   * left as its constructor set them.
   */
  lemma DictionaryBinding(nodes: seq<Node>, at: NodeId, path: string, ks: Shape, vs: Shape, members: seq<Member>,
                          d: Value, conv: Converter)
    requires WellFormed(nodes) && at < |nodes| && IsScalar(ks) && SubtreeAt(nodes, at, path).Some?
    ensures var t := SubtreeAt(nodes, at, path).value;
      var r := Bound(nodes, at, path, Dictionary(ks, vs, members, true), d, conv);
      && (IsScalar(vs) ==> (r.Failure? <==> LastPair(nodes, t, ks, vs, |nodes[t].valueOrder|, NullValue, conv).Some?))
      && (!IsScalar(vs) ==> (r.Failure? <==> exists i | 0 <= i < |nodes[t].childOrder| :: ChildFails(nodes, t, ks, vs, i, conv)))
      && (r.Success? ==> r.value.DictionaryValue? && r.value.fields == Initials(members))
      && (r.Success? && IsScalar(vs) ==>
            forall ck :: ck in r.value.entries <==> LastPair(nodes, t, ks, vs, |nodes[t].valueOrder|, ck, conv).Some?)
      && (r.Success? && !IsScalar(vs) ==>
            forall ck :: ck in r.value.entries <==> LastChild(nodes, t, ks, |nodes[t].childOrder|, ck, conv).Some?)
  {
    var t := SubtreeAt(nodes, at, path).value;
    if IsScalar(vs) {
      ScalarEntriesFailure(nodes, t, ks, vs, |nodes[t].valueOrder|, conv);
      ScalarEntriesContent(nodes, t, ks, vs, |nodes[t].valueOrder|, conv);
    } else {
      ChildEntriesContent(nodes, t, ks, vs, |nodes[t].childOrder|, conv);
    }
  }

  // ---------------------------------------------------------------------------
  // Composites

  /** The first of the first `k` members of `owner` whose assignment raises an exception, if any. */
  function FirstFailing(nodes: seq<Node>, owner: Shape, k: nat, config: Option<NodeId>, conv: Converter): (r: Option<nat>)
    requires WellFormed(nodes) && (config.Some? ==> config.value < |nodes|)
    requires HasMembers(owner) && k <= |owner.members|
    ensures r.Some? ==> r.value < k && Assigned(nodes, owner, r.value, config, conv).Failure?
    ensures r.Some? ==> forall i | 0 <= i < r.value :: Assigned(nodes, owner, i, config, conv).Success?
    ensures r.None? ==> forall i | 0 <= i < k :: Assigned(nodes, owner, i, config, conv).Success?
  {
    if k == 0 then None
    else
      match FirstFailing(nodes, owner, k - 1, config, conv)
      case Some(i) => Some(i)
      case None => if Assigned(nodes, owner, k - 1, config, conv).Failure? then Some(k - 1) else None
  }

  /** How the turn for member `k - 1` extends the fields bound by the first `k - 1` turns. */
  lemma BoundMembersStep(nodes: seq<Node>, owner: Shape, fields: seq<Value>, k: nat, config: Option<NodeId>, conv: Converter)
    requires WellFormed(nodes) && (config.Some? ==> config.value < |nodes|)
    requires HasMembers(owner) && 0 < k <= |owner.members| && |fields| == |owner.members|
    ensures var prev := BoundMembers(nodes, owner, fields, k - 1, config, conv);
      prev.Failure? ==> BoundMembers(nodes, owner, fields, k, config, conv) == prev
    ensures var prev := BoundMembers(nodes, owner, fields, k - 1, config, conv);
      var slot := Assigned(nodes, owner, k - 1, config, conv);
      prev.Success? && slot.Failure? ==> BoundMembers(nodes, owner, fields, k, config, conv) == Failure(slot.error)
    ensures var prev := BoundMembers(nodes, owner, fields, k - 1, config, conv);
      var slot := Assigned(nodes, owner, k - 1, config, conv);
      prev.Success? && slot.Success? ==>
        BoundMembers(nodes, owner, fields, k, config, conv) ==
          Success(if slot.value.Some? then prev.value[k - 1 := slot.value.value] else prev.value)
  {
  }

  /** The member loop fails exactly when a member does, with the exception of the first such member. */
  lemma {:induction false} BoundMembersFailure(nodes: seq<Node>, owner: Shape, fields: seq<Value>, k: nat,
                                               config: Option<NodeId>, conv: Converter)
    requires WellFormed(nodes) && (config.Some? ==> config.value < |nodes|)
    requires HasMembers(owner) && k <= |owner.members| && |fields| == |owner.members|
    ensures var r := BoundMembers(nodes, owner, fields, k, config, conv);
      && (r.Success? <==> FirstFailing(nodes, owner, k, config, conv).None?)
      && (r.Failure? ==> Assigned(nodes, owner, FirstFailing(nodes, owner, k, config, conv).value, config, conv) == Failure(r.error))
  {
    if k > 0 {
      BoundMembersFailure(nodes, owner, fields, k - 1, config, conv);
      BoundMembersStep(nodes, owner, fields, k, config, conv);
    }
  }

  /** After a member loop that succeeds, each member's slot holds what it is assigned, or its prior value. */
  lemma {:induction false} BoundMembersSlots(nodes: seq<Node>, owner: Shape, fields: seq<Value>, k: nat,
                                             config: Option<NodeId>, conv: Converter)
    requires WellFormed(nodes) && (config.Some? ==> config.value < |nodes|)
    requires HasMembers(owner) && k <= |owner.members| && |fields| == |owner.members|
    ensures var r := BoundMembers(nodes, owner, fields, k, config, conv);
      r.Success? ==>
        && (forall j | 0 <= j < k :: Assigned(nodes, owner, j, config, conv).Success?)
        && forall j | 0 <= j < |fields| ::
             r.value[j] == if j < k then Assigned(nodes, owner, j, config, conv).value.GetOr(fields[j]) else fields[j]
  {
    if k > 0 {
      BoundMembersSlots(nodes, owner, fields, k - 1, config, conv);
      BoundMembersStep(nodes, owner, fields, k, config, conv);
    }
  }

  /**
   * `BindInstance` binds the members independently: it fails exactly when a
   * member does, with the exception of the first such member; otherwise
   * each member's slot holds what that member is assigned, or its prior
   * value.
   */
  lemma MembersBoundIndependently(nodes: seq<Node>, owner: Shape, fields: seq<Value>, k: nat,
                                  config: Option<NodeId>, conv: Converter)
    requires WellFormed(nodes) && (config.Some? ==> config.value < |nodes|)
    requires HasMembers(owner) && k <= |owner.members| && |fields| == |owner.members|
    ensures var r := BoundMembers(nodes, owner, fields, k, config, conv);
      && (r.Success? <==> FirstFailing(nodes, owner, k, config, conv).None?)
      && (r.Failure? ==> Assigned(nodes, owner, FirstFailing(nodes, owner, k, config, conv).value, config, conv) == Failure(r.error))
      && (r.Success? ==> forall j | 0 <= j < |fields| ::
            r.value[j] == if j < k then Assigned(nodes, owner, j, config, conv).value.GetOr(fields[j]) else fields[j])
  {
    BoundMembersFailure(nodes, owner, fields, k, config, conv);
    BoundMembersSlots(nodes, owner, fields, k, config, conv);
  }

  /**
   * A composite target with a public parameterless constructor is its
   * constructed instance with every member bound from the subtree at `path`;
   * one without such a constructor raises `InvalidOperation`.
   */
  lemma CompositeBinding(nodes: seq<Node>, at: NodeId, path: string, members: seq<Member>, ctor: bool, d: Value, conv: Converter)
    requires WellFormed(nodes) && at < |nodes|
    ensures var s := Composite(members, ctor);
      var config := SubtreeAt(nodes, at, path);
      var r := Bound(nodes, at, path, s, d, conv);
      && (!ctor ==> r == Failure(InvalidOperation))
      && (ctor ==> (r.Success? <==> FirstFailing(nodes, s, |members|, config, conv).None?))
      && (ctor && r.Failure? ==> Assigned(nodes, s, FirstFailing(nodes, s, |members|, config, conv).value, config, conv) == Failure(r.error))
      && (ctor && r.Success? ==>
            && r.value.ObjectValue? && |r.value.fields| == |members|
            && forall j | 0 <= j < |members| ::
                 r.value.fields[j] == Assigned(nodes, s, j, config, conv).value.GetOr(members[j].initial))
  {
    var s := Composite(members, ctor);
    if ctor {
      assert Bound(nodes, at, path, s, d, conv) == Populated(nodes, s, ObjectValue(Initials(members)), SubtreeAt(nodes, at, path), conv);
    }
    MembersBoundIndependently(nodes, s, Initials(members), |members|, SubtreeAt(nodes, at, path), conv);
  }

  /**
   * Without a subtree at `path`, a composite binds only when none of its
   * members has a setter that is not private.  Otherwise the first settable
   * member fails: with the creation error of its type when it is neither
   * scalar nor an array and cannot be created, and by dereferencing the
   * missing configuration in every other case.
   */
  lemma CompositeWithoutSubtree(nodes: seq<Node>, at: NodeId, path: string, members: seq<Member>, d: Value, conv: Converter)
    requires WellFormed(nodes) && at < |nodes| && SubtreeAt(nodes, at, path).None?
    ensures var r := Bound(nodes, at, path, Composite(members, true), d, conv);
      && (r.Success? <==> forall j | 0 <= j < |members| :: !members[j].settable)
      && (r.Success? ==> r == Success(ObjectValue(Initials(members))))
    ensures var s := Composite(members, true);
      var r := Bound(nodes, at, path, s, d, conv);
      r.Failure? ==>
        && FirstFailing(nodes, s, |members|, None, conv).Some?
        && var j := FirstFailing(nodes, s, |members|, None, conv).value;
        && members[j].settable
        && (forall i | 0 <= i < j :: !members[i].settable)
        && r.error == if !IsScalar(members[j].shape) && !members[j].shape.Array? && CreateInstance(members[j].shape).Failure?
                      then CreateInstance(members[j].shape).error
                      else NullReference
  {
    var s := Composite(members, true);
    CompositeBinding(nodes, at, path, members, true, d, conv);
    forall j | 0 <= j < |members|
      ensures Assigned(nodes, s, j, None, conv).Success? <==> !members[j].settable
      ensures !members[j].settable ==> Assigned(nodes, s, j, None, conv) == Success(None)
    {
    }
    var r := Bound(nodes, at, path, s, d, conv);
    if r.Success? {
      forall j | 0 <= j < |members| ensures r.value.fields[j] == Initials(members)[j] {
      }
      assert r.value.fields == Initials(members);
    }
  }

  /**
   * A settable member that is neither scalar nor an array is created before
   * the child named after it is looked up, so a type that cannot be created
   * fails the binding even when the configuration has no such child.
   */
  lemma NestedMemberCreatedFirst(nodes: seq<Node>, owner: Shape, j: nat, config: Option<NodeId>, conv: Converter)
    requires WellFormed(nodes) && (config.Some? ==> config.value < |nodes|)
    requires HasMembers(owner) && j < |owner.members|
    requires owner.members[j].settable && !IsScalar(owner.members[j].shape) && !owner.members[j].shape.Array?
    requires CreateInstance(owner.members[j].shape).Failure?
    ensures Assigned(nodes, owner, j, config, conv) == Failure(CreateInstance(owner.members[j].shape).error)
  {
  }

  /**
   * A settable member typed as an interface makes any composite that holds it
   * fail with `InvalidOperation` once the members before it have bound.
   */
  lemma InterfaceMemberFails(nodes: seq<Node>, at: NodeId, path: string, name: string, initial: Value, d: Value, conv: Converter)
    requires WellFormed(nodes) && at < |nodes|
    ensures Bound(nodes, at, path, Composite([Member(name, Abstract, true, false, initial)], true), d, conv) == Failure(InvalidOperation)
  {
    var s := Composite([Member(name, Abstract, true, false, initial)], true);
    CompositeBinding(nodes, at, path, [Member(name, Abstract, true, false, initial)], true, d, conv);
    assert Assigned(nodes, s, 0, SubtreeAt(nodes, at, path), conv) == Failure(InvalidOperation);
  }

  /**
   * A settable member typed as `object` is replaced by a fresh object when its
   * child exists: `BindInstance` recurses into it, and `object` has no
   * properties to bind.
   */
  lemma ObjectMemberIsEmpty(nodes: seq<Node>, owner: Shape, j: nat, node: NodeId, conv: Converter)
    requires WellFormed(nodes) && node < |nodes|
    requires HasMembers(owner) && j < |owner.members|
    requires owner.members[j].settable && !owner.members[j].indexer && owner.members[j].shape == Object
    requires SubtreeAt(nodes, node, owner.members[j].name).Some?
    ensures Assigned(nodes, owner, j, Some(node), conv) == Success(Some(ObjectValue([])))
  {
  }

  /**
   * A settable member typed as a dictionary or a collection class is not
   * filled from its child: `BindInstance` treats it like any other class, so
   * it gets a fresh instance with no entries or items, whose own settable
   * properties are bound from the child; it fails exactly when one of those
   * properties does, and a class without a parameterless constructor fails at
   * once.
   */
  lemma ContainerMemberBinding(nodes: seq<Node>, owner: Shape, j: nat, node: NodeId, conv: Converter)
    requires WellFormed(nodes) && node < |nodes|
    requires HasMembers(owner) && j < |owner.members|
    requires owner.members[j].settable && !owner.members[j].indexer
    requires owner.members[j].shape.Dictionary? || owner.members[j].shape.Collection?
    requires SubtreeAt(nodes, node, owner.members[j].name).Some?
    ensures var s := owner.members[j].shape;
      var child := SubtreeAt(nodes, node, owner.members[j].name);
      var r := Assigned(nodes, owner, j, Some(node), conv);
      && (!s.hasDefaultConstructor ==> r == Failure(InvalidOperation))
      && (s.hasDefaultConstructor ==> (r.Success? <==> FirstFailing(nodes, s, |s.members|, child, conv).None?))
      && (s.hasDefaultConstructor && r.Failure? ==>
            Assigned(nodes, s, FirstFailing(nodes, s, |s.members|, child, conv).value, child, conv) == Failure(r.error))
      && (s.hasDefaultConstructor && r.Success? ==>
            && r.value.Some?
            && (s.Dictionary? ==> r.value.value.DictionaryValue? && r.value.value.entries == map[])
            && (s.Collection? ==> r.value.value.CollectionValue? && r.value.value.items == [])
            && HasFields(r.value.value) && |r.value.value.fields| == |s.members|
            && forall i | 0 <= i < |s.members| ::
                 r.value.value.fields[i] == Assigned(nodes, s, i, child, conv).value.GetOr(s.members[i].initial))
  {
    var s := owner.members[j].shape;
    if s.hasDefaultConstructor {
      MembersBoundIndependently(nodes, s, Initials(s.members), |s.members|, SubtreeAt(nodes, node, owner.members[j].name), conv);
    }
  }

  /**
   * A settable indexer read from a single value makes `BindInstance` fail as
   * soon as its value converts, because `SetValue` is given no index; a
   * `string` indexer always converts, since a missing value becomes the empty
   * string.
   */
  lemma IndexerMemberFails(nodes: seq<Node>, owner: Shape, j: nat, node: NodeId, conv: Converter)
    requires WellFormed(nodes) && node < |nodes|
    requires HasMembers(owner) && j < |owner.members|
    requires owner.members[j].settable && owner.members[j].indexer && IsScalar(owner.members[j].shape)
    ensures var m := owner.members[j];
      Assigned(nodes, owner, j, Some(node), conv) ==
        if TryConvertValue(m.shape, ValueAt(nodes, node, m.name), conv).Some? then Failure(ParameterCount) else Success(None)
    ensures owner.members[j].shape == Scalar(StringType) ==> Assigned(nodes, owner, j, Some(node), conv) == Failure(ParameterCount)
  {
  }

  /** `Dictionary<string, string>`: of its public properties only the indexer `Item` has a setter. */
  function StringDictionary(): Shape
  {
    Dictionary(Scalar(StringType), Scalar(StringType), [Member("Item", Scalar(StringType), true, true, NullValue)], true)
  }

  /**
   * A class with a settable `Dictionary<string, string>` member fails to bind
   * whenever the subtree has a child named after that member: the indexer of
   * the nested dictionary is set without an index.  The same dictionary as
   * the target of `Get` binds its entries (`DictionaryBinding`).
   */
  lemma StringDictionaryMemberFails(nodes: seq<Node>, at: NodeId, path: string, name: string, initial: Value, d: Value, conv: Converter)
    requires WellFormed(nodes) && at < |nodes|
    requires SubtreeAt(nodes, at, path).Some? && SubtreeAt(nodes, SubtreeAt(nodes, at, path).value, name).Some?
    ensures Bound(nodes, at, path, Composite([Member(name, StringDictionary(), true, false, initial)], true), d, conv)
      == Failure(ParameterCount)
  {
    var owner := Composite([Member(name, StringDictionary(), true, false, initial)], true);
    var node := SubtreeAt(nodes, at, path).value;
    var child := SubtreeAt(nodes, node, name);
    IndexerMemberFails(nodes, StringDictionary(), 0, child.value, conv);
    assert FirstFailing(nodes, StringDictionary(), 1, child, conv) == Some(0);
    ContainerMemberBinding(nodes, owner, 0, node, conv);
    CompositeBinding(nodes, at, path, owner.members, true, d, conv);
    assert FirstFailing(nodes, owner, 1, Some(node), conv) == Some(0);
  }

  // ---------------------------------------------------------------------------
  // A missing subtree

  /**
   * Without a subtree at `path`, an array or collection target dereferences
   * the missing configuration, and so does a dictionary whose key type is
   * supported; a dictionary or collection class without a parameterless
   * constructor fails on its creation first.
   */
  lemma ContainerWithoutSubtree(nodes: seq<Node>, at: NodeId, path: string, s: Shape, d: Value, conv: Converter)
    requires WellFormed(nodes) && at < |nodes| && SubtreeAt(nodes, at, path).None?
    requires s.Array? || s.Collection? || (s.Dictionary? && IsScalar(s.key))
    ensures Bound(nodes, at, path, s, d, conv) ==
      Failure(if !s.Array? && !s.hasDefaultConstructor then InvalidOperation else NullReference)
  {
  }

  /**
   * A collection target, or a dictionary target whose key type is supported,
   * raises `InvalidOperation` whatever the tree holds when its class has no
   * public parameterless constructor.
   */
  lemma ContainerWithoutConstructor(nodes: seq<Node>, at: NodeId, path: string, s: Shape, d: Value, conv: Converter)
    requires WellFormed(nodes) && at < |nodes|
    requires s.Collection? || (s.Dictionary? && IsScalar(s.key))
    requires !s.hasDefaultConstructor
    ensures Bound(nodes, at, path, s, d, conv) == Failure(InvalidOperation)
  {
  }
}
