/**
 * What the JSON visitor promises, against a context-free account of the
 * document: its primitive leaves, each with the names and indices that lead
 * to it.
 */
module JsonLaws {
  import opened Wrappers
  import opened Numerals
  import opened ConfigurationPath
  import opened ConfigurationSources
  import opened Json

  /** A leaf of a document: the property names and indices that lead to a primitive, and its text. */
  type Leaf = (seq<string>, string)

  /** `leaves` one level deeper, under `segment`. */
  function Under(segment: string, leaves: seq<Leaf>): (r: seq<Leaf>)
    ensures |r| == |leaves|
    ensures forall i | 0 <= i < |r| :: r[i] == ([segment] + leaves[i].0, leaves[i].1)
  {
    seq(|leaves|, i requires 0 <= i < |leaves| => ([segment] + leaves[i].0, leaves[i].1))
  }

  /** The primitive leaves of `token`, in document order. */
  function Leaves(token: Json): seq<Leaf>
    decreases token, 1
  {
    match token
    case Object(_) => PropertyLeaves(token, 0)
    case Array(_) => ItemLeaves(token, 0)
    case Primitive(text) => [([], text)]
    case Unsupported(_) => []
  }

  function PropertyLeaves(token: Json, k: nat): seq<Leaf>
    requires token.Object? && k <= |token.properties|
    decreases token, 0, |token.properties| - k
  {
    if k == |token.properties| then []
    else Under(token.properties[k].0, Leaves(token.properties[k].1)) + PropertyLeaves(token, k + 1)
  }

  function ItemLeaves(token: Json, k: nat): seq<Leaf>
    requires token.Array? && k <= |token.items|
    decreases token, 0, |token.items| - k
  {
    if k == |token.items| then []
    else Under(NatToString(k), Leaves(token.items[k])) + ItemLeaves(token, k + 1)
  }

  /** A token whose every nested token has a supported type. */
  predicate Supported(token: Json)
    decreases token, 1
  {
    match token
    case Object(_) => PropertiesSupported(token, 0)
    case Array(_) => ItemsSupported(token, 0)
    case Primitive(_) => true
    case Unsupported(_) => false
  }

  predicate PropertiesSupported(token: Json, k: nat)
    requires token.Object? && k <= |token.properties|
    decreases token, 0, |token.properties| - k
  {
    k == |token.properties| || (Supported(token.properties[k].1) && PropertiesSupported(token, k + 1))
  }

  predicate ItemsSupported(token: Json, k: nat)
    requires token.Array? && k <= |token.items|
    decreases token, 0, |token.items| - k
  {
    k == |token.items| || (Supported(token.items[k]) && ItemsSupported(token, k + 1))
  }

  /** The writes of `leaves` under the context `context`. */
  function Keyed(context: seq<string>, leaves: seq<Leaf>): (r: seq<(string, string)>)
    ensures |r| == |leaves|
    ensures forall i | 0 <= i < |r| :: r[i] == (Join(context + leaves[i].0), leaves[i].1)
  {
    seq(|leaves|, i requires 0 <= i < |leaves| => (Join(context + leaves[i].0), leaves[i].1))
  }

  lemma KeyedAppend(context: seq<string>, a: seq<Leaf>, b: seq<Leaf>)
    ensures Keyed(context, a + b) == Keyed(context, a) + Keyed(context, b)
  {
  }

  lemma KeyedUnder(context: seq<string>, segment: string, leaves: seq<Leaf>)
    ensures Keyed(context + [segment], leaves) == Keyed(context, Under(segment, leaves))
  {
    forall i | 0 <= i < |leaves|
      ensures Keyed(context + [segment], leaves)[i] == Keyed(context, Under(segment, leaves))[i]
    {
      assert context + [segment] + leaves[i].0 == context + ([segment] + leaves[i].0);
    }
  }

  /**
   * A document with supported tokens only writes each primitive leaf once,
   * in document order, under the path of the property names and indices
   * leading to it.
   */
  lemma {:induction false} VisitLeaves(token: Json, context: seq<string>)
    requires Supported(token)
    ensures Visit(token, context) == Load(Keyed(context, Leaves(token)), None)
    decreases token, 1
  {
    match token
    case Object(_) => PropertiesLeaves(token, 0, context);
    case Array(_) => ItemsLeaves(token, 0, context);
    case Primitive(text) =>
      assert context + [] == context;
    case Unsupported(_) =>
  }

  lemma {:induction false} PropertiesLeaves(token: Json, k: nat, context: seq<string>)
    requires token.Object? && k <= |token.properties| && PropertiesSupported(token, k)
    ensures PropertiesFrom(token, k, context) == Load(Keyed(context, PropertyLeaves(token, k)), None)
    decreases token, 0, |token.properties| - k
  {
    if k < |token.properties| {
      var (name, value) := token.properties[k];
      assert value < token by {
        assert token.properties[k] in token.properties;
      }
      VisitLeaves(value, context + [name]);
      PropertiesLeaves(token, k + 1, context);
      KeyedUnder(context, name, Leaves(value));
      KeyedAppend(context, Under(name, Leaves(value)), PropertyLeaves(token, k + 1));
    }
  }

  lemma {:induction false} ItemsLeaves(token: Json, k: nat, context: seq<string>)
    requires token.Array? && k <= |token.items| && ItemsSupported(token, k)
    ensures ItemsFrom(token, k, context) == Load(Keyed(context, ItemLeaves(token, k)), None)
    decreases token, 0, |token.items| - k
  {
    if k < |token.items| {
      var name := NatToString(k);
      VisitLeaves(token.items[k], context + [name]);
      ItemsLeaves(token, k + 1, context);
      KeyedUnder(context, name, Leaves(token.items[k]));
      KeyedAppend(context, Under(name, Leaves(token.items[k])), ItemLeaves(token, k + 1));
    }
  }

  /** Visiting raises `FormatException` exactly when some nested token has an unsupported type. */
  lemma {:induction false} VisitError(token: Json, context: seq<string>)
    ensures Visit(token, context).error == if Supported(token) then None else Some(FormatError)
    decreases token, 1
  {
    match token
    case Object(_) => PropertiesError(token, 0, context);
    case Array(_) => ItemsError(token, 0, context);
    case Primitive(_) =>
    case Unsupported(_) =>
  }

  lemma {:induction false} PropertiesError(token: Json, k: nat, context: seq<string>)
    requires token.Object? && k <= |token.properties|
    ensures PropertiesFrom(token, k, context).error == if PropertiesSupported(token, k) then None else Some(FormatError)
    decreases token, 0, |token.properties| - k
  {
    if k < |token.properties| {
      var (name, value) := token.properties[k];
      assert value < token by {
        assert token.properties[k] in token.properties;
      }
      VisitError(value, context + [name]);
      PropertiesError(token, k + 1, context);
    }
  }

  lemma {:induction false} ItemsError(token: Json, k: nat, context: seq<string>)
    requires token.Array? && k <= |token.items|
    ensures ItemsFrom(token, k, context).error == if ItemsSupported(token, k) then None else Some(FormatError)
    decreases token, 0, |token.items| - k
  {
    if k < |token.items| {
      VisitError(token.items[k], context + [NatToString(k)]);
      ItemsError(token, k + 1, context);
    }
  }

  /**
   * The primitive leaves of `token` that come before its first unsupported
   * token, in document order: all of them when every token is supported.
   */
  function Reached(token: Json): seq<Leaf>
    decreases token, 1
  {
    match token
    case Object(_) => PropertiesReached(token, 0)
    case Array(_) => ItemsReached(token, 0)
    case Primitive(text) => [([], text)]
    case Unsupported(_) => []
  }

  function PropertiesReached(token: Json, k: nat): seq<Leaf>
    requires token.Object? && k <= |token.properties|
    decreases token, 0, |token.properties| - k
  {
    if k == |token.properties| then []
    else
      Under(token.properties[k].0, Reached(token.properties[k].1))
        + (if Supported(token.properties[k].1) then PropertiesReached(token, k + 1) else [])
  }

  function ItemsReached(token: Json, k: nat): seq<Leaf>
    requires token.Array? && k <= |token.items|
    decreases token, 0, |token.items| - k
  {
    if k == |token.items| then []
    else
      Under(NatToString(k), Reached(token.items[k]))
        + (if Supported(token.items[k]) then ItemsReached(token, k + 1) else [])
  }

  /**
   * Visiting writes each leaf reached before the first unsupported token,
   * keyed by its path, and then stops with `FormatException` if there is
   * such a token; the writes already made stay.
   */
  lemma {:induction false} VisitReached(token: Json, context: seq<string>)
    ensures Visit(token, context) ==
      Load(Keyed(context, Reached(token)), if Supported(token) then None else Some(FormatError))
    decreases token, 1
  {
    match token
    case Object(_) => PropertiesVisitReached(token, 0, context);
    case Array(_) => ItemsVisitReached(token, 0, context);
    case Primitive(text) =>
      assert context + [] == context;
    case Unsupported(_) =>
  }

  lemma {:induction false} PropertiesVisitReached(token: Json, k: nat, context: seq<string>)
    requires token.Object? && k <= |token.properties|
    ensures PropertiesFrom(token, k, context) ==
      Load(Keyed(context, PropertiesReached(token, k)), if PropertiesSupported(token, k) then None else Some(FormatError))
    decreases token, 0, |token.properties| - k
  {
    if k < |token.properties| {
      var (name, value) := token.properties[k];
      assert value < token by {
        assert token.properties[k] in token.properties;
      }
      VisitReached(value, context + [name]);
      PropertiesVisitReached(token, k + 1, context);
      KeyedUnder(context, name, Reached(value));
      var rest := if Supported(value) then PropertiesReached(token, k + 1) else [];
      KeyedAppend(context, Under(name, Reached(value)), rest);
      if !Supported(value) {
        assert Under(name, Reached(value)) + rest == Under(name, Reached(value));
      }
    }
  }

  lemma {:induction false} ItemsVisitReached(token: Json, k: nat, context: seq<string>)
    requires token.Array? && k <= |token.items|
    ensures ItemsFrom(token, k, context) ==
      Load(Keyed(context, ItemsReached(token, k)), if ItemsSupported(token, k) then None else Some(FormatError))
    decreases token, 0, |token.items| - k
  {
    if k < |token.items| {
      var name := NatToString(k);
      VisitReached(token.items[k], context + [name]);
      ItemsVisitReached(token, k + 1, context);
      KeyedUnder(context, name, Reached(token.items[k]));
      var rest := if Supported(token.items[k]) then ItemsReached(token, k + 1) else [];
      KeyedAppend(context, Under(name, Reached(token.items[k])), rest);
      if !Supported(token.items[k]) {
        assert Under(name, Reached(token.items[k])) + rest == Under(name, Reached(token.items[k]));
      }
    }
  }

  /** In a supported token every leaf is reached. */
  lemma {:induction false} ReachedAll(token: Json)
    requires Supported(token)
    ensures Reached(token) == Leaves(token)
    decreases token, 1
  {
    match token
    case Object(_) => PropertiesReachedAll(token, 0);
    case Array(_) => ItemsReachedAll(token, 0);
    case Primitive(_) =>
    case Unsupported(_) =>
  }

  lemma {:induction false} PropertiesReachedAll(token: Json, k: nat)
    requires token.Object? && k <= |token.properties| && PropertiesSupported(token, k)
    ensures PropertiesReached(token, k) == PropertyLeaves(token, k)
    decreases token, 0, |token.properties| - k
  {
    if k < |token.properties| {
      assert token.properties[k].1 < token by {
        assert token.properties[k] in token.properties;
      }
      ReachedAll(token.properties[k].1);
      PropertiesReachedAll(token, k + 1);
    }
  }

  lemma {:induction false} ItemsReachedAll(token: Json, k: nat)
    requires token.Array? && k <= |token.items| && ItemsSupported(token, k)
    ensures ItemsReached(token, k) == ItemLeaves(token, k)
    decreases token, 0, |token.items| - k
  {
    if k < |token.items| {
      ReachedAll(token.items[k]);
      ItemsReachedAll(token, k + 1);
    }
  }

  /**
   * A whole document: one write per primitive leaf, keyed by its path from
   * the root; with an unsupported token, the writes of the leaves before it
   * and then `FormatException`.
   */
  lemma DocumentLoad(root: Json)
    requires root.Object?
    ensures Supported(root) ==> JsonLoad(root) == Load(Keyed([], Leaves(root)), None)
    ensures Supported(root) ==> |JsonLoad(root).writes| == |Leaves(root)|
    ensures !Supported(root) <==> JsonLoad(root).error == Some(FormatError)
    ensures !Supported(root) ==> JsonLoad(root).writes == Keyed([], Reached(root))
  {
    VisitError(root, []);
    VisitReached(root, []);
    if Supported(root) {
      VisitLeaves(root, []);
    }
  }

  /** Empty objects and empty arrays write nothing. */
  lemma EmptyContainers(context: seq<string>)
    ensures Visit(Object([]), context) == Load([], None)
    ensures Visit(Array([]), context) == Load([], None)
  {
  }

  /** `{"a": {"b": "1"}, "c": ["x", "y"]}` writes `a:b`, `c:0` and `c:1`, in that order. */
  lemma NestedDocument()
    ensures JsonLoad(Object([("a", Object([("b", Primitive("1"))])), ("c", Array([Primitive("x"), Primitive("y")]))]))
      == Load([("a:b", "1"), ("c:0", "x"), ("c:1", "y")], None)
  {
    var a := Object([("b", Primitive("1"))]);
    var c := Array([Primitive("x"), Primitive("y")]);
    var root := Object([("a", a), ("c", c)]);
    assert Join(["a", "b"]) == "a:b";
    assert Visit(a, ["a"]) == Load([("a:b", "1")], None) by {
      assert PropertiesFrom(a, 1, ["a"]) == Load([], None);
      assert ["a"] + ["b"] == ["a", "b"];
    }
    assert NatToString(0) == "0" && NatToString(1) == "1";
    assert Join(["c", "0"]) == "c:0" && Join(["c", "1"]) == "c:1";
    assert ItemsFrom(c, 1, ["c"]) == Load([("c:1", "y")], None) by {
      assert ItemsFrom(c, 2, ["c"]) == Load([], None);
      assert ["c"] + [NatToString(1)] == ["c", "1"];
    }
    assert Visit(c, ["c"]) == Load([("c:0", "x"), ("c:1", "y")], None) by {
      assert ["c"] + [NatToString(0)] == ["c", "0"];
    }
    assert PropertiesFrom(root, 1, []) == Load([("c:0", "x"), ("c:1", "y")], None) by {
      assert PropertiesFrom(root, 2, []) == Load([], None);
      assert [] + ["c"] == ["c"];
    }
    assert [] + ["a"] == ["a"];
  }
}
