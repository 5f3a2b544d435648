/**
 * The JSON source: the document's object is visited depth first; every
 * property name and every array index is pushed on a context stack, and
 * every primitive value is written under the path the stack spells.
 */
module Json {
  import opened Wrappers
  import opened Numerals
  import opened ConfigurationPath
  import opened Configuration
  import opened ConfigurationLaws
  import opened ConfigurationSources

  /**
   * A loaded JSON token.  A primitive (integer, float, string, boolean,
   * bytes, raw or null) carries the text its invariant-culture `ToString`
   * gives; every other token type is `Unsupported`.
   */
  datatype Json =
    | Object(properties: seq<(string, Json)>)
    | Array(items: seq<Json>)
    | Primitive(text: string)
    | Unsupported(kind: string)

  // ---------------------------------------------------------------------------
  // What visiting a token writes

  /** The load of visiting `token` with the context stack `context` (bottom first). */
  function Visit(token: Json, context: seq<string>): Load
    decreases token, 1
  {
    match token
    case Object(_) => PropertiesFrom(token, 0, context)
    case Array(_) => ItemsFrom(token, 0, context)
    case Primitive(text) => Load([(Join(context), text)], None)
    case Unsupported(_) => Load([], Some(FormatError))
  }

  /** The load of the properties of `token` from the `k`-th on, each under its name. */
  function PropertiesFrom(token: Json, k: nat, context: seq<string>): Load
    requires token.Object? && k <= |token.properties|
    decreases token, 0, |token.properties| - k
  {
    if k == |token.properties| then Load([], None)
    else
      var (name, value) := token.properties[k];
      Then(Visit(value, context + [name]), PropertiesFrom(token, k + 1, context))
  }

  /** The load of the items of `token` from the `k`-th on, each under its index. */
  function ItemsFrom(token: Json, k: nat, context: seq<string>): Load
    requires token.Array? && k <= |token.items|
    decreases token, 0, |token.items| - k
  {
    if k == |token.items| then Load([], None)
    else Then(Visit(token.items[k], context + [NatToString(k)]), ItemsFrom(token, k + 1, context))
  }

  /** What one property adds to the load visited so far. */
  lemma PropertiesStep(token: Json, k: nat, context: seq<string>, done: seq<(string, string)>)
    requires token.Object? && k < |token.properties|
    ensures var part := Visit(token.properties[k].1, context + [token.properties[k].0]);
      Then(Load(done, None), PropertiesFrom(token, k, context)) ==
        if part.error.Some? then Load(done + part.writes, part.error)
        else Then(Load(done + part.writes, None), PropertiesFrom(token, k + 1, context))
  {
    var part := Visit(token.properties[k].1, context + [token.properties[k].0]);
    var rest := PropertiesFrom(token, k + 1, context);
    assert done + (part.writes + rest.writes) == (done + part.writes) + rest.writes;
  }

  /** What one item adds to the load visited so far. */
  lemma ItemsStep(token: Json, k: nat, context: seq<string>, done: seq<(string, string)>)
    requires token.Array? && k < |token.items|
    ensures var part := Visit(token.items[k], context + [NatToString(k)]);
      Then(Load(done, None), ItemsFrom(token, k, context)) ==
        if part.error.Some? then Load(done + part.writes, part.error)
        else Then(Load(done + part.writes, None), ItemsFrom(token, k + 1, context))
  {
    var part := Visit(token.items[k], context + [NatToString(k)]);
    var rest := ItemsFrom(token, k + 1, context);
    assert done + (part.writes + rest.writes) == (done + part.writes) + rest.writes;
  }

  /** The load of a whole document, whose root is an object. */
  function JsonLoad(root: Json): Load
    requires root.Object?
  {
    Visit(root, [])
  }

  // ---------------------------------------------------------------------------
  // The visitor

  /**
   * The state the visiting methods share: the context stack and the
   * `jsonPath` passed by reference, which always spells the stack.
   */
  class JsonVisitor {
    var context: seq<string>
    var jsonPath: string

    constructor ()
      ensures context == [] && jsonPath == ""
    {
      context := [];
      jsonPath := "";
    }

    /** `EnterContext`: pushes the name and recomputes the path. */
    method EnterContext(propertyName: string)
      modifies this
      ensures context == old(context) + [propertyName]
      ensures jsonPath == Join(context)
    {
      context := context + [propertyName];
      jsonPath := Combine(context);
    }

    /** `ExitContext`: pops the top name and recomputes the path. */
    method ExitContext()
      requires context != []
      modifies this
      ensures context == old(context)[..|old(context)| - 1]
      ensures jsonPath == Join(context)
    {
      context := context[..|context| - 1];
      jsonPath := Combine(context);
    }

    /** `VisitToken`: dispatches on the token type; an unsupported type raises `FormatException`. */
    method VisitToken(store: Store, at: NodeId, token: Json) returns (error: Option<SourceError>)
      requires store.Valid() && at < |store.nodes|
      requires jsonPath == Join(context)
      modifies this, store
      ensures store.Valid()
      ensures store.nodes == AddedAll(old(store.nodes), at, Visit(token, old(context)).writes)
      ensures error == Visit(token, old(context)).error
      ensures error.None? ==> context == old(context) && jsonPath == old(jsonPath)
      decreases token, 1
    {
      match token
      case Object(_) =>
        error := VisitJObject(store, at, token);
      case Array(_) =>
        error := VisitArray(store, at, token);
      case Primitive(text) =>
        VisitPrimitive(store, at, text);
        assert [(Join(context), text)][..0] == [];
        error := None;
      case Unsupported(_) =>
        error := Some(FormatError);
    }

    /** `VisitPrimitive`: writes the value's text under the current path. */
    method VisitPrimitive(store: Store, at: NodeId, text: string)
      requires store.Valid() && at < |store.nodes|
      modifies store
      ensures store.Valid()
      ensures store.nodes == Added(old(store.nodes), at, Split(jsonPath), text)
    {
      var key := jsonPath;
      store.AddValue(at, key, text);
    }

    /** `VisitJObject`: each property is visited with its name pushed. */
    method VisitJObject(store: Store, at: NodeId, token: Json) returns (error: Option<SourceError>)
      requires token.Object?
      requires store.Valid() && at < |store.nodes|
      requires jsonPath == Join(context)
      modifies this, store
      ensures store.Valid()
      ensures store.nodes == AddedAll(old(store.nodes), at, Visit(token, old(context)).writes)
      ensures error == Visit(token, old(context)).error
      ensures error.None? ==> context == old(context) && jsonPath == old(jsonPath)
      decreases token, 0
    {
      ghost var outer := context;
      ghost var start := store.nodes;
      ghost var done: seq<(string, string)> := [];
      var properties := token.properties;
      for k := 0 to |properties|
        invariant store.Valid() && at < |store.nodes|
        invariant context == outer && jsonPath == Join(outer)
        invariant store.nodes == AddedAll(start, at, done)
        invariant Visit(token, outer) == Then(Load(done, None), PropertiesFrom(token, k, outer))
      {
        var (name, value) := properties[k];
        assert value < token by {
          assert properties[k] in token.properties;
        }
        EnterContext(name);
        var e := VisitToken(store, at, value);
        ghost var part := Visit(value, outer + [name]);
        PropertiesStep(token, k, outer, done);
        AddedAllAppend(start, at, done, part.writes);
        if e.Some? {
          return e;
        }
        ExitContext();
        assert (outer + [name])[..|outer|] == outer;
        done := done + part.writes;
      }
      assert done + [] == done;
      return None;
    }

    /** `VisitArray`: each item is visited with its index pushed as a decimal numeral. */
    method VisitArray(store: Store, at: NodeId, token: Json) returns (error: Option<SourceError>)
      requires token.Array?
      requires store.Valid() && at < |store.nodes|
      requires jsonPath == Join(context)
      modifies this, store
      ensures store.Valid()
      ensures store.nodes == AddedAll(old(store.nodes), at, Visit(token, old(context)).writes)
      ensures error == Visit(token, old(context)).error
      ensures error.None? ==> context == old(context) && jsonPath == old(jsonPath)
      decreases token, 0
    {
      ghost var outer := context;
      ghost var start := store.nodes;
      ghost var done: seq<(string, string)> := [];
      var items := token.items;
      for index := 0 to |items|
        invariant store.Valid() && at < |store.nodes|
        invariant context == outer && jsonPath == Join(outer)
        invariant store.nodes == AddedAll(start, at, done)
        invariant Visit(token, outer) == Then(Load(done, None), ItemsFrom(token, index, outer))
      {
        var name := NatToString(index);
        EnterContext(name);
        var e := VisitToken(store, at, items[index]);
        ghost var part := Visit(items[index], outer + [name]);
        ItemsStep(token, index, outer, done);
        AddedAllAppend(start, at, done, part.writes);
        if e.Some? {
          return e;
        }
        ExitContext();
        assert (outer + [name])[..|outer|] == outer;
        done := done + part.writes;
      }
      assert done + [] == done;
      return None;
    }
  }

  /** `AddJsonFileInternal` once the document is loaded: the root object is visited with an empty context. */
  method AddJsonObject(store: Store, at: NodeId, root: Json) returns (error: Option<SourceError>)
    requires root.Object?
    requires store.Valid() && at < |store.nodes|
    modifies store
    ensures store.Valid()
    ensures store.nodes == AddedAll(old(store.nodes), at, JsonLoad(root).writes)
    ensures error == JsonLoad(root).error
  {
    var visitor := new JsonVisitor();
    error := visitor.VisitJObject(store, at, root);
  }
}
