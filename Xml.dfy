/**
 * The XML source: the reader's nodes are read in order past the prolog;
 * the root element only contributes its `Name` attribute to the prefix,
 * every other element pushes its local name, attributes and text are
 * written under the path the prefix stack spells.
 */
module Xml {
  import opened Wrappers
  import opened Strings
  import opened ConfigurationPath
  import opened Configuration
  import opened ConfigurationLaws
  import opened ConfigurationSources

  /** The node types the reader loop tells apart; every other type is `Unsupported`. */
  datatype NodeType =
    | Element
    | EndElement
    | Text
    | CDATA
    | XmlDeclaration
    | ProcessingInstruction
    | Comment
    | Whitespace
    | Unsupported(kind: string)

  datatype XmlAttribute = XmlAttribute(localName: string, namespaceUri: string, value: string)

  /** The reader positioned on one node: what `NodeType`, `LocalName`, `Value`, the attributes and `IsEmptyElement` report. */
  datatype XmlNode = XmlNode(
    nodeType: NodeType,
    localName: string,
    value: string,
    attributes: seq<XmlAttribute>,
    isEmptyElement: bool)

  /** The attribute that names an element instead of holding a value. */
  const NameAttributeKey: string := "Name"

  /** The two actions `ProcessAttributes` applies to each attribute. */
  datatype AttributeAction = NamePrefix | AttributePair

  // ---------------------------------------------------------------------------
  // Attributes

  /** `AddNamePrefix`: a `Name` attribute (any case) extends the top prefix, or is pushed on an empty stack. */
  function NamePrefixed(prefixStack: seq<string>, attribute: XmlAttribute): seq<string>
  {
    if Fold(attribute.localName) != Fold(NameAttributeKey) then prefixStack
    else if prefixStack != [] then prefixStack[..|prefixStack| - 1] + [Join([prefixStack[|prefixStack| - 1], attribute.value])]
    else [attribute.value]
  }

  /** The key `AddAttributePair` writes: the prefix followed by the attribute's name. */
  function AttributeKey(prefixStack: seq<string>, attribute: XmlAttribute): string
  {
    Join(prefixStack + [attribute.localName])
  }

  /**
   * The stack and load after `act` on the first `n` attributes: an attribute
   * with a namespace raises `FormatException`.
   */
  function AttributesUpTo(prefixStack: seq<string>, attributes: seq<XmlAttribute>, act: AttributeAction, n: nat): (seq<string>, Load)
    requires n <= |attributes|
  {
    if n == 0 then (prefixStack, Load([], None))
    else
      var before := AttributesUpTo(prefixStack, attributes, act, n - 1);
      var stack, load := before.0, before.1;
      var attribute := attributes[n - 1];
      if load.error.Some? then (stack, load)
      else if attribute.namespaceUri != "" then (stack, Load(load.writes, Some(FormatError)))
      else if act == NamePrefix then (NamePrefixed(stack, attribute), load)
      else (stack, Load(load.writes + [(AttributeKey(stack, attribute), attribute.value)], None))
  }

  /** `ProcessAttributes` on all attributes. */
  function Attributes(prefixStack: seq<string>, attributes: seq<XmlAttribute>, act: AttributeAction): (seq<string>, Load)
  {
    AttributesUpTo(prefixStack, attributes, act, |attributes|)
  }

  lemma {:induction false} AttributesSticks(prefixStack: seq<string>, attributes: seq<XmlAttribute>, act: AttributeAction, i: nat, n: nat)
    requires i <= n <= |attributes| && AttributesUpTo(prefixStack, attributes, act, i).1.error.Some?
    ensures AttributesUpTo(prefixStack, attributes, act, n) == AttributesUpTo(prefixStack, attributes, act, i)
    decreases n
  {
    if i < n {
      AttributesSticks(prefixStack, attributes, act, i, n - 1);
    }
  }

  /** What the attribute at `i` adds to the stack and the load of the attributes before it. */
  lemma AttributesNext(prefixStack: seq<string>, attributes: seq<XmlAttribute>, act: AttributeAction, i: nat,
                       stack: seq<string>, done: seq<(string, string)>)
    requires i < |attributes| && AttributesUpTo(prefixStack, attributes, act, i) == (stack, Load(done, None))
    ensures attributes[i].namespaceUri != "" ==>
      AttributesUpTo(prefixStack, attributes, act, i + 1) == (stack, Load(done, Some(FormatError)))
    ensures attributes[i].namespaceUri == "" && act == NamePrefix ==>
      AttributesUpTo(prefixStack, attributes, act, i + 1) == (NamePrefixed(stack, attributes[i]), Load(done, None))
    ensures attributes[i].namespaceUri == "" && act == AttributePair ==>
      AttributesUpTo(prefixStack, attributes, act, i + 1) ==
        (stack, Load(done + [(AttributeKey(stack, attributes[i]), attributes[i].value)], None))
  {
  }

  /** `AddNamePrefix`. */
  method AddNamePrefix(prefixStack: seq<string>, attribute: XmlAttribute) returns (stack: seq<string>)
    ensures stack == NamePrefixed(prefixStack, attribute)
  {
    if Fold(attribute.localName) != Fold(NameAttributeKey) {
      return prefixStack;
    }
    if prefixStack != [] {
      var lastPrefix := prefixStack[|prefixStack| - 1];
      stack := prefixStack[..|prefixStack| - 1];
      var combined := Combine([lastPrefix, attribute.value]);
      stack := stack + [combined];
    } else {
      stack := [attribute.value];
    }
  }

  /** `AddAttributePair`: pushes the attribute's name, writes its value under the path, pops. */
  method AddAttributePair(store: Store, at: NodeId, prefixStack: seq<string>, attribute: XmlAttribute) returns (stack: seq<string>)
    requires store.Valid() && at < |store.nodes|
    modifies store
    ensures store.Valid()
    ensures store.nodes == Added(old(store.nodes), at, Split(AttributeKey(prefixStack, attribute)), attribute.value)
    ensures stack == prefixStack
  {
    stack := prefixStack + [attribute.localName];
    var key := Combine(stack);
    store.AddValue(at, key, attribute.value);
    stack := stack[..|stack| - 1];
  }

  /** `ProcessAttributes(configuration, reader, prefixStack, act)`. */
  method ProcessAttributes(store: Store, at: NodeId, prefixStack: seq<string>, attributes: seq<XmlAttribute>, act: AttributeAction)
    returns (stack: seq<string>, error: Option<SourceError>)
    requires store.Valid() && at < |store.nodes|
    modifies store
    ensures store.Valid()
    ensures store.nodes == AddedAll(old(store.nodes), at, Attributes(prefixStack, attributes, act).1.writes)
    ensures error == Attributes(prefixStack, attributes, act).1.error
    ensures stack == Attributes(prefixStack, attributes, act).0
  {
    stack := prefixStack;
    ghost var start := store.nodes;
    ghost var done: seq<(string, string)> := [];
    for i := 0 to |attributes|
      invariant store.Valid() && at < |store.nodes|
      invariant store.nodes == AddedAll(start, at, done)
      invariant AttributesUpTo(prefixStack, attributes, act, i) == (stack, Load(done, None))
    {
      var attribute := attributes[i];
      AttributesNext(prefixStack, attributes, act, i, stack, done);
      if attribute.namespaceUri != "" {
        AttributesSticks(prefixStack, attributes, act, i + 1, |attributes|);
        return stack, Some(FormatError);
      }
      if act == NamePrefix {
        stack := AddNamePrefix(stack, attribute);
      } else {
        var key := AttributeKey(stack, attribute);
        AddedAllSnoc(start, at, done, (key, attribute.value));
        stack := AddAttributePair(store, at, stack, attribute);
        done := done + [(key, attribute.value)];
      }
    }
    return stack, None;
  }

  // ---------------------------------------------------------------------------
  // The reader loop

  /** The node type remembered for the next turn: a self-closing element counts as ended. */
  function Remembered(node: XmlNode): NodeType
  {
    if node.nodeType == Element && node.isEmptyElement then EndElement else node.nodeType
  }

  /** An element: its name pushed, its attributes processed, and its name popped again when it closes itself. */
  function ElementStep(prefixStack: seq<string>, node: XmlNode): (seq<string>, Load)
  {
    var named := Attributes(prefixStack + [node.localName], node.attributes, NamePrefix);
    var paired := Attributes(named.0, node.attributes, AttributePair);
    var stack := if node.isEmptyElement && paired.0 != [] then paired.0[..|paired.0| - 1] else paired.0;
    (stack, Then(named.1, paired.1))
  }

  /** One turn of the `while (reader.Read())` loop: the new stack, the remembered node type, and the load. */
  function NodeStep(prefixStack: seq<string>, preNodeType: NodeType, node: XmlNode): (seq<string>, NodeType, Load)
  {
    match node.nodeType
    case Element =>
      var step := ElementStep(prefixStack, node);
      (step.0, Remembered(node), step.1)
    case EndElement =>
      if prefixStack == [] then (prefixStack, Remembered(node), Load([], None))
      else
        var writes := if preNodeType == Element then [(Join(prefixStack), "")] else [];
        (prefixStack[..|prefixStack| - 1], Remembered(node), Load(writes, None))
    case CDATA => (prefixStack, Remembered(node), Load([(Join(prefixStack), node.value)], None))
    case Text => (prefixStack, Remembered(node), Load([(Join(prefixStack), node.value)], None))
    case XmlDeclaration => (prefixStack, Remembered(node), Load([], None))
    case ProcessingInstruction => (prefixStack, Remembered(node), Load([], None))
    case Comment => (prefixStack, Remembered(node), Load([], None))
    case Whitespace => (prefixStack, Remembered(node), Load([], None))
    case Unsupported(_) => (prefixStack, Remembered(node), Load([], Some(FormatError)))
  }

  /** The load of the nodes from `i` on. */
  function NodesFrom(nodes: seq<XmlNode>, i: nat, prefixStack: seq<string>, preNodeType: NodeType): Load
    requires i <= |nodes|
    decreases |nodes| - i
  {
    if i == |nodes| then Load([], None)
    else
      var step := NodeStep(prefixStack, preNodeType, nodes[i]);
      Then(step.2, NodesFrom(nodes, i + 1, step.0, step.1))
  }

  /** The prolog: declarations and processing instructions before the root. */
  predicate IsProlog(node: XmlNode)
  {
    node.nodeType == XmlDeclaration || node.nodeType == ProcessingInstruction
  }

  /** The position of the root: the first node past the prolog, or `|nodes|` when there is none. */
  function RootIndex(nodes: seq<XmlNode>, i: nat): (r: nat)
    requires i <= |nodes|
    ensures i <= r <= |nodes|
    ensures forall j | i <= j < r :: IsProlog(nodes[j])
    ensures r < |nodes| ==> !IsProlog(nodes[r])
    decreases |nodes| - i
  {
    if i == |nodes| || !IsProlog(nodes[i]) then i else RootIndex(nodes, i + 1)
  }

  /** The load of a whole document: the root's attributes, then the nodes after it. */
  function XmlLoad(nodes: seq<XmlNode>): Load
  {
    var r := RootIndex(nodes, 0);
    if r == |nodes| then Load([], None)
    else
      var root := nodes[r];
      var named := Attributes([], root.attributes, NamePrefix);
      var paired := Attributes(named.0, root.attributes, AttributePair);
      Then(named.1, Then(paired.1, NodesFrom(nodes, r + 1, paired.0, root.nodeType)))
  }

  /** `SkipUntilRootElement`: reads past the prolog; the result is the position the reader stops at. */
  method SkipUntilRootElement(nodes: seq<XmlNode>) returns (position: nat)
    ensures position == RootIndex(nodes, 0)
  {
    position := 0;
    while position < |nodes|
      invariant position <= |nodes|
      invariant RootIndex(nodes, position) == RootIndex(nodes, 0)
      decreases |nodes| - position
    {
      if nodes[position].nodeType != XmlDeclaration && nodes[position].nodeType != ProcessingInstruction {
        break;
      }
      position := position + 1;
    }
  }

  /** One turn of the reader loop, on the node the reader has just read. */
  method ReadNode(store: Store, at: NodeId, prefixStack: seq<string>, preNodeType: NodeType, node: XmlNode)
    returns (stack: seq<string>, remembered: NodeType, error: Option<SourceError>)
    requires store.Valid() && at < |store.nodes|
    modifies store
    ensures store.Valid()
    ensures store.nodes == AddedAll(old(store.nodes), at, NodeStep(prefixStack, preNodeType, node).2.writes)
    ensures error == NodeStep(prefixStack, preNodeType, node).2.error
    ensures error.None? ==> stack == NodeStep(prefixStack, preNodeType, node).0
    ensures error.None? ==> remembered == NodeStep(prefixStack, preNodeType, node).1
  {
    stack := prefixStack;
    match node.nodeType {
      case Element =>
        var e;
        stack, e := ReadElement(store, at, prefixStack, node);
        if e.Some? {
          return stack, preNodeType, e;
        }
      case EndElement =>
        if stack != [] {
          if preNodeType == Element {
            var key := Combine(stack);
            store.AddValue(at, key, "");
            assert [(key, "")][..0] == [];
          }
          stack := stack[..|stack| - 1];
        }
      case CDATA =>
        var key := Combine(stack);
        store.AddValue(at, key, node.value);
        assert [(key, node.value)][..0] == [];
      case Text =>
        var key := Combine(stack);
        store.AddValue(at, key, node.value);
        assert [(key, node.value)][..0] == [];
      case XmlDeclaration =>
      case ProcessingInstruction =>
      case Comment =>
      case Whitespace =>
      case Unsupported(_) =>
        return stack, preNodeType, Some(FormatError);
    }
    remembered := node.nodeType;
    if remembered == Element && node.isEmptyElement {
      remembered := EndElement;
    }
    error := None;
  }

  /**
   * The `Element` case of the read loop: the name is pushed, both attribute
   * passes run, and a self-closing element pops its name again.
   */
  method ReadElement(store: Store, at: NodeId, prefixStack: seq<string>, node: XmlNode)
    returns (stack: seq<string>, error: Option<SourceError>)
    requires store.Valid() && at < |store.nodes|
    modifies store
    ensures store.Valid()
    ensures store.nodes == AddedAll(old(store.nodes), at, ElementStep(prefixStack, node).1.writes)
    ensures error == ElementStep(prefixStack, node).1.error
    ensures error.None? ==> stack == ElementStep(prefixStack, node).0
  {
    ghost var named := Attributes(prefixStack + [node.localName], node.attributes, NamePrefix);
    ghost var paired := Attributes(named.0, node.attributes, AttributePair);
    AttributesNameWritesNothing(prefixStack + [node.localName], node.attributes, |node.attributes|);
    ThenSilent(named.1, paired.1);
    stack := prefixStack + [node.localName];
    stack, error := ProcessAttributes(store, at, stack, node.attributes, NamePrefix);
    if error.Some? {
      return;
    }
    stack, error := ProcessAttributes(store, at, stack, node.attributes, AttributePair);
    if error.Some? {
      return;
    }
    if node.isEmptyElement && stack != [] {
      stack := stack[..|stack| - 1];
    }
  }

  /** The `NamePrefix` pass writes nothing. */
  lemma {:induction false} AttributesNameWritesNothing(prefixStack: seq<string>, attributes: seq<XmlAttribute>, n: nat)
    requires n <= |attributes|
    ensures AttributesUpTo(prefixStack, attributes, NamePrefix, n).1.writes == []
  {
    if n > 0 {
      AttributesNameWritesNothing(prefixStack, attributes, n - 1);
    }
  }

  /** What one node adds to the load read so far. */
  lemma NodesStep(nodes: seq<XmlNode>, i: nat, prefixStack: seq<string>, preNodeType: NodeType, done: seq<(string, string)>)
    requires i < |nodes|
    ensures var load := NodeStep(prefixStack, preNodeType, nodes[i]).2;
      load.error.Some? ==> Then(Load(done, None), NodesFrom(nodes, i, prefixStack, preNodeType)) == Load(done + load.writes, load.error)
    ensures var step := NodeStep(prefixStack, preNodeType, nodes[i]);
      step.2.error.None? ==>
        Then(Load(done, None), NodesFrom(nodes, i, prefixStack, preNodeType)) ==
        Then(Load(done + step.2.writes, None), NodesFrom(nodes, i + 1, step.0, step.1))
  {
    var step := NodeStep(prefixStack, preNodeType, nodes[i]);
    var rest := NodesFrom(nodes, i + 1, step.0, step.1);
    assert NodesFrom(nodes, i, prefixStack, preNodeType) == Then(step.2, rest);
    assert done + (step.2.writes + rest.writes) == (done + step.2.writes) + rest.writes;
  }

  /**
   * The read loop of `AddXmlFileInternal` on the node `at` of `store`: the
   * prolog is skipped, the root's attributes are processed with an empty
   * stack, then every further node is read until the end or the first
   * exception.
   */
  method AddXmlNodes(store: Store, at: NodeId, nodes: seq<XmlNode>) returns (error: Option<SourceError>)
    requires store.Valid() && at < |store.nodes|
    modifies store
    ensures store.Valid()
    ensures store.nodes == AddedAll(old(store.nodes), at, XmlLoad(nodes).writes)
    ensures error == XmlLoad(nodes).error
  {
    var prefixStack: seq<string> := [];
    var position := SkipUntilRootElement(nodes);
    if position == |nodes| {
      return None;
    }
    var root := nodes[position];
    ghost var start := store.nodes;
    ghost var named := Attributes([], root.attributes, NamePrefix);
    ghost var paired := Attributes(named.0, root.attributes, AttributePair);
    ghost var rest := NodesFrom(nodes, position + 1, paired.0, root.nodeType);
    RootLoad(nodes);
    prefixStack, error := ProcessAttributes(store, at, prefixStack, root.attributes, NamePrefix);
    assert store.nodes == start;
    if error.Some? {
      assert XmlLoad(nodes) == named.1;
      return;
    }
    assert XmlLoad(nodes) == Then(paired.1, rest);
    prefixStack, error := ProcessAttributes(store, at, prefixStack, root.attributes, AttributePair);
    if error.Some? {
      assert XmlLoad(nodes) == paired.1;
      return;
    }
    assert XmlLoad(nodes) == Load(paired.1.writes + rest.writes, rest.error);
    var preNodeType := root.nodeType;
    error := ReadNodes(store, at, nodes, position + 1, prefixStack, preNodeType);
    AddedAllAppend(start, at, paired.1.writes, rest.writes);
  }

  /** How a document's load is made of the root's two attribute passes and the nodes after the root. */
  lemma RootLoad(nodes: seq<XmlNode>)
    requires RootIndex(nodes, 0) < |nodes|
    ensures var r := RootIndex(nodes, 0);
      var root := nodes[r];
      var named := Attributes([], root.attributes, NamePrefix);
      var paired := Attributes(named.0, root.attributes, AttributePair);
      && named.1.writes == []
      && (named.1.error.Some? ==> XmlLoad(nodes) == named.1)
      && (named.1.error.None? ==> XmlLoad(nodes) == Then(paired.1, NodesFrom(nodes, r + 1, paired.0, root.nodeType)))
  {
    var r := RootIndex(nodes, 0);
    var root := nodes[r];
    var named := Attributes([], root.attributes, NamePrefix);
    var paired := Attributes(named.0, root.attributes, AttributePair);
    AttributesNameWritesNothing([], root.attributes, |root.attributes|);
    var rest := NodesFrom(nodes, r + 1, paired.0, root.nodeType);
    var inner := Then(paired.1, rest);
    assert XmlLoad(nodes) == Then(named.1, inner);
    ThenSilent(named.1, inner);
    assert named.1.error.Some? ==> XmlLoad(nodes) == named.1;
    assert named.1.error.None? ==> XmlLoad(nodes) == inner;
  }

  /** The `while (reader.Read())` loop from the node at `i` on. */
  method ReadNodes(store: Store, at: NodeId, nodes: seq<XmlNode>, i: nat, prefixStack: seq<string>, preNodeType: NodeType)
    returns (error: Option<SourceError>)
    requires i <= |nodes|
    requires store.Valid() && at < |store.nodes|
    modifies store
    ensures store.Valid()
    ensures store.nodes == AddedAll(old(store.nodes), at, NodesFrom(nodes, i, prefixStack, preNodeType).writes)
    ensures error == NodesFrom(nodes, i, prefixStack, preNodeType).error
  {
    ghost var whole := NodesFrom(nodes, i, prefixStack, preNodeType);
    ghost var start := store.nodes;
    ghost var done: seq<(string, string)> := [];
    var prefix, previous := prefixStack, preNodeType;
    var k := i;
    while k < |nodes|
      invariant i <= k <= |nodes|
      invariant store.Valid() && at < |store.nodes|
      invariant store.nodes == AddedAll(start, at, done)
      invariant whole == Then(Load(done, None), NodesFrom(nodes, k, prefix, previous))
      decreases |nodes| - k
    {
      var stack, remembered, e := ReadNode(store, at, prefix, previous, nodes[k]);
      ghost var step := NodeStep(prefix, previous, nodes[k]);
      ghost var load := step.2;
      NodesStep(nodes, k, prefix, previous, done);
      AddedAllAppend(start, at, done, load.writes);
      if e.Some? {
        return e;
      }
      done := done + load.writes;
      prefix, previous := stack, remembered;
      k := k + 1;
    }
    assert done + [] == done;
    return None;
  }
}
