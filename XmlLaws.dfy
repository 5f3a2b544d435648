/**
 * What the XML reader loop promises: attributes map to pairs under the
 * prefix, the `Name` attribute renames the top prefix, self-closing and
 * empty elements, text, the root's name, and the exceptions.
 */
module XmlLaws {
  import opened Wrappers
  import opened Strings
  import opened ConfigurationPath
  import opened ConfigurationSources
  import opened Xml

  /** No attribute of `attributes` has a namespace. */
  predicate NoNamespaces(attributes: seq<XmlAttribute>)
  {
    forall k | 0 <= k < |attributes| :: attributes[k].namespaceUri == ""
  }

  /** The pairs written for `attributes` under `prefixStack`: one per attribute, keyed by its name under the prefix. */
  function Pairs(prefixStack: seq<string>, attributes: seq<XmlAttribute>): (r: seq<(string, string)>)
    ensures |r| == |attributes|
    ensures forall k | 0 <= k < |r| :: r[k] == (Join(prefixStack + [attributes[k].localName]), attributes[k].value)
  {
    seq(|attributes|, k requires 0 <= k < |attributes| => (Join(prefixStack + [attributes[k].localName]), attributes[k].value))
  }

  /** The pair pass writes one pair per attribute, in order, and leaves the stack as it was. */
  lemma {:induction false} AttributePairsUpTo(prefixStack: seq<string>, attributes: seq<XmlAttribute>, n: nat)
    requires n <= |attributes| && NoNamespaces(attributes)
    ensures AttributesUpTo(prefixStack, attributes, AttributePair, n) == (prefixStack, Load(Pairs(prefixStack, attributes[..n]), None))
  {
    if n > 0 {
      AttributePairsUpTo(prefixStack, attributes, n - 1);
      assert attributes[..n][..n - 1] == attributes[..n - 1];
      assert Pairs(prefixStack, attributes[..n]) == Pairs(prefixStack, attributes[..n - 1]) + [(AttributeKey(prefixStack, attributes[n - 1]), attributes[n - 1].value)];
    }
  }

  lemma AttributePairsLaw(prefixStack: seq<string>, attributes: seq<XmlAttribute>)
    requires NoNamespaces(attributes)
    ensures Attributes(prefixStack, attributes, AttributePair) == (prefixStack, Load(Pairs(prefixStack, attributes), None))
  {
    AttributePairsUpTo(prefixStack, attributes, |attributes|);
    assert attributes[..|attributes|] == attributes;
  }

  /** Either pass raises `FormatException` exactly when some attribute has a namespace. */
  lemma {:induction false} NamespaceErrorUpTo(prefixStack: seq<string>, attributes: seq<XmlAttribute>, act: AttributeAction, n: nat)
    requires n <= |attributes|
    ensures var error := AttributesUpTo(prefixStack, attributes, act, n).1.error;
      && (error.Some? <==> exists k | 0 <= k < n :: attributes[k].namespaceUri != "")
      && (error.Some? ==> error == Some(FormatError))
  {
    if n > 0 {
      NamespaceErrorUpTo(prefixStack, attributes, act, n - 1);
    }
  }

  lemma NamespaceError(prefixStack: seq<string>, attributes: seq<XmlAttribute>, act: AttributeAction)
    ensures Attributes(prefixStack, attributes, act).1.error.Some? <==> !NoNamespaces(attributes)
    ensures Attributes(prefixStack, attributes, act).1.error.Some? ==> Attributes(prefixStack, attributes, act).1.error == Some(FormatError)
  {
    NamespaceErrorUpTo(prefixStack, attributes, act, |attributes|);
  }

  /**
   * A `Name` attribute, matched ignoring case, replaces the top prefix `t`
   * with `t:value` and leaves the rest of the stack; on an empty stack it is
   * pushed; any other attribute leaves the stack alone.
   */
  lemma NamePrefixLaw(prefixStack: seq<string>, attribute: XmlAttribute)
    ensures var r := NamePrefixed(prefixStack, attribute);
      && (Fold(attribute.localName) != Fold(NameAttributeKey) ==> r == prefixStack)
      && (Fold(attribute.localName) == Fold(NameAttributeKey) && prefixStack == [] ==> r == [attribute.value])
      && (Fold(attribute.localName) == Fold(NameAttributeKey) && prefixStack != [] ==>
            && |r| == |prefixStack|
            && r[..|r| - 1] == prefixStack[..|prefixStack| - 1]
            && r[|r| - 1] == prefixStack[|prefixStack| - 1] + [PathSeparator] + attribute.value)
  {
    if prefixStack != [] && Fold(attribute.localName) == Fold(NameAttributeKey) {
      var t := prefixStack[|prefixStack| - 1];
      assert [t, attribute.value][1..] == [attribute.value];
      assert Join([t, attribute.value]) == t + [PathSeparator] + attribute.value;
      var r := NamePrefixed(prefixStack, attribute);
      assert r == prefixStack[..|prefixStack| - 1] + [Join([t, attribute.value])];
    }
  }

  /** The name pass keeps the depth of a non-empty stack and every prefix below the top. */
  lemma {:induction false} NamePassKeepsDepth(prefixStack: seq<string>, attributes: seq<XmlAttribute>, n: nat)
    requires n <= |attributes| && prefixStack != []
    ensures var r := AttributesUpTo(prefixStack, attributes, NamePrefix, n).0;
      |r| == |prefixStack| && r[..|r| - 1] == prefixStack[..|prefixStack| - 1]
  {
    if n > 0 {
      NamePassKeepsDepth(prefixStack, attributes, n - 1);
      var s := AttributesUpTo(prefixStack, attributes, NamePrefix, n - 1).0;
      NamePrefixLaw(s, attributes[n - 1]);
    }
  }

  /**
   * A self-closing element restores the stack, counts as ended, and writes
   * only its attributes, each under the element's (possibly renamed) prefix;
   * it adds no empty value of its own.
   */
  lemma SelfClosingElement(prefixStack: seq<string>, preNodeType: NodeType, node: XmlNode)
    requires node.nodeType == Element && node.isEmptyElement && NoNamespaces(node.attributes)
    ensures var (stack, remembered, load) := NodeStep(prefixStack, preNodeType, node);
      var named := Attributes(prefixStack + [node.localName], node.attributes, NamePrefix).0;
      && stack == prefixStack
      && remembered == EndElement
      && load == Load(Pairs(named, node.attributes), None)
  {
    var pushed := prefixStack + [node.localName];
    NamePassKeepsDepth(pushed, node.attributes, |node.attributes|);
    AttributesNameWritesNothing(pushed, node.attributes, |node.attributes|);
    NamespaceError(pushed, node.attributes, NamePrefix);
    var named := Attributes(pushed, node.attributes, NamePrefix).0;
    AttributePairsLaw(named, node.attributes);
    assert named[..|named| - 1] == prefixStack;
  }

  /** An element with only a `Name` attribute renames its prefix and also writes that attribute as a pair. */
  lemma NamedElement(prefixStack: seq<string>, preNodeType: NodeType, node: XmlNode, name: string, v: string)
    requires node.nodeType == Element && !node.isEmptyElement
    requires node.attributes == [XmlAttribute(name, "", v)] && Fold(name) == Fold(NameAttributeKey)
    ensures var renamed := prefixStack + [node.localName + [PathSeparator] + v];
      NodeStep(prefixStack, preNodeType, node) == (renamed, Element, Load([(Join(renamed + [name]), v)], None))
  {
    var attribute := node.attributes[0];
    var pushed := prefixStack + [node.localName];
    var renamed := prefixStack + [node.localName + [PathSeparator] + v];
    assert |node.attributes| == 1;
    assert AttributesUpTo(pushed, node.attributes, NamePrefix, 0) == (pushed, Load([], None));
    assert AttributesUpTo(pushed, node.attributes, NamePrefix, 1) == (NamePrefixed(pushed, attribute), Load([], None));
    assert [node.localName, v][1..] == [v];
    assert Join([node.localName, v]) == node.localName + [PathSeparator] + v;
    assert NamePrefixed(pushed, attribute) == renamed by {
      assert pushed[..|pushed| - 1] == prefixStack;
    }
    AttributePairsLaw(renamed, node.attributes);
    assert Pairs(renamed, node.attributes) == [(Join(renamed + [name]), v)];
    assert Attributes(pushed, node.attributes, NamePrefix) == (renamed, Load([], None));
    assert [] + [(Join(renamed + [name]), v)] == [(Join(renamed + [name]), v)];
  }

  /** An element without attributes pushes its name and writes nothing. */
  lemma BareElement(prefixStack: seq<string>, preNodeType: NodeType, node: XmlNode)
    requires node.nodeType == Element && !node.isEmptyElement && node.attributes == []
    ensures NodeStep(prefixStack, preNodeType, node) == (prefixStack + [node.localName], Element, Load([], None))
  {
    var pushed := prefixStack + [node.localName];
    assert Attributes(pushed, [], NamePrefix) == (pushed, Load([], None));
    assert Attributes(pushed, [], AttributePair) == (pushed, Load([], None));
    assert Then(Load([], None), Load([], None)) == Load([], None) by {
      var none: seq<(string, string)> := [];
      assert none + none == none;
    }
  }

  /** `<a></a>`: an end element right after its start writes the empty value under the element's path. */
  lemma EmptyElement(nodes: seq<XmlNode>, i: nat, prefixStack: seq<string>, preNodeType: NodeType)
    requires i + 1 < |nodes|
    requires nodes[i].nodeType == Element && !nodes[i].isEmptyElement && nodes[i].attributes == []
    requires nodes[i + 1].nodeType == EndElement
    ensures NodesFrom(nodes, i, prefixStack, preNodeType) ==
      Prepend((Join(prefixStack + [nodes[i].localName]), ""), NodesFrom(nodes, i + 2, prefixStack, EndElement))
  {
    var pushed := prefixStack + [nodes[i].localName];
    BareElement(prefixStack, preNodeType, nodes[i]);
    assert pushed[..|pushed| - 1] == prefixStack;
    assert NodeStep(pushed, Element, nodes[i + 1]) == (prefixStack, EndElement, Load([(Join(pushed), "")], None));
  }

  /** `<a>text</a>`: the text (or CDATA) is written under the element's path, and the end adds no empty value. */
  lemma TextElement(nodes: seq<XmlNode>, i: nat, prefixStack: seq<string>, preNodeType: NodeType)
    requires i + 2 < |nodes|
    requires nodes[i].nodeType == Element && !nodes[i].isEmptyElement && nodes[i].attributes == []
    requires nodes[i + 1].nodeType == Text || nodes[i + 1].nodeType == CDATA
    requires nodes[i + 2].nodeType == EndElement
    ensures NodesFrom(nodes, i, prefixStack, preNodeType) ==
      Prepend((Join(prefixStack + [nodes[i].localName]), nodes[i + 1].value), NodesFrom(nodes, i + 3, prefixStack, EndElement))
  {
    var pushed := prefixStack + [nodes[i].localName];
    BareElement(prefixStack, preNodeType, nodes[i]);
    assert NodeStep(pushed, Element, nodes[i + 1]) == (pushed, nodes[i + 1].nodeType, Load([(Join(pushed), nodes[i + 1].value)], None));
    assert pushed[..|pushed| - 1] == prefixStack;
    assert NodeStep(pushed, nodes[i + 1].nodeType, nodes[i + 2]) == (prefixStack, EndElement, Load([], None));
    var rest := NodesFrom(nodes, i + 3, prefixStack, EndElement);
    assert NodesFrom(nodes, i + 2, pushed, nodes[i + 1].nodeType) == rest by {
      assert [] + rest.writes == rest.writes;
    }
    var text := Load([(Join(pushed), nodes[i + 1].value)], None);
    assert NodesFrom(nodes, i + 1, pushed, Element) == Then(text, NodesFrom(nodes, i + 2, pushed, nodes[i + 1].nodeType));
    assert Then(text, rest) == Prepend((Join(pushed), nodes[i + 1].value), rest);
    assert NodesFrom(nodes, i, prefixStack, preNodeType) == NodesFrom(nodes, i + 1, pushed, Element) by {
      assert [] + NodesFrom(nodes, i + 1, pushed, Element).writes == NodesFrom(nodes, i + 1, pushed, Element).writes;
    }
  }

  /** An end element pops a non-empty stack and ignores an empty one. */
  lemma EndElementPops(prefixStack: seq<string>, preNodeType: NodeType, node: XmlNode)
    requires node.nodeType == EndElement
    ensures var (stack, remembered, load) := NodeStep(prefixStack, preNodeType, node);
      && stack == (if prefixStack == [] then [] else prefixStack[..|prefixStack| - 1])
      && remembered == EndElement
      && load.error.None?
      && (load.writes != [] <==> prefixStack != [] && preNodeType == Element)
  {
  }

  /** A node of an unsupported type raises `FormatException` and ends the load. */
  lemma UnsupportedNode(nodes: seq<XmlNode>, i: nat, prefixStack: seq<string>, preNodeType: NodeType)
    requires i < |nodes| && nodes[i].nodeType.Unsupported?
    ensures NodesFrom(nodes, i, prefixStack, preNodeType) == Load([], Some(FormatError))
  {
  }

  /** Two node sequences that agree from `i` on load alike from `i` on. */
  lemma {:induction false} NodesFromAgree(nodes: seq<XmlNode>, other: seq<XmlNode>, i: nat, prefixStack: seq<string>, preNodeType: NodeType)
    requires i <= |nodes| == |other|
    requires forall j | i <= j < |nodes| :: nodes[j] == other[j]
    ensures NodesFrom(nodes, i, prefixStack, preNodeType) == NodesFrom(other, i, prefixStack, preNodeType)
    decreases |nodes| - i
  {
    if i < |nodes| {
      var (stack, remembered, load) := NodeStep(prefixStack, preNodeType, nodes[i]);
      NodesFromAgree(nodes, other, i + 1, stack, remembered);
    }
  }

  /** Two node sequences whose node types agree find their root at the same place. */
  lemma {:induction false} RootIndexAgree(nodes: seq<XmlNode>, other: seq<XmlNode>, i: nat)
    requires i <= |nodes| == |other|
    requires forall j | i <= j < |nodes| :: nodes[j].nodeType == other[j].nodeType
    ensures RootIndex(nodes, i) == RootIndex(other, i)
    decreases |nodes| - i
  {
    if i < |nodes| {
      RootIndexAgree(nodes, other, i + 1);
    }
  }

  /** The root element's own name never reaches a key: renaming the root changes nothing. */
  lemma RootNameIgnored(nodes: seq<XmlNode>, name: string)
    requires RootIndex(nodes, 0) < |nodes|
    ensures var r := RootIndex(nodes, 0);
      XmlLoad(nodes[r := nodes[r].(localName := name)]) == XmlLoad(nodes)
  {
    var r := RootIndex(nodes, 0);
    var other := nodes[r := nodes[r].(localName := name)];
    RootIndexAgree(nodes, other, 0);
    RootLoad(nodes);
    RootLoad(other);
    var named := Attributes([], nodes[r].attributes, NamePrefix);
    var paired := Attributes(named.0, nodes[r].attributes, AttributePair);
    NodesFromAgree(nodes, other, r + 1, paired.0, nodes[r].nodeType);
  }

  /** The nodes of `<config Name="app"><port>80</port><flag/></config>`. */
  function AppNodes(): seq<XmlNode>
  {
    [XmlNode(Element, "config", "", [XmlAttribute("Name", "", "app")], false),
     XmlNode(Element, "port", "", [], false),
     XmlNode(Text, "", "80", [], false),
     XmlNode(EndElement, "port", "", [], false),
     XmlNode(Element, "flag", "", [], true),
     XmlNode(EndElement, "config", "", [], false)]
  }

  /** Below the root of `AppNodes`, only the text of `port` is written, as `app:port`. */
  lemma AppBody()
    ensures NodesFrom(AppNodes(), 1, ["app"], Element) == Load([("app:port", "80")], None)
  {
    var nodes := AppNodes();
    TextElement(nodes, 1, ["app"], Element);
    assert Join(["app", "port"]) == "app:port";
    SelfClosingElement(["app"], EndElement, nodes[4]);
    assert NodesFrom(nodes, 5, ["app"], EndElement) == Load([], None) by {
      assert NodesFrom(nodes, 6, [], EndElement) == Load([], None);
    }
    assert NodesFrom(nodes, 4, ["app"], EndElement) == Load([], None);
  }

  /** The root of `AppNodes` pushes `app` and writes its `Name` attribute as `app:Name`. */
  lemma AppRoot()
    ensures var attributes := AppNodes()[0].attributes;
      var named := Attributes([], attributes, NamePrefix);
      && RootIndex(AppNodes(), 0) == 0
      && named == (["app"], Load([], None))
      && Attributes(named.0, attributes, AttributePair) == (["app"], Load([("app:Name", "app")], None))
  {
    var nodes := AppNodes();
    assert RootIndex(nodes, 0) == 0;
    var attributes := nodes[0].attributes;
    assert |attributes| == 1;
    assert AttributesUpTo([], attributes, NamePrefix, 1) == (["app"], Load([], None));
    assert Attributes([], attributes, NamePrefix) == (["app"], Load([], None));
    AttributePairsLaw(["app"], attributes);
    assert Join(["app", "Name"]) == "app:Name";
    assert Pairs(["app"], attributes) == [("app:Name", "app")];
  }

  /**
   * `<config Name="app"><port>80</port><flag/></config>` writes the root's
   * `Name` attribute as `app:Name` and the text as `app:port`; the
   * self-closing `flag` and the root's end add nothing.
   */
  lemma AppDocument()
    ensures XmlLoad(AppNodes()) == Load([("app:Name", "app"), ("app:port", "80")], None)
  {
    var nodes := AppNodes();
    AppRoot();
    AppBody();
    RootLoad(nodes);
    var name, port := Load([("app:Name", "app")], None), Load([("app:port", "80")], None);
    assert XmlLoad(nodes) == Then(name, port);
    assert [("app:Name", "app")] + [("app:port", "80")] == [("app:Name", "app"), ("app:port", "80")];
  }
}
