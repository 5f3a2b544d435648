/**
 * The configuration tree.  Every `Configuration` object of the program is a
 * slot of an arena (`Store.nodes`); a reference to a node is its index, a
 * `NodeId`.  A node has an optional name, an optional parent, a map from child
 * name to child node and a map from value name to string value.  The two
 * `...Order` sequences record the enumeration order of those dictionaries
 * (insertion order).
 */
module Configuration {
  import opened Wrappers
  import opened ConfigurationPath

  type NodeId = nat

  datatype Node = Node(
    name: Option<string>,
    parent: Option<NodeId>,
    children: map<string, NodeId>,
    childOrder: seq<string>,
    values: map<string, string>,
    valueOrder: seq<string>)

  /** A node as the constructor `Configuration(name, parent)` leaves it: no children, no values. */
  function NewNode(name: Option<string>, parent: Option<NodeId>): Node
  {
    Node(name, parent, map[], [], map[], [])
  }

  /** `order` lists every key of `keys` exactly once. */
  ghost predicate Enumerates(order: seq<string>, keys: set<string>)
  {
    && Distinct(order)
    && (forall k :: k in keys <==> k in order)
  }

  /** The invariant of node `i` of the arena. */
  ghost predicate NodeOk(nodes: seq<Node>, i: nat)
    requires i < |nodes|
  {
    var n := nodes[i];
    && Enumerates(n.childOrder, n.children.Keys)
    && Enumerates(n.valueOrder, n.values.Keys)
    && (n.parent.Some? ==> n.parent.value < i)
    && (forall k | k in n.children ::
          && i < n.children[k] < |nodes|
          && nodes[n.children[k]].parent == Some(i)
          && nodes[n.children[k]].name == Some(k))
  }

  /**
   * The arena invariant: a child is created after its parent (so its index is
   * larger), knows its parent, and carries the name it is registered under.
   */
  ghost predicate WellFormed(nodes: seq<Node>)
  {
    && Closed(nodes)
    && forall i | 0 <= i < |nodes| :: NodeOk(nodes, i)
  }

  /** Every registered child is a node of the arena. */
  ghost predicate Closed(nodes: seq<Node>)
  {
    forall i, k | 0 <= i < |nodes| && k in nodes[i].children :: nodes[i].children[k] < |nodes|
  }

  // ---------------------------------------------------------------------------
  // Resolution of paths

  /** The node reached from `from` by following the children named `segments`, in order. */
  function Resolve(nodes: seq<Node>, from: NodeId, segments: seq<string>): (r: Option<NodeId>)
    ensures r.Some? ==> r.value < |nodes|
    decreases |segments|
  {
    if from >= |nodes| then None
    else if segments == [] then Some(from)
    else if segments[0] in nodes[from].children then
      Resolve(nodes, nodes[from].children[segments[0]], segments[1..])
    else None
  }

  /** The value that `segments` names below `from`: the last segment names a value of the node the others lead to. */
  function Lookup(nodes: seq<Node>, from: NodeId, segments: seq<string>): Option<string>
    requires |segments| >= 1
  {
    match Resolve(nodes, from, segments[..|segments| - 1])
    case None => None
    case Some(owner) =>
      var key := segments[|segments| - 1];
      if key in nodes[owner].values then Some(nodes[owner].values[key]) else None
  }

  /** The value at string path `path` below `from`, as `GetValue` reports it. */
  function ValueAt(nodes: seq<Node>, from: NodeId, path: string): Option<string>
  {
    Lookup(nodes, from, Split(path))
  }

  /** The subtree at string path `path` below `from`, as `GetChildren` reports it. */
  function SubtreeAt(nodes: seq<Node>, from: NodeId, path: string): Option<NodeId>
  {
    Resolve(nodes, from, Split(path))
  }

  /** How many leading segments of `segments` resolve from `from`. */
  function ResolvableDepth(nodes: seq<Node>, from: NodeId, segments: seq<string>): (d: nat)
    ensures d <= |segments|
    decreases |segments|
  {
    if from >= |nodes| || segments == [] || segments[0] !in nodes[from].children then 0
    else 1 + ResolvableDepth(nodes, nodes[from].children[segments[0]], segments[1..])
  }

  // ---------------------------------------------------------------------------
  // Updates, as functions of the arena

  /** `_children.Add(name, id)` on a node that has no child `name`. */
  function AddChild(n: Node, name: string, id: NodeId): Node
  {
    n.(children := n.children[name := id], childOrder := n.childOrder + [name])
  }

  /** `_values[key] = value`: overwrites an existing entry in place, appends a new one. */
  function SetValue(n: Node, key: string, value: string): Node
  {
    n.(values := n.values[key := value],
       valueOrder := if key in n.values then n.valueOrder else n.valueOrder + [key])
  }

  /** `order` without the element `k`. */
  function Without(order: seq<string>, k: string): (r: seq<string>)
    ensures forall x :: x in r <==> x in order && x != k
  {
    if order == [] then []
    else if order[0] == k then Without(order[1..], k)
    else [order[0]] + Without(order[1..], k)
  }

  /** `_values.Remove(key)`. */
  function RemoveValueEntry(n: Node, key: string): Node
  {
    n.(values := n.values - {key}, valueOrder := Without(n.valueOrder, key))
  }

  /** `_children.Remove(key)`. */
  function RemoveChildEntry(n: Node, key: string): Node
  {
    n.(children := n.children - {key}, childOrder := Without(n.childOrder, key))
  }

  /** One iteration of `AddValue`'s loop: reuse child `name` of `cur`, or create and register it. */
  function Step(nodes: seq<Node>, cur: NodeId, name: string): (r: (seq<Node>, NodeId))
    requires cur < |nodes| && Closed(nodes)
    ensures Closed(r.0) && r.1 < |r.0| && |nodes| <= |r.0|
  {
    if name in nodes[cur].children then (nodes, nodes[cur].children[name])
    else
      var id := |nodes|;
      var r := nodes[cur := AddChild(nodes[cur], name, id)] + [NewNode(Some(name), Some(cur))];
      assert forall i, k | 0 <= i < |r| && k in r[i].children :: r[i].children[k] < |r| by {
        forall i, k | 0 <= i < |r| && k in r[i].children ensures r[i].children[k] < |r| {
          if i < |nodes| && i != cur {
            assert r[i] == nodes[i];
          }
        }
      }
      (r, id)
  }

  /** `AddValue`'s loop over the intermediate segments: the arena afterwards and the node reached. */
  function Walk(nodes: seq<Node>, cur: NodeId, segments: seq<string>): (r: (seq<Node>, NodeId))
    requires cur < |nodes| && Closed(nodes)
    ensures Closed(r.0) && r.1 < |r.0| && |nodes| <= |r.0|
    decreases |segments|
  {
    if segments == [] then (nodes, cur)
    else
      var (next, child) := Step(nodes, cur, segments[0]);
      Walk(next, child, segments[1..])
  }

  /** The arena after `AddValue` with the segments of the path. */
  function Added(nodes: seq<Node>, at: NodeId, segments: seq<string>, value: string): (r: seq<Node>)
    requires at < |nodes| && Closed(nodes) && |segments| >= 1
    ensures Closed(r) && |nodes| <= |r|
  {
    var (walked, owner) := Walk(nodes, at, segments[..|segments| - 1]);
    var r := walked[owner := SetValue(walked[owner], segments[|segments| - 1], value)];
    assert forall i | 0 <= i < |r| :: r[i].children == walked[i].children;
    r
  }

  /** The arena after applying `writes` in order, each as one `AddValue`. */
  function AddedAll(nodes: seq<Node>, at: NodeId, writes: seq<(string, string)>): (r: seq<Node>)
    requires at < |nodes| && Closed(nodes)
    ensures Closed(r) && |nodes| <= |r|
    decreases |writes|
  {
    if writes == [] then nodes
    else
      var before := AddedAll(nodes, at, writes[..|writes| - 1]);
      var (path, value) := writes[|writes| - 1];
      Added(before, at, Split(path), value)
  }

  /** The value of the last write to `path` in `writes`, if any. */
  function LastWrite(writes: seq<(string, string)>, path: string): Option<string>
    decreases |writes|
  {
    if writes == [] then None
    else if writes[|writes| - 1].0 == path then Some(writes[|writes| - 1].1)
    else LastWrite(writes[..|writes| - 1], path)
  }

  /** The node's `Path` property: only the parent's name is prefixed, not the whole chain of ancestors. */
  function PathOf(nodes: seq<Node>, id: NodeId): Option<string>
    requires id < |nodes| && WellFormed(nodes)
  {
    match nodes[id].parent
    case None => nodes[id].name
    case Some(p) =>
      assert NodeOk(nodes, id);
      match nodes[p].name
      case Some(parentName) => Some(parentName + [PathSeparator] + nodes[id].name.GetOr(""))
      case None => nodes[id].name
  }

  // ---------------------------------------------------------------------------
  // The class

  /** All `Configuration` objects; the methods take the node they are invoked on as `at`. */
  class Store {
    var nodes: seq<Node>

    ghost predicate Valid()
      reads this
    {
      WellFormed(nodes)
    }

    /** An empty arena; roots are made with `NewConfiguration(None, None)`. */
    constructor ()
      ensures Valid() && nodes == []
    {
      nodes := [];
    }

    /** `new Configuration(name, parent)`: a node with no children or values; the parent does not register it. */
    method NewConfiguration(name: Option<string>, parent: Option<NodeId>) returns (id: NodeId)
      requires Valid()
      requires parent.Some? ==> parent.value < |nodes|
      modifies this
      ensures Valid()
      ensures id == old(|nodes|) && nodes == old(nodes) + [NewNode(name, parent)]
    {
      id := |nodes|;
      nodes := nodes + [NewNode(name, parent)];
      assert forall i | 0 <= i < |nodes| - 1 :: NodeOk(nodes, i) by {
        forall i | 0 <= i < |nodes| - 1 ensures NodeOk(nodes, i) {
          assert NodeOk(old(nodes), i);
        }
      }
    }

    /** `AddValue(path, value)` on node `at`. */
    method AddValue(at: NodeId, path: string, value: string)
      requires Valid() && at < |nodes|
      modifies this
      ensures Valid()
      ensures nodes == Added(old(nodes), at, Split(path), value)
    {
      ghost var start := nodes;
      var current: NodeId := at;
      var parts := Split(path);
      ghost var init := parts[..|parts| - 1];
      if |parts| > 1 {
        for i := 0 to |parts| - 1
          invariant Valid() && current < |nodes|
          invariant Walk(nodes, current, init[i..]) == Walk(start, at, init)
        {
          assert init[i..][1..] == init[i + 1..];
          ghost var before := nodes;
          StepFacts(nodes, current, parts[i]);
          if parts[i] !in nodes[current].children {
            var newChild := NewConfiguration(Some(parts[i]), Some(current));
            nodes := nodes[current := AddChild(nodes[current], parts[i], newChild)];
          }
          assert nodes == Step(before, current, parts[i]).0;
          current := nodes[current].children[parts[i]];
        }
      }
      assert Walk(nodes, current, []) == Walk(start, at, init) by {
        assert init[|init|..] == [];
      }
      SetValueFacts(nodes, current, parts[|parts| - 1], value);
      nodes := nodes[current := SetValue(nodes[current], parts[|parts| - 1], value)];
    }

    /** `GetChildren(path)` on node `at`; None at the first segment that is missing. */
    method GetChildren(at: NodeId, path: string) returns (result: Option<NodeId>)
      requires Valid() && at < |nodes|
      ensures result == SubtreeAt(nodes, at, path)
    {
      result := None;
      var parts := Split(path);
      var i := 0;
      while i < |parts|
        invariant 0 <= i <= |parts|
        invariant i == 0 ==> result == None
        invariant i > 0 ==> result.Some? && result.value < |nodes|
        invariant Resolve(nodes, at, parts) == Resolve(nodes, if i == 0 then at else result.value, parts[i..])
      {
        var current := if result.None? then at else result.value;
        if parts[i] in nodes[current].children {
          result := Some(nodes[current].children[parts[i]]);
          assert NodeOk(nodes, current);
          assert parts[i..][1..] == parts[i + 1..];
        } else {
          result := None;
          break;
        }
        i := i + 1;
      }
      if i == |parts| {
        assert parts[i..] == [];
      }
    }

    /** `GetValue(path)` on node `at`; None when the owning node or the value is missing. */
    method GetValue(at: NodeId, path: string) returns (r: Option<string>)
      requires Valid() && at < |nodes|
      ensures r == ValueAt(nodes, at, path)
    {
      var childPath := SkipLast(path);
      var valueName := GetLast(path);
      var config: Option<NodeId> := Some(at);
      if childPath.Some? {
        config := GetChildren(at, childPath.value);
        SplitSkipLast(path);
      } else {
        assert Split(path)[..0] == [];
      }
      r := None;
      if config.Some? && valueName in nodes[config.value].values {
        r := Some(nodes[config.value].values[valueName]);
      }
    }

    /** `RemoveValue(path)` on node `at`: true exactly when the owning node was found, whether or not it had the value. */
    method RemoveValue(at: NodeId, path: string) returns (removed: bool)
      requires Valid() && at < |nodes|
      modifies this
      ensures Valid()
      ensures var owner := Resolve(old(nodes), at, Split(path)[..|Split(path)| - 1]);
        && removed == owner.Some?
        && nodes == (if owner.Some? then old(nodes)[owner.value := RemoveValueEntry(old(nodes)[owner.value], GetLast(path))]
                     else old(nodes))
    {
      var childPath := SkipLast(path);
      var valueName := GetLast(path);
      var children: Option<NodeId> := Some(at);
      if childPath.Some? {
        children := GetChildren(at, childPath.value);
        SplitSkipLast(path);
      } else {
        assert Split(path)[..0] == [];
      }
      if children.Some? {
        RemoveValueFacts(nodes, children.value, valueName);
        nodes := nodes[children.value := RemoveValueEntry(nodes[children.value], valueName)];
        removed := true;
      } else {
        removed := false;
      }
    }

    /**
     * `RemoveChildren(path)` on node `at`: detaches the subtree from its own
     * parent, under the subtree's last path segment; false when there is no subtree.
     */
    method RemoveChildren(at: NodeId, path: string) returns (removed: bool)
      requires Valid() && at < |nodes|
      modifies this
      ensures Valid()
      ensures var target := SubtreeAt(old(nodes), at, path);
        && removed == target.Some?
        && (target.Some? ==>
              && old(nodes)[target.value].parent.Some?
              && old(nodes)[target.value].parent.value < |old(nodes)|
              && var p := old(nodes)[target.value].parent.value;
                 nodes == old(nodes)[p := RemoveChildEntry(old(nodes)[p], GetLast(path))])
        && (target.None? ==> nodes == old(nodes))
    {
      var childToRemove := GetChildren(at, path);
      if childToRemove.Some? {
        var childName := GetLast(path);
        ResolvedHasParent(nodes, at, Split(path));
        assert NodeOk(nodes, childToRemove.value);
        var parent := nodes[childToRemove.value].parent.value;
        removed := childName in nodes[parent].children;
        RemoveChildFacts(nodes, parent, childName);
        nodes := nodes[parent := RemoveChildEntry(nodes[parent], childName)];
      } else {
        removed := false;
      }
    }

    /** Applies each `(path, value)` of `writes`, in order, through `AddValue` on node `at`. */
    method AddValues(at: NodeId, writes: seq<(string, string)>)
      requires Valid() && at < |nodes|
      modifies this
      ensures Valid()
      ensures nodes == AddedAll(old(nodes), at, writes)
    {
      for i := 0 to |writes|
        invariant Valid() && at < |nodes|
        invariant nodes == AddedAll(old(nodes), at, writes[..i])
      {
        assert writes[..i + 1][..i] == writes[..i];
        AddValue(at, writes[i].0, writes[i].1);
      }
      assert writes[..|writes|] == writes;
    }

    /** The `Parent` property. */
    function Parent(id: NodeId): Option<NodeId>
      reads this
      requires Valid() && id < |nodes|
    {
      nodes[id].parent
    }

    /** The `Name` property. */
    function Name(id: NodeId): Option<string>
      reads this
      requires Valid() && id < |nodes|
    {
      nodes[id].name
    }

    /** The `Path` property. */
    function Path(id: NodeId): Option<string>
      reads this
      requires Valid() && id < |nodes|
    {
      PathOf(nodes, id)
    }

    /** The `Children` property (a read-only view). */
    function Children(id: NodeId): map<string, NodeId>
      reads this
      requires Valid() && id < |nodes|
    {
      nodes[id].children
    }

    /** The `Values` property (a read-only view). */
    function Values(id: NodeId): map<string, string>
      reads this
      requires Valid() && id < |nodes|
    {
      nodes[id].values
    }
  }

  // ---------------------------------------------------------------------------
  // Facts about single updates

  lemma WithoutEnumerates(order: seq<string>, keys: set<string>, k: string)
    requires Enumerates(order, keys)
    ensures Enumerates(Without(order, k), keys - {k})
  {
    WithoutDistinct(order, k);
  }

  /** Appending a new key to an enumeration order enumerates the dictionary with that key added. */
  lemma AppendEnumerates(order: seq<string>, keys: set<string>, k: string)
    requires Enumerates(order, keys) && k !in keys
    ensures Enumerates(order + [k], keys + {k})
  {
    var r := order + [k];
    assert forall j | 0 <= j < |order| :: r[j] == order[j] && order[j] in keys;
  }

  ghost predicate Distinct(s: seq<string>)
  {
    forall i, j | 0 <= i < j < |s| :: s[i] != s[j]
  }

  /** An enumeration order is as long as the dictionary has entries (`Count`). */
  lemma {:induction false} EnumeratesCount(order: seq<string>, keys: set<string>)
    requires Enumerates(order, keys)
    ensures |keys| == |order|
    decreases |order|
  {
    if order == [] {
      assert forall k :: k !in order;
    } else {
      var rest := order[1..];
      assert Distinct(rest) by {
        forall i, j | 0 <= i < j < |rest| ensures rest[i] != rest[j] {
          assert rest[i] == order[i + 1] && rest[j] == order[j + 1];
        }
      }
      forall k ensures k in keys - {order[0]} <==> k in rest {
        if k in rest {
          var j :| 0 <= j < |rest| && rest[j] == k;
          assert order[j + 1] == k;
        }
        if k in keys && k != order[0] {
          assert k in order;
          var j :| 0 <= j < |order| && order[j] == k;
          assert j != 0 && rest[j - 1] == k;
        }
      }
      EnumeratesCount(rest, keys - {order[0]});
      assert order[0] in keys;
    }
  }

  lemma {:induction false} WithoutDistinct(order: seq<string>, k: string)
    requires Distinct(order)
    ensures Distinct(Without(order, k))
  {
    if order != [] {
      var tail := order[1..];
      assert Distinct(tail) by {
        forall i, j | 0 <= i < j < |tail| ensures tail[i] != tail[j] {
          assert tail[i] == order[i + 1] && tail[j] == order[j + 1];
        }
      }
      WithoutDistinct(tail, k);
      var rest := Without(tail, k);
      if order[0] != k {
        forall j | 0 <= j < |rest| ensures rest[j] != order[0] {
          assert rest[j] in rest;
          assert rest[j] in tail;
          var m :| 0 <= m < |tail| && tail[m] == rest[j];
          assert order[m + 1] == rest[j];
        }
        var r := [order[0]] + rest;
        forall i, j | 0 <= i < j < |r| ensures r[i] != r[j] {
          assert r[j] == rest[j - 1];
          if i > 0 {
            assert r[i] == rest[i - 1];
          }
        }
        assert Without(order, k) == r;
      }
    }
  }

  lemma SetValueFacts(nodes: seq<Node>, owner: NodeId, key: string, value: string)
    requires WellFormed(nodes) && owner < |nodes|
    ensures WellFormed(nodes[owner := SetValue(nodes[owner], key, value)])
  {
    var r := nodes[owner := SetValue(nodes[owner], key, value)];
    forall i | 0 <= i < |r| ensures NodeOk(r, i) {
      assert NodeOk(nodes, i);
      var n := nodes[owner];
      if i == owner && key !in n.values {
        AppendEnumerates(n.valueOrder, n.values.Keys, key);
        assert r[i].values.Keys == n.values.Keys + {key};
      }
    }
  }

  lemma RemoveValueFacts(nodes: seq<Node>, owner: NodeId, key: string)
    requires WellFormed(nodes) && owner < |nodes|
    ensures WellFormed(nodes[owner := RemoveValueEntry(nodes[owner], key)])
  {
    assert NodeOk(nodes, owner);
    WithoutEnumerates(nodes[owner].valueOrder, nodes[owner].values.Keys, key);
    var r := nodes[owner := RemoveValueEntry(nodes[owner], key)];
    forall i | 0 <= i < |r| ensures NodeOk(r, i) {
      assert NodeOk(nodes, i);
    }
  }

  lemma RemoveChildFacts(nodes: seq<Node>, p: NodeId, key: string)
    requires WellFormed(nodes) && p < |nodes|
    ensures WellFormed(nodes[p := RemoveChildEntry(nodes[p], key)])
  {
    assert NodeOk(nodes, p);
    WithoutEnumerates(nodes[p].childOrder, nodes[p].children.Keys, key);
    var r := nodes[p := RemoveChildEntry(nodes[p], key)];
    forall i | 0 <= i < |r| ensures NodeOk(r, i) {
      assert NodeOk(nodes, i);
      forall k | k in r[i].children
        ensures r[r[i].children[k]] == nodes[nodes[i].children[k]] || r[i].children[k] == p
      {
      }
    }
  }

  /** `r` keeps the nodes of `nodes` and their children, and only adds children that are new nodes. */
  ghost predicate Extends(nodes: seq<Node>, r: seq<Node>)
  {
    && |nodes| <= |r|
    && forall i | 0 <= i < |nodes| ::
         && r[i].name == nodes[i].name
         && r[i].parent == nodes[i].parent
         && (forall k | k in nodes[i].children :: k in r[i].children && r[i].children[k] == nodes[i].children[k])
         && (forall k | k in r[i].children && k !in nodes[i].children :: r[i].children[k] >= |nodes|)
  }

  /** The values of old nodes are unchanged and new nodes have none. */
  ghost predicate SameValues(nodes: seq<Node>, r: seq<Node>)
    requires |nodes| <= |r|
  {
    && (forall i | 0 <= i < |nodes| :: r[i].values == nodes[i].values)
    && (forall i | |nodes| <= i < |r| :: r[i].values == map[])
  }

  lemma ExtendsTransitive(a: seq<Node>, b: seq<Node>, c: seq<Node>)
    requires Extends(a, b) && Extends(b, c)
    ensures Extends(a, c)
  {
  }

  lemma StepFacts(nodes: seq<Node>, cur: NodeId, name: string)
    requires WellFormed(nodes) && cur < |nodes|
    ensures Closed(nodes)
    ensures var (r, child) := Step(nodes, cur, name);
      && WellFormed(r) && Extends(nodes, r) && SameValues(nodes, r)
      && name in r[cur].children && r[cur].children[name] == child
      && |r| == |nodes| + (if name in nodes[cur].children then 0 else 1)
  {
    WellFormedClosed(nodes);
    if name !in nodes[cur].children {
      NewChildWellFormed(nodes, cur, name);
    }
  }

  /** Creating child `name` of `cur` keeps the arena invariant. */
  lemma NewChildWellFormed(nodes: seq<Node>, cur: NodeId, name: string)
    requires WellFormed(nodes) && cur < |nodes| && name !in nodes[cur].children
    ensures Closed(nodes) && WellFormed(Step(nodes, cur, name).0)
  {
    WellFormedClosed(nodes);
    var r := Step(nodes, cur, name).0;
    forall i | 0 <= i < |r| ensures NodeOk(r, i) {
      if i == cur {
        NewChildParentOk(nodes, cur, name);
      } else if i < |nodes| {
        NewChildKeepsOthers(nodes, cur, name, i);
      } else {
        NewChildLeafOk(nodes, cur, name);
      }
    }
  }

  /** Adding a child leaves every other old node well formed. */
  lemma NewChildKeepsOthers(nodes: seq<Node>, cur: NodeId, name: string, i: nat)
    requires WellFormed(nodes) && cur < |nodes| && name !in nodes[cur].children
    requires i < |nodes| && i != cur
    ensures Closed(nodes) && NodeOk(Step(nodes, cur, name).0, i)
  {
    WellFormedClosed(nodes);
    var r := Step(nodes, cur, name).0;
    assert NodeOk(nodes, i);
    assert r[i] == nodes[i];
    assert forall j | 0 <= j < |nodes| :: r[j].name == nodes[j].name && r[j].parent == nodes[j].parent;
  }

  /** Adding a child leaves its parent well formed, with the child last in its order. */
  lemma NewChildParentOk(nodes: seq<Node>, cur: NodeId, name: string)
    requires WellFormed(nodes) && cur < |nodes| && name !in nodes[cur].children
    ensures Closed(nodes) && NodeOk(Step(nodes, cur, name).0, cur)
  {
    WellFormedClosed(nodes);
    var r := Step(nodes, cur, name).0;
    assert NodeOk(nodes, cur);
    AppendEnumerates(nodes[cur].childOrder, nodes[cur].children.Keys, name);
    assert r[cur].children.Keys == nodes[cur].children.Keys + {name};
    assert forall j | 0 <= j < |nodes| :: r[j].name == nodes[j].name && r[j].parent == nodes[j].parent;
  }

  /** The added child is well formed: it has no children or values and a smaller parent. */
  lemma NewChildLeafOk(nodes: seq<Node>, cur: NodeId, name: string)
    requires WellFormed(nodes) && cur < |nodes| && name !in nodes[cur].children
    ensures Closed(nodes) && NodeOk(Step(nodes, cur, name).0, |nodes|)
  {
    WellFormedClosed(nodes);
  }

  lemma WellFormedClosed(nodes: seq<Node>)
    requires WellFormed(nodes)
    ensures Closed(nodes)
  {
    forall i, k | 0 <= i < |nodes| && k in nodes[i].children ensures nodes[i].children[k] < |nodes| {
      assert NodeOk(nodes, i);
    }
  }

  lemma {:induction false} WalkFacts(nodes: seq<Node>, cur: NodeId, segments: seq<string>)
    requires WellFormed(nodes) && cur < |nodes|
    ensures Closed(nodes)
    ensures var (r, owner) := Walk(nodes, cur, segments);
      && WellFormed(r) && Extends(nodes, r) && SameValues(nodes, r)
      && Resolve(r, cur, segments) == Some(owner)
      && |r| == |nodes| + (|segments| - ResolvableDepth(nodes, cur, segments))
    decreases |segments|
  {
    WellFormedClosed(nodes);
    if segments != [] {
      StepFacts(nodes, cur, segments[0]);
      var (next, child) := Step(nodes, cur, segments[0]);
      WalkFacts(next, child, segments[1..]);
      var (r, owner) := Walk(next, child, segments[1..]);
      ExtendsTransitive(nodes, next, r);
      if segments[0] in nodes[cur].children {
        assert next == nodes;
      } else {
        ResolvableDepthOfFresh(next, child, segments[1..]);
      }
    }
  }

  /** Nothing resolves below a node that has no children. */
  lemma ResolvableDepthOfFresh(nodes: seq<Node>, id: NodeId, segments: seq<string>)
    requires id < |nodes| && nodes[id].children == map[]
    ensures ResolvableDepth(nodes, id, segments) == 0
  {
  }

  // ---------------------------------------------------------------------------
  // Facts about resolution

  /** Resolving one more segment steps from the node the others reach to its child of that name. */
  lemma {:induction false} ResolveAppend(nodes: seq<Node>, from: NodeId, segments: seq<string>, last: string)
    ensures Resolve(nodes, from, segments + [last]) ==
      match Resolve(nodes, from, segments)
      case None => None
      case Some(m) => if last in nodes[m].children then Resolve(nodes, nodes[m].children[last], []) else None
    decreases |segments|
  {
    if from < |nodes| && segments != [] {
      assert (segments + [last])[1..] == segments[1..] + [last];
      if segments[0] in nodes[from].children {
        ResolveAppend(nodes, nodes[from].children[segments[0]], segments[1..], last);
      }
    }
  }

  /** In a well-formed arena a path leads to a node created no earlier than where it starts, strictly later if it is not empty. */
  lemma {:induction false} ResolveGrows(nodes: seq<Node>, from: NodeId, segments: seq<string>)
    requires WellFormed(nodes)
    requires Resolve(nodes, from, segments).Some?
    ensures from <= Resolve(nodes, from, segments).value
    ensures segments != [] ==> from < Resolve(nodes, from, segments).value
    decreases |segments|
  {
    if segments != [] {
      assert NodeOk(nodes, from);
      ResolveGrows(nodes, nodes[from].children[segments[0]], segments[1..]);
    }
  }

  /** In a well-formed arena two paths from the same node that reach the same node are the same path. */
  lemma {:induction false} ResolveUnique(nodes: seq<Node>, from: NodeId, s1: seq<string>, s2: seq<string>)
    requires WellFormed(nodes)
    requires Resolve(nodes, from, s1).Some? && Resolve(nodes, from, s1) == Resolve(nodes, from, s2)
    ensures s1 == s2
    decreases |s1| + |s2|
  {
    if s1 == [] || s2 == [] {
      ResolveGrows(nodes, from, s1);
      ResolveGrows(nodes, from, s2);
    } else {
      var a1, x1 := s1[..|s1| - 1], s1[|s1| - 1];
      var a2, x2 := s2[..|s2| - 1], s2[|s2| - 1];
      assert a1 + [x1] == s1 && a2 + [x2] == s2;
      ResolveAppend(nodes, from, a1, x1);
      ResolveAppend(nodes, from, a2, x2);
      var m1, m2 := Resolve(nodes, from, a1).value, Resolve(nodes, from, a2).value;
      assert NodeOk(nodes, m1) && NodeOk(nodes, m2);
      ResolveUnique(nodes, from, a1, a2);
    }
  }

  /** What resolves in an arena still resolves, to the same node, in an extension of it. */
  lemma {:induction false} ResolveMonotone(nodes: seq<Node>, r: seq<Node>, from: NodeId, segments: seq<string>)
    requires Extends(nodes, r)
    requires Resolve(nodes, from, segments).Some?
    ensures Resolve(r, from, segments) == Resolve(nodes, from, segments)
    decreases |segments|
  {
    if segments != [] {
      ResolveMonotone(nodes, r, nodes[from].children[segments[0]], segments[1..]);
    }
  }

  /** A path that reaches an old node in a well-formed extension reaches it in the original arena already. */
  lemma {:induction false} ResolveReflect(nodes: seq<Node>, r: seq<Node>, from: NodeId, segments: seq<string>)
    requires Extends(nodes, r) && WellFormed(r) && from < |nodes|
    requires Resolve(r, from, segments).Some? && Resolve(r, from, segments).value < |nodes|
    ensures Resolve(nodes, from, segments) == Resolve(r, from, segments)
    decreases |segments|
  {
    if segments != [] {
      var c := r[from].children[segments[0]];
      ResolveGrows(r, c, segments[1..]);
      ResolveReflect(nodes, r, c, segments[1..]);
    }
  }

  /** Resolution depends on the children maps only. */
  lemma {:induction false} ResolveSameChildren(nodes: seq<Node>, r: seq<Node>, from: NodeId, segments: seq<string>)
    requires |nodes| == |r| && forall i | 0 <= i < |nodes| :: r[i].children == nodes[i].children
    ensures Resolve(r, from, segments) == Resolve(nodes, from, segments)
    decreases |segments|
  {
    if from < |nodes| && segments != [] && segments[0] in nodes[from].children {
      ResolveSameChildren(nodes, r, nodes[from].children[segments[0]], segments[1..]);
    }
  }

  /** Once a path fails to resolve, so does every longer path through it. */
  lemma {:induction false} ResolvePrefixNone(nodes: seq<Node>, from: NodeId, prefix: seq<string>, rest: seq<string>)
    requires Resolve(nodes, from, prefix).None?
    ensures Resolve(nodes, from, prefix + rest).None?
    decreases |prefix|
  {
    if from < |nodes| && prefix != [] {
      assert (prefix + rest)[1..] == prefix[1..] + rest;
      if prefix[0] in nodes[from].children {
        ResolvePrefixNone(nodes, nodes[from].children[prefix[0]], prefix[1..], rest);
      }
    }
  }

  /** A node reached by a non-empty path has a parent, which holds it under the last segment. */
  lemma ResolvedHasParent(nodes: seq<Node>, from: NodeId, segments: seq<string>)
    requires WellFormed(nodes) && |segments| >= 1
    requires Resolve(nodes, from, segments).Some?
    ensures var t := Resolve(nodes, from, segments).value;
      && nodes[t].parent.Some?
      && Resolve(nodes, from, segments[..|segments| - 1]) == nodes[t].parent
      && segments[|segments| - 1] in nodes[nodes[t].parent.value].children
      && nodes[nodes[t].parent.value].children[segments[|segments| - 1]] == t
  {
    var init, last := segments[..|segments| - 1], segments[|segments| - 1];
    assert init + [last] == segments;
    ResolveAppend(nodes, from, init, last);
    assert NodeOk(nodes, Resolve(nodes, from, init).value);
  }
}
