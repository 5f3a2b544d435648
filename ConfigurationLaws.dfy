/**
 * What the tree operations promise: read-after-write, last write wins, other
 * paths unaffected, creation of only the missing nodes, and removal.
 */
module ConfigurationLaws {
  import opened Wrappers
  import opened ConfigurationPath
  import opened Configuration

  /** `AddValue`'s effect: it keeps the arena well formed, reuses every existing node, creates exactly the missing intermediate nodes, and the value reads back. */
  lemma AddValueReadBack(nodes: seq<Node>, at: NodeId, segments: seq<string>, value: string)
    requires WellFormed(nodes) && at < |nodes| && |segments| >= 1
    ensures var r := Added(nodes, at, segments, value);
      && WellFormed(r)
      && Extends(nodes, r)
      && |r| == |nodes| + (|segments| - 1 - ResolvableDepth(nodes, at, segments[..|segments| - 1]))
      && Lookup(r, at, segments) == Some(value)
  {
    var init := segments[..|segments| - 1];
    WalkFacts(nodes, at, init);
    var (walked, owner) := Walk(nodes, at, init);
    SetValueFacts(walked, owner, segments[|segments| - 1], value);
    var r := Added(nodes, at, segments, value);
    ResolveSameChildren(walked, r, at, init);
  }

  /** The walk of `AddValue` only adds nodes without values, so every lookup reads as before. */
  lemma LookupAfterWalk(nodes: seq<Node>, walked: seq<Node>, at: NodeId, qs: seq<string>)
    requires WellFormed(nodes) && WellFormed(walked) && at < |nodes| && |qs| >= 1
    requires Extends(nodes, walked) && SameValues(nodes, walked)
    ensures Lookup(walked, at, qs) == Lookup(nodes, at, qs)
  {
    var qi := qs[..|qs| - 1];
    if Resolve(nodes, at, qi).Some? {
      ResolveMonotone(nodes, walked, at, qi);
    }
    var x := Resolve(walked, at, qi);
    if x.Some? && x.value < |nodes| {
      ResolveReflect(nodes, walked, at, qi);
    }
  }

  /** Setting the value `key` of `owner` leaves every other segment sequence reading as before. */
  lemma {:induction false} LookupAfterSet(nodes: seq<Node>, at: NodeId, init: seq<string>, key: string, value: string,
                                          owner: NodeId, qs: seq<string>)
    requires WellFormed(nodes) && Resolve(nodes, at, init) == Some(owner)
    requires |qs| >= 1 && qs != init + [key]
    ensures Lookup(nodes[owner := SetValue(nodes[owner], key, value)], at, qs) == Lookup(nodes, at, qs)
  {
    var r := nodes[owner := SetValue(nodes[owner], key, value)];
    var qi := qs[..|qs| - 1];
    assert forall i | 0 <= i < |nodes| :: r[i].children == nodes[i].children;
    ResolveSameChildren(nodes, r, at, qi);
    var x := Resolve(nodes, at, qi);
    if x == Some(owner) {
      ResolveUnique(nodes, at, qi, init);
      assert qi + [qs[|qs| - 1]] == qs;
      assert qs[|qs| - 1] != key;
    } else if x.Some? {
      assert r[x.value] == nodes[x.value];
    }
  }

  /** `AddValue` changes no value other than the one it writes, as seen from the node it is invoked on. */
  lemma AddValueOthersUnchanged(nodes: seq<Node>, at: NodeId, segments: seq<string>, value: string, q: seq<string>)
    requires WellFormed(nodes) && at < |nodes| && |segments| >= 1
    requires |q| >= 1 && q != segments
    ensures Lookup(Added(nodes, at, segments, value), at, q) == Lookup(nodes, at, q)
  {
    var init, last := segments[..|segments| - 1], segments[|segments| - 1];
    WalkFacts(nodes, at, init);
    var (walked, owner) := Walk(nodes, at, init);
    assert init + [last] == segments;
    LookupAfterSet(walked, at, init, last, value, owner, q);
    LookupAfterWalk(nodes, walked, at, q);
  }

  /** Writing `a` and then `b` is writing `a + b`: a source that feeds its writes one batch at a time builds the same tree. */
  lemma {:induction false} AddedAllAppend(nodes: seq<Node>, at: NodeId, a: seq<(string, string)>, b: seq<(string, string)>)
    requires at < |nodes| && Closed(nodes)
    ensures AddedAll(nodes, at, a + b) == AddedAll(AddedAll(nodes, at, a), at, b)
    decreases |b|
  {
    if b == [] {
      assert a + b == a;
    } else {
      var front, last := b[..|b| - 1], b[|b| - 1];
      assert b == front + [last];
      assert a + b == (a + front) + [last];
      AddedAllAppend(nodes, at, a, front);
      AddedAllSnoc(nodes, at, a + front, last);
      AddedAllSnoc(AddedAll(nodes, at, a), at, front, last);
    }
  }

  /** Writing one more pair is one more `AddValue` on the tree written so far. */
  lemma AddedAllSnoc(nodes: seq<Node>, at: NodeId, writes: seq<(string, string)>, last: (string, string))
    requires at < |nodes| && Closed(nodes)
    ensures AddedAll(nodes, at, writes + [last]) == Added(AddedAll(nodes, at, writes), at, Split(last.0), last.1)
  {
    assert (writes + [last])[..|writes|] == writes;
  }

  /** Writing a sequence of `(path, value)` pairs: every path reads back its LAST written value, and unwritten paths keep theirs. */
  lemma {:induction false} LastWriteWins(nodes: seq<Node>, at: NodeId, writes: seq<(string, string)>, path: string)
    requires WellFormed(nodes) && at < |nodes|
    ensures WellFormed(AddedAll(nodes, at, writes))
    ensures ValueAt(AddedAll(nodes, at, writes), at, path) ==
      match LastWrite(writes, path)
      case Some(v) => Some(v)
      case None => ValueAt(nodes, at, path)
    decreases |writes|
  {
    if writes != [] {
      var earlier := writes[..|writes| - 1];
      LastWriteWins(nodes, at, earlier, path);
      var before := AddedAll(nodes, at, earlier);
      var (p, v) := writes[|writes| - 1];
      AddValueReadBack(before, at, Split(p), v);
      if p != path {
        if Split(p) == Split(path) {
          SplitInjective(p, path);
        }
        AddValueOthersUnchanged(before, at, Split(p), v, Split(path));
      }
    }
  }

  /** The value `RemoveValue` removed reads null afterwards. */
  lemma RemovedValueIsGone(nodes: seq<Node>, at: NodeId, path: string, owner: NodeId)
    requires WellFormed(nodes) && at < |nodes|
    requires Resolve(nodes, at, Split(path)[..|Split(path)| - 1]) == Some(owner)
    ensures ValueAt(nodes[owner := RemoveValueEntry(nodes[owner], GetLast(path))], at, path) == None
  {
    var r := nodes[owner := RemoveValueEntry(nodes[owner], GetLast(path))];
    var segs := Split(path);
    assert forall i | 0 <= i < |nodes| :: r[i].children == nodes[i].children;
    ResolveSameChildren(nodes, r, at, segs[..|segs| - 1]);
    assert GetLast(path) !in r[owner].values;
  }

  /** Removing the value `key` of `owner` leaves every other segment sequence reading as before. */
  lemma {:induction false} LookupAfterRemove(nodes: seq<Node>, at: NodeId, init: seq<string>, key: string, owner: NodeId, qs: seq<string>)
    requires WellFormed(nodes) && Resolve(nodes, at, init) == Some(owner)
    requires |qs| >= 1 && qs != init + [key]
    ensures Lookup(nodes[owner := RemoveValueEntry(nodes[owner], key)], at, qs) == Lookup(nodes, at, qs)
  {
    var r := nodes[owner := RemoveValueEntry(nodes[owner], key)];
    var qi := qs[..|qs| - 1];
    assert forall i | 0 <= i < |nodes| :: r[i].children == nodes[i].children;
    ResolveSameChildren(nodes, r, at, qi);
    var x := Resolve(nodes, at, qi);
    if x == Some(owner) {
      ResolveUnique(nodes, at, qi, init);
      assert qi + [qs[|qs| - 1]] == qs;
      assert qs[|qs| - 1] != key;
    } else if x.Some? {
      assert r[x.value] == nodes[x.value];
    }
  }

  /** `RemoveValue` leaves the value at every other path as it was. */
  lemma RemoveValueKeepsOthers(nodes: seq<Node>, at: NodeId, path: string, owner: NodeId, q: string)
    requires WellFormed(nodes) && at < |nodes|
    requires Resolve(nodes, at, Split(path)[..|Split(path)| - 1]) == Some(owner)
    requires q != path
    ensures ValueAt(nodes[owner := RemoveValueEntry(nodes[owner], GetLast(path))], at, q) == ValueAt(nodes, at, q)
  {
    var segs := Split(path);
    var init := segs[..|segs| - 1];
    assert init + [GetLast(path)] == segs;
    if Split(q) == segs {
      SplitInjective(q, path);
    }
    LookupAfterRemove(nodes, at, init, GetLast(path), owner, Split(q));
  }

  /** After `RemoveValue` found the owning node, the value is gone, every other value is unchanged and no node is removed. */
  lemma RemoveValueLaws(nodes: seq<Node>, at: NodeId, path: string, owner: NodeId, q: string)
    requires WellFormed(nodes) && at < |nodes|
    requires Resolve(nodes, at, Split(path)[..|Split(path)| - 1]) == Some(owner)
    ensures var r := nodes[owner := RemoveValueEntry(nodes[owner], GetLast(path))];
      && |r| == |nodes|
      && (forall i | 0 <= i < |nodes| :: r[i].children == nodes[i].children)
      && ValueAt(r, at, path) == None
      && (q != path ==> ValueAt(r, at, q) == ValueAt(nodes, at, q))
  {
    RemovedValueIsGone(nodes, at, path, owner);
    if q != path {
      RemoveValueKeepsOthers(nodes, at, path, owner, q);
    }
  }

  /** `r` has the nodes of `nodes` with some children entries dropped. */
  ghost predicate Shrinks(nodes: seq<Node>, r: seq<Node>)
  {
    && |r| == |nodes|
    && forall i | 0 <= i < |nodes| ::
         forall k | k in r[i].children :: k in nodes[i].children && r[i].children[k] == nodes[i].children[k]
  }

  lemma {:induction false} ResolveShrinks(nodes: seq<Node>, r: seq<Node>, from: NodeId, segments: seq<string>)
    requires Shrinks(nodes, r)
    requires Resolve(r, from, segments).Some?
    ensures Resolve(nodes, from, segments) == Resolve(r, from, segments)
    decreases |segments|
  {
    if segments != [] {
      ResolveShrinks(nodes, r, r[from].children[segments[0]], segments[1..]);
    }
  }

  /** Once the parent of the node `segments` reaches has lost its entry for the last segment, `segments` no longer resolves. */
  lemma DetachedPathGone(nodes: seq<Node>, r: seq<Node>, at: NodeId, segments: seq<string>, p: NodeId)
    requires |segments| >= 1 && p < |nodes|
    requires Resolve(nodes, at, segments[..|segments| - 1]) == Some(p)
    requires r == nodes[p := RemoveChildEntry(nodes[p], segments[|segments| - 1])]
    requires Shrinks(nodes, r)
    ensures Resolve(r, at, segments) == None
  {
    var init, last := segments[..|segments| - 1], segments[|segments| - 1];
    assert init + [last] == segments;
    ResolveAppend(r, at, init, last);
    if Resolve(r, at, init).Some? {
      ResolveShrinks(nodes, r, at, init);
      assert last !in r[p].children;
    }
  }

  /**
   * After `RemoveChildren` detached the subtree `t` from its parent: the path
   * no longer resolves, nothing below it is reachable any more, and the
   * detached nodes themselves are still there, unchanged.
   */
  lemma RemoveChildrenLaws(nodes: seq<Node>, at: NodeId, path: string, q: string)
    requires WellFormed(nodes) && at < |nodes|
    requires SubtreeAt(nodes, at, path).Some?
    ensures var t := SubtreeAt(nodes, at, path).value;
      && nodes[t].parent.Some? && nodes[t].parent.value < t
      && var p := nodes[t].parent.value;
         var r := nodes[p := RemoveChildEntry(nodes[p], GetLast(path))];
         && WellFormed(r)
         && |r| == |nodes| && r[t] == nodes[t]
         && SubtreeAt(r, at, path) == None
         && (|Split(q)| > |Split(path)| && Split(q)[..|Split(path)|] == Split(path) ==> ValueAt(r, at, q) == None)
  {
    var segs := Split(path);
    var t := SubtreeAt(nodes, at, path).value;
    ResolvedHasParent(nodes, at, segs);
    assert NodeOk(nodes, t);
    var p := nodes[t].parent.value;
    var r := nodes[p := RemoveChildEntry(nodes[p], GetLast(path))];
    RemoveChildFacts(nodes, p, GetLast(path));
    RemoveChildShrinks(nodes, p, GetLast(path));
    DetachedPathGone(nodes, r, at, segs, p);
    assert SubtreeAt(r, at, path) == None;
    var qs := Split(q);
    if |qs| > |segs| && qs[..|segs|] == segs {
      BelowUnresolvedGone(r, at, segs, qs);
    }
  }

  /** Removing one child entry only shrinks the tree. */
  lemma RemoveChildShrinks(nodes: seq<Node>, p: NodeId, key: string)
    requires p < |nodes|
    ensures Shrinks(nodes, nodes[p := RemoveChildEntry(nodes[p], key)])
  {
  }

  /** No value lies strictly below a prefix that does not resolve. */
  lemma BelowUnresolvedGone(nodes: seq<Node>, at: NodeId, segments: seq<string>, qs: seq<string>)
    requires Resolve(nodes, at, segments) == None
    requires |qs| > |segments| && qs[..|segments|] == segments
    ensures Lookup(nodes, at, qs) == None
  {
    var qi := qs[..|qs| - 1];
    assert qi == segments + qi[|segments|..];
    ResolvePrefixNone(nodes, at, segments, qi[|segments|..]);
  }

  // ---------------------------------------------------------------------------
  // The Path property

  /** The absolute path of a node, as the `Path` property is documented to be: its parent's absolute path, then its name. */
  function AbsolutePath(nodes: seq<Node>, id: NodeId): Option<string>
    requires WellFormed(nodes) && id < |nodes|
    decreases id
  {
    assert NodeOk(nodes, id);
    match nodes[id].parent
    case None => nodes[id].name
    case Some(p) =>
      match AbsolutePath(nodes, p)
      case Some(parentPath) => Some(parentPath + [PathSeparator] + nodes[id].name.GetOr(""))
      case None => nodes[id].name
  }

  /** Below an unnamed root, the absolute path of a node is the path that leads to it. */
  lemma {:induction false} AbsolutePathIsResolvedPath(nodes: seq<Node>, root: NodeId, segments: seq<string>)
    requires WellFormed(nodes) && root < |nodes|
    requires nodes[root].name == None && nodes[root].parent == None
    requires segments != [] && Resolve(nodes, root, segments).Some?
    ensures AbsolutePath(nodes, Resolve(nodes, root, segments).value) == Some(Join(segments))
    decreases |segments|
  {
    var init, last := segments[..|segments| - 1], segments[|segments| - 1];
    assert init + [last] == segments;
    ResolvedHasParent(nodes, root, segments);
    var t := Resolve(nodes, root, segments).value;
    assert NodeOk(nodes, nodes[t].parent.value);
    if init == [] {
      assert segments == [last];
    } else {
      AbsolutePathIsResolvedPath(nodes, root, init);
      JoinAppend(init, last);
    }
  }

  lemma SplitABCV()
    ensures Split("a:b:c:v") == ["a", "b", "c", "v"]
  {
    assert "a:b:c:v" == "a" + [PathSeparator] + ("b" + [PathSeparator] + ("c" + [PathSeparator] + "v"));
    SplitPrefix("a", "b" + [PathSeparator] + ("c" + [PathSeparator] + "v"));
    SplitPrefix("b", "c" + [PathSeparator] + "v");
    SplitPrefix("c", "v");
    SplitSegment("v");
  }

  /** The `Path` property of a node reached by two or more segments is its parent's segment and its own. */
  lemma PathOfResolved(nodes: seq<Node>, from: NodeId, segments: seq<string>)
    requires WellFormed(nodes) && |segments| >= 2
    requires Resolve(nodes, from, segments).Some?
    ensures PathOf(nodes, Resolve(nodes, from, segments).value) ==
      Some(segments[|segments| - 2] + [PathSeparator] + segments[|segments| - 1])
  {
    var t := Resolve(nodes, from, segments).value;
    var init := segments[..|segments| - 1];
    ResolvedHasParent(nodes, from, segments);
    ResolvedHasParent(nodes, from, init);
    assert init[|init| - 1] == segments[|segments| - 2];
    var m := nodes[t].parent.value;
    assert NodeOk(nodes, m);
    assert NodeOk(nodes, nodes[m].parent.value);
  }

  /**
   * On any tree whose root is unnamed, after `AddValue("a:b:c:v", "x")` the
   * `Path` property of the node at "a:b:c" is "b:c", not its absolute path "a:b:c".
   */
  lemma PathDropsAncestors(nodes: seq<Node>, root: NodeId)
    requires WellFormed(nodes) && root < |nodes|
    requires nodes[root].name == None && nodes[root].parent == None
    ensures var r := Added(nodes, root, Split("a:b:c:v"), "x");
      && WellFormed(r)
      && Resolve(r, root, ["a", "b", "c"]).Some?
      && PathOf(r, Resolve(r, root, ["a", "b", "c"]).value) == Some("b:c")
      && AbsolutePath(r, Resolve(r, root, ["a", "b", "c"]).value) == Some("a:b:c")
  {
    SplitABCV();
    var segs := Split("a:b:c:v");
    var abc := ["a", "b", "c"];
    assert segs[..3] == abc;
    AddValueReadBack(nodes, root, segs, "x");
    var r := Added(nodes, root, segs, "x");
    assert Lookup(r, root, segs) == Some("x");
    assert Resolve(r, root, abc).Some?;
    PathOfResolved(r, root, abc);
    AbsolutePathIsResolvedPath(r, root, abc);
    JoinABC();
  }

  lemma JoinABC()
    ensures Join(["a", "b", "c"]) == "a:b:c"
  {
    var abc := ["a", "b", "c"];
    assert abc[1..] == ["b", "c"] && ["b", "c"][1..] == ["c"];
    assert Join(["c"]) == "c";
    assert Join(["b", "c"]) == "b:c";
  }
}
