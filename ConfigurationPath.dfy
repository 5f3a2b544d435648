/**
 * The path algebra of the configuration tree: a path is a string whose segments
 * are separated by ':'.  Segments may be empty; splitting never fails.
 */
module ConfigurationPath {
  import opened Wrappers

  /** The separator between the segments of a path. */
  const PathSeparator: char := ':'

  /** Number of separators in `s`. */
  function SeparatorCount(s: string): nat
  {
    if s == [] then 0
    else (if s[0] == PathSeparator then 1 else 0) + SeparatorCount(s[1..])
  }

  /**
   * `path.Split(':')`: the segments between separators, in order.  The result
   * always has one more segment than `path` has separators, so it is never
   * empty, and no segment contains a separator.
   */
  function Split(path: string): (parts: seq<string>)
    ensures |parts| == SeparatorCount(path) + 1
    ensures forall i | 0 <= i < |parts| :: PathSeparator !in parts[i]
  {
    if path == [] then [""]
    else
      var rest := Split(path[1..]);
      if path[0] == PathSeparator then [""] + rest
      else [[path[0]] + rest[0]] + rest[1..]
  }

  /**
   * The path made of `parts`: the parts joined by single separators, with no
   * separator at either end.  The empty sequence gives the empty path.
   */
  function Join(parts: seq<string>): string
  {
    if parts == [] then ""
    else if |parts| == 1 then parts[0]
    else parts[0] + [PathSeparator] + Join(parts[1..])
  }

  /** Every part followed by one separator, as Combine's buffer holds it before trimming. */
  function Terminated(parts: seq<string>): string
  {
    if parts == [] then ""
    else Terminated(parts[..|parts| - 1]) + parts[|parts| - 1] + [PathSeparator]
  }

  /**
   * `Combine`: appends each part and a separator to a buffer, then drops the
   * last character of the buffer when there is one.
   */
  method Combine(parts: seq<string>) returns (path: string)
    ensures path == Join(parts)
    ensures parts == [] ==> path == ""
  {
    var buffer := "";
    for i := 0 to |parts|
      invariant buffer == Terminated(parts[..i])
    {
      assert parts[..i + 1][..i] == parts[..i];
      buffer := buffer + parts[i] + [PathSeparator];
    }
    assert parts[..|parts|] == parts;
    TerminatedIsJoinPlusSeparator(parts);
    if |buffer| > 0 {
      buffer := buffer[..|buffer| - 1];
    }
    path := buffer;
  }

  /**
   * `SkipLast`: the path without its last segment, which is the part of the
   * path before its last separator; None when there is only one segment.
   */
  function SkipLast(path: string): (r: Option<string>)
    ensures r.None? <==> |Split(path)| == 1
    ensures r.Some? ==> |r.value| < |path| && path[..|r.value|] == r.value && path[|r.value|] == PathSeparator
  {
    var parts := Split(path);
    if |parts| == 1 then None
    else
      var init := parts[..|parts| - 1];
      JoinAppend(init, parts[|parts| - 1]);
      assert init + [parts[|parts| - 1]] == parts;
      JoinSplit(path);
      Some(Join(init))
  }

  /** `GetLast`: the last segment of the path, a suffix of it without separators. */
  function GetLast(path: string): (r: string)
    ensures PathSeparator !in r
    ensures |r| <= |path| && path[|path| - |r|..] == r
  {
    var parts := Split(path);
    var last := parts[|parts| - 1];
    JoinSplit(path);
    if |parts| == 1 then
      last
    else
      JoinAppend(parts[..|parts| - 1], last);
      assert parts[..|parts| - 1] + [last] == parts;
      last
  }

  // ---------------------------------------------------------------------------
  // Laws

  lemma {:induction false} JoinAppend(parts: seq<string>, last: string)
    requires parts != []
    ensures Join(parts + [last]) == Join(parts) + [PathSeparator] + last
  {
    if |parts| == 1 {
      assert parts + [last] == [parts[0], last];
    } else {
      assert (parts + [last])[1..] == parts[1..] + [last];
      JoinAppend(parts[1..], last);
    }
  }

  lemma {:induction false} TerminatedIsJoinPlusSeparator(parts: seq<string>)
    ensures Terminated(parts) == if parts == [] then "" else Join(parts) + [PathSeparator]
  {
    if |parts| > 1 {
      var init := parts[..|parts| - 1];
      TerminatedIsJoinPlusSeparator(init);
      JoinAppend(init, parts[|parts| - 1]);
      assert init + [parts[|parts| - 1]] == parts;
    } else if |parts| == 1 {
      assert parts[..0] == [];
    }
  }

  /** Combining the segments of any path gives the path back. */
  lemma {:induction false} JoinSplit(path: string)
    ensures Join(Split(path)) == path
  {
    if path != [] {
      JoinSplit(path[1..]);
      var rest := Split(path[1..]);
      if path[0] == PathSeparator {
        assert ([""] + rest)[1..] == rest;
      } else if |rest| > 1 {
        assert ([[path[0]] + rest[0]] + rest[1..])[1..] == rest[1..];
      }
    }
  }

  /** Splitting a combined path gives the parts back, when there is at least one part and none contains ':'. */
  lemma {:induction false} SplitJoin(parts: seq<string>)
    requires |parts| >= 1
    requires forall i | 0 <= i < |parts| :: PathSeparator !in parts[i]
    ensures Split(Join(parts)) == parts
  {
    if |parts| == 1 {
      SplitSegment(parts[0]);
    } else {
      SplitJoin(parts[1..]);
      SplitPrefix(parts[0], Join(parts[1..]));
      assert [parts[0]] + parts[1..] == parts;
    }
  }

  /** A string without separators is a single segment. */
  lemma {:induction false} SplitSegment(s: string)
    requires PathSeparator !in s
    ensures Split(s) == [s]
  {
    if s != [] {
      assert s[0] in s && PathSeparator !in s[1..];
      SplitSegment(s[1..]);
      assert [s[0]] + s[1..] == s;
    }
  }

  lemma {:induction false} SplitPrefix(segment: string, rest: string)
    requires PathSeparator !in segment
    ensures Split(segment + [PathSeparator] + rest) == [segment] + Split(rest)
  {
    if segment == [] {
      assert ([PathSeparator] + rest)[1..] == rest;
    } else {
      var whole := segment + [PathSeparator] + rest;
      assert whole[0] == segment[0] && segment[0] in segment;
      assert whole[1..] == segment[1..] + [PathSeparator] + rest;
      assert PathSeparator !in segment[1..];
      SplitPrefix(segment[1..], rest);
      assert [segment[0]] + segment[1..] == segment;
    }
  }

  lemma {:induction false} NoSeparatorCount(s: string)
    ensures SeparatorCount(s) == 0 <==> PathSeparator !in s
  {
    if s != [] {
      NoSeparatorCount(s[1..]);
      assert s == [s[0]] + s[1..];
    }
  }

  /** There is no last segment to skip exactly when the path has no separator. */
  lemma SkipLastNoneIff(path: string)
    ensures SkipLast(path).None? <==> PathSeparator !in path
  {
    NoSeparatorCount(path);
  }

  /** `GetLast` never contains a separator, and a path without separators is its own last segment. */
  lemma GetLastSegment(path: string)
    ensures PathSeparator !in GetLast(path)
    ensures PathSeparator !in path ==> GetLast(path) == path
  {
    if PathSeparator !in path {
      SplitSegment(path);
    }
  }

  /** When a last segment can be skipped, the skipped path, a separator and the last segment make up the path. */
  lemma SkipLastGetLast(path: string)
    requires SkipLast(path).Some?
    ensures SkipLast(path).value + [PathSeparator] + GetLast(path) == path
  {
    var parts := Split(path);
    var init := parts[..|parts| - 1];
    JoinAppend(init, parts[|parts| - 1]);
    assert init + [parts[|parts| - 1]] == parts;
    JoinSplit(path);
  }

  /** The segments of `SkipLast(path)` are those of `path` without the last. */
  lemma SplitSkipLast(path: string)
    requires SkipLast(path).Some?
    ensures Split(SkipLast(path).value) == Split(path)[..|Split(path)| - 1]
  {
    var parts := Split(path);
    SplitJoin(parts[..|parts| - 1]);
  }

  /** Two paths with the same segments are the same path. */
  lemma SplitInjective(p: string, q: string)
    requires Split(p) == Split(q)
    ensures p == q
  {
    JoinSplit(p);
    JoinSplit(q);
  }
}
