/** The few `System.String` operations the configuration sources rely on, over `seq<char>`. */
module Strings {
  import opened Wrappers

  /** `s.StartsWith(prefix)`, ordinal. */
  predicate StartsWith(s: string, prefix: string)
  {
    prefix <= s
  }

  /** `s.IndexOf(c)`: the position of the first `c` in `s`, if any. */
  function IndexOf(s: string, c: char): (r: Option<nat>)
    ensures r.Some? ==> r.value < |s| && s[r.value] == c && c !in s[..r.value]
    ensures r.None? ==> c !in s
  {
    if s == [] then None
    else if s[0] == c then Some(0)
    else
      match IndexOf(s[1..], c)
      case None => None
      case Some(i) =>
        assert s[..i + 1] == [s[0]] + s[1..][..i];
        Some(i + 1)
  }

  /** The first `c` of `a + [c] + b` is at `|a|` when `a` holds none. */
  lemma IndexOfFirst(a: string, c: char, b: string)
    requires c !in a
    ensures IndexOf(a + [c] + b, c) == Some(|a|)
  {
    var s := a + [c] + b;
    assert s[|a|] == c;
    assert s[..|a|] == a;
  }

  /** `s.TrimStart(cs)`: `s` without its leading characters from `cs`. */
  function TrimStart(s: string, cs: set<char>): string
  {
    if s != [] && s[0] in cs then TrimStart(s[1..], cs) else s
  }

  /** `s.TrimEnd(cs)`: `s` without its trailing characters from `cs`. */
  function TrimEnd(s: string, cs: set<char>): string
  {
    if s != [] && s[|s| - 1] in cs then TrimEnd(s[..|s| - 1], cs) else s
  }

  /** `s.Trim(cs)`: `s` without its leading and trailing characters from `cs`. */
  function Trim(s: string, cs: set<char>): string
  {
    TrimEnd(TrimStart(s, cs), cs)
  }

  /** `TrimStart` removes a prefix made of characters of `cs` and stops at the first other one. */
  lemma {:induction false} TrimStartLaw(s: string, cs: set<char>)
    ensures var r := TrimStart(s, cs);
      && |r| <= |s| && r == s[|s| - |r|..]
      && (forall k | 0 <= k < |s| - |r| :: s[k] in cs)
      && (r == [] || r[0] !in cs)
  {
    if s != [] && s[0] in cs {
      var t := s[1..];
      TrimStartLaw(t, cs);
      var r := TrimStart(t, cs);
      assert t[|t| - |r|..] == s[|s| - |r|..];
      forall k | 0 <= k < |s| - |r| ensures s[k] in cs {
        if k > 0 {
          assert s[k] == t[k - 1];
        }
      }
    }
  }

  /** `TrimEnd` removes a suffix made of characters of `cs` and stops at the last other one. */
  lemma {:induction false} TrimEndLaw(s: string, cs: set<char>)
    ensures var r := TrimEnd(s, cs);
      && |r| <= |s| && r == s[..|r|]
      && (forall k | |r| <= k < |s| :: s[k] in cs)
      && (r == [] || r[|r| - 1] !in cs)
  {
    if s != [] && s[|s| - 1] in cs {
      TrimEndLaw(s[..|s| - 1], cs);
    }
  }

  /**
   * What `Trim` leaves is a contiguous part of `s` that neither starts nor
   * ends with a character of `cs`; everything it removes is from `cs`; and
   * it removes everything exactly when every character is from `cs`.
   */
  lemma TrimLaw(s: string, cs: set<char>)
    ensures var r := Trim(s, cs);
      var a := |s| - |TrimStart(s, cs)|;
      && 0 <= a && a + |r| <= |s|
      && r == s[a..a + |r|]
      && (forall k | 0 <= k < a :: s[k] in cs)
      && (forall k | a + |r| <= k < |s| :: s[k] in cs)
      && (r == [] || (r[0] !in cs && r[|r| - 1] !in cs))
      && (r == [] <==> forall k | 0 <= k < |s| :: s[k] in cs)
  {
    var t := TrimStart(s, cs);
    TrimStartLaw(s, cs);
    TrimEndLaw(t, cs);
    var r := Trim(s, cs);
    var a := |s| - |t|;
    assert r == s[a..a + |r|];
    if r != [] {
      assert r[0] == t[0];
    }
  }

  /** A string that neither starts nor ends with a character of `cs` is its own trim. */
  lemma TrimUntouched(s: string, cs: set<char>)
    requires s == [] || (s[0] !in cs && s[|s| - 1] !in cs)
    ensures Trim(s, cs) == s
  {
  }

  /** Leading characters of `cs` make no difference to `TrimStart`. */
  lemma {:induction false} TrimStartSkips(before: string, rest: string, cs: set<char>)
    requires forall k | 0 <= k < |before| :: before[k] in cs
    ensures TrimStart(before + rest, cs) == TrimStart(rest, cs)
  {
    if before != [] {
      assert (before + rest)[0] == before[0];
      assert (before + rest)[1..] == before[1..] + rest;
      assert before[0] in cs;
      TrimStartSkips(before[1..], rest, cs);
    } else {
      assert before + rest == rest;
    }
  }

  /** Trailing characters of `cs` make no difference to `TrimEnd`. */
  lemma {:induction false} TrimEndSkips(rest: string, after: string, cs: set<char>)
    requires forall k | 0 <= k < |after| :: after[k] in cs
    ensures TrimEnd(rest + after, cs) == TrimEnd(rest, cs)
  {
    if after != [] {
      assert (rest + after)[|rest + after| - 1] == after[|after| - 1];
      assert (rest + after)[..|rest + after| - 1] == rest + after[..|after| - 1];
      assert after[|after| - 1] in cs;
      TrimEndSkips(rest, after[..|after| - 1], cs);
    } else {
      assert rest + after == rest;
    }
  }

  /** `Trim` removes exactly the padding around a string that is already trimmed. */
  lemma TrimPadded(before: string, s: string, after: string, cs: set<char>)
    requires forall k | 0 <= k < |before| :: before[k] in cs
    requires forall k | 0 <= k < |after| :: after[k] in cs
    requires s == [] || (s[0] !in cs && s[|s| - 1] !in cs)
    ensures Trim(before + s + after, cs) == s
  {
    assert before + s + after == before + (s + after);
    TrimStartSkips(before, s + after, cs);
    if s == [] {
      assert s + after == after + [];
      TrimStartSkips(after, [], cs);
    } else {
      assert (s + after)[0] == s[0];
      TrimEndSkips(s, after, cs);
    }
  }

  /** Trimming what is already trimmed changes nothing. */
  lemma TrimIdempotent(s: string, cs: set<char>)
    ensures Trim(Trim(s, cs), cs) == Trim(s, cs)
  {
    TrimLaw(s, cs);
    TrimUntouched(Trim(s, cs), cs);
  }

  /** The characters `char.IsWhiteSpace` accepts: the Unicode space, line and paragraph separators, and U+0009 to U+000D and U+0085. */
  const WhiteSpace: set<char> := {
    '\t', '\n', '\U{000B}', '\U{000C}', '\r', ' ', '\U{0085}', '\U{00A0}', '\U{1680}',
    '\U{2000}', '\U{2001}', '\U{2002}', '\U{2003}', '\U{2004}', '\U{2005}', '\U{2006}',
    '\U{2007}', '\U{2008}', '\U{2009}', '\U{200A}', '\U{2028}', '\U{2029}', '\U{202F}',
    '\U{205F}', '\U{3000}'
  }

  /** The upper-case form `OrdinalIgnoreCase` compares, for ASCII letters. */
  function UpperAscii(c: char): (u: char)
    ensures 'a' <= c <= 'z' ==> 'A' <= u <= 'Z' && u as int == c as int - 32
    ensures !('a' <= c <= 'z') ==> u == c
  {
    if 'a' <= c <= 'z' then (c as int - 32) as char else c
  }

  /** The case-folded form of `s`: two strings are equal under `OrdinalIgnoreCase` when their folded forms are. */
  function Fold(s: string): (r: string)
    ensures |r| == |s|
    ensures forall k | 0 <= k < |s| :: r[k] == UpperAscii(s[k])
  {
    seq(|s|, k requires 0 <= k < |s| => UpperAscii(s[k]))
  }

  /** Folding keeps a leading `-`, as it keeps every character that is not a lower-case letter. */
  lemma FoldKeepsDash(s: string)
    requires StartsWith(s, "-")
    ensures StartsWith(Fold(s), "-")
  {
    assert s[0] == '-';
    assert Fold(s)[..1] == [UpperAscii(s[0])];
  }

  /** Folded strings are already folded. */
  lemma FoldIdempotent(s: string)
    ensures Fold(Fold(s)) == Fold(s)
  {
  }
}
