/**
 * The INI source: the lines of the file are read in order; blank lines and
 * comments are skipped, a `[section]` line sets the prefix of the keys that
 * follow, and every `key = value` line is written with `AddValue`.
 */
module Ini {
  import opened Wrappers
  import opened Strings
  import opened ConfigurationPath
  import opened Configuration
  import opened ConfigurationSources

  /** `string.IsNullOrWhiteSpace`. */
  predicate IsBlank(s: string)
  {
    forall k | 0 <= k < |s| :: s[k] in WhiteSpace
  }

  /** What one line of the file is, once trimmed. */
  datatype IniLine =
    | Skipped                                  // blank line or comment
    | Header(section: string)                  // `[section]`
    | Assignment(name: string, value: string)  // `name = value`, both trimmed, the value unquoted
    | Unrecognized                             // `FormatException`

  /** The value with one pair of surrounding double quotes removed, if it has them. */
  function Unquoted(value: string): string
  {
    if |value| > 1 && value[0] == '"' && value[|value| - 1] == '"' then value[1..|value| - 1] else value
  }

  /** A line is a comment when it starts with `;`, `#` or `/`. */
  predicate IsComment(line: string)
  {
    line != [] && (line[0] == ';' || line[0] == '#' || line[0] == '/')
  }

  /** A line is a section header when it starts with `[` and ends with `]`. */
  predicate IsHeader(line: string)
  {
    line != [] && line[0] == '[' && line[|line| - 1] == ']'
  }

  /** How the loop of `AddIniFileInternal` reads the line `rawLine`. */
  function Parsed(rawLine: string): IniLine
  {
    var line := Trim(rawLine, WhiteSpace);
    if IsBlank(line) || IsComment(line) then Skipped
    else if IsHeader(line) then
      Header(line[1..|line| - 1])
    else
      match IndexOf(line, '=')
      case None => Unrecognized
      case Some(separator) =>
        Assignment(Trim(line[..separator], WhiteSpace), Unquoted(Trim(line[separator + 1..], WhiteSpace)))
  }

  /** The load of the lines from `i` on, with `sectionPrefix` in force. */
  function LinesFrom(lines: seq<string>, i: nat, sectionPrefix: string): Load
    requires i <= |lines|
    decreases |lines| - i
  {
    if i == |lines| then Load([], None)
    else
      match Parsed(lines[i])
      case Skipped => LinesFrom(lines, i + 1, sectionPrefix)
      case Header(section) => LinesFrom(lines, i + 1, section + [PathSeparator])
      case Assignment(name, value) => Prepend((sectionPrefix + name, value), LinesFrom(lines, i + 1, sectionPrefix))
      case Unrecognized => Load([], Some(FormatError))
  }

  /** The load of a whole file: before any section the prefix is empty. */
  function IniLoad(lines: seq<string>): Load
  {
    LinesFrom(lines, 0, "")
  }

  /** One line of the loop: the trimmed line, classified. */
  method ReadIniLine(rawLine: string) returns (l: IniLine)
    ensures l == Parsed(rawLine)
  {
    var line := Trim(rawLine, WhiteSpace);
    if IsBlank(line) {
      return Skipped;
    }
    if line[0] == ';' || line[0] == '#' || line[0] == '/' {
      return Skipped;
    }
    if line[0] == '[' && line[|line| - 1] == ']' {
      return Header(line[1..|line| - 1]);
    }
    var separator := IndexOf(line, '=');
    if separator.None? {
      return Unrecognized;
    }
    var key := Trim(line[..separator.value], WhiteSpace);
    var value := Trim(line[separator.value + 1..], WhiteSpace);
    if |value| > 1 && value[0] == '"' && value[|value| - 1] == '"' {
      value := value[1..|value| - 1];
    }
    return Assignment(key, value);
  }

  /**
   * The per-line loop of `AddIniFileInternal`, on the node `at` of `store`:
   * every `key = value` line is written, in order, until the end of the
   * lines or the first unrecognised one.
   */
  method AddIniLines(store: Store, at: NodeId, lines: seq<string>) returns (error: Option<SourceError>)
    requires store.Valid() && at < |store.nodes|
    modifies store
    ensures store.Valid()
    ensures store.nodes == AddedAll(old(store.nodes), at, IniLoad(lines).writes)
    ensures error == IniLoad(lines).error
  {
    ghost var whole := IniLoad(lines);
    ghost var start := store.nodes;
    ghost var done: seq<(string, string)> := [];
    var sectionPrefix := "";
    var i := 0;
    while i < |lines|
      invariant i <= |lines|
      invariant store.Valid() && at < |store.nodes|
      invariant store.nodes == AddedAll(start, at, done)
      invariant whole == Then(Load(done, None), LinesFrom(lines, i, sectionPrefix))
      decreases |lines| - i
    {
      var line := ReadIniLine(lines[i]);
      LinesStep(lines, i, sectionPrefix, done, line);
      if line.Unrecognized? {
        return Some(FormatError);
      } else if line.Header? {
        sectionPrefix := line.section + [PathSeparator];
      } else if line.Assignment? {
        var key := sectionPrefix + line.name;
        ghost var before := store.nodes;
        store.AddValue(at, key, line.value);
        assert (done + [(key, line.value)])[..|done|] == done;
        assert AddedAll(start, at, done + [(key, line.value)]) == Added(before, at, Split(key), line.value);
        done := done + [(key, line.value)];
      }
      i := i + 1;
    }
    assert done + [] == done;
    return None;
  }

  /** What the line `l` at `i` adds to the load read so far. */
  lemma LinesStep(lines: seq<string>, i: nat, sectionPrefix: string, done: seq<(string, string)>, l: IniLine)
    requires i < |lines| && l == Parsed(lines[i])
    ensures l.Skipped? ==>
      Then(Load(done, None), LinesFrom(lines, i, sectionPrefix)) == Then(Load(done, None), LinesFrom(lines, i + 1, sectionPrefix))
    ensures l.Header? ==>
      Then(Load(done, None), LinesFrom(lines, i, sectionPrefix)) == Then(Load(done, None), LinesFrom(lines, i + 1, l.section + [PathSeparator]))
    ensures l.Assignment? ==>
      Then(Load(done, None), LinesFrom(lines, i, sectionPrefix)) ==
        Then(Load(done + [(sectionPrefix + l.name, l.value)], None), LinesFrom(lines, i + 1, sectionPrefix))
    ensures l.Unrecognized? ==> Then(Load(done, None), LinesFrom(lines, i, sectionPrefix)) == Load(done, Some(FormatError))
  {
    if l.Assignment? {
      var rest := LinesFrom(lines, i + 1, sectionPrefix);
      assert LinesFrom(lines, i, sectionPrefix) == Prepend((sectionPrefix + l.name, l.value), rest);
      assert done + ([(sectionPrefix + l.name, l.value)] + rest.writes) == (done + [(sectionPrefix + l.name, l.value)]) + rest.writes;
    }
  }

  // ---------------------------------------------------------------------------
  // An independent account of the whole file

  /** The prefix in force at line `j`: the last section header before it, or none. */
  function SectionOf(lines: seq<string>, j: nat): string
    requires j <= |lines|
  {
    if j == 0 then ""
    else if Parsed(lines[j - 1]).Header? then Parsed(lines[j - 1]).section + [PathSeparator]
    else SectionOf(lines, j - 1)
  }

  /** The position of the first unrecognised line among the first `n`, if any. */
  function FirstUnrecognized(lines: seq<string>, n: nat): (r: Option<nat>)
    requires n <= |lines|
    ensures r.Some? ==> r.value < n && Parsed(lines[r.value]).Unrecognized?
    ensures r.Some? ==> forall j | 0 <= j < r.value :: !Parsed(lines[j]).Unrecognized?
    ensures r.None? ==> forall j | 0 <= j < n :: !Parsed(lines[j]).Unrecognized?
  {
    if n == 0 then None
    else if FirstUnrecognized(lines, n - 1).Some? then FirstUnrecognized(lines, n - 1)
    else if Parsed(lines[n - 1]).Unrecognized? then Some(n - 1)
    else None
  }

  /** The pairs of the assignment lines among the first `n`, each under the prefix in force at its line. */
  function Entries(lines: seq<string>, n: nat): seq<(string, string)>
    requires n <= |lines|
  {
    if n == 0 then []
    else
      match Parsed(lines[n - 1])
      case Assignment(name, value) => Entries(lines, n - 1) + [(SectionOf(lines, n - 1) + name, value)]
      case _ => Entries(lines, n - 1)
  }

  /** The file read line by line: every assignment before the first unrecognised line, then the exception. */
  function ReferenceLoad(lines: seq<string>): Load
  {
    match FirstUnrecognized(lines, |lines|)
    case None => Load(Entries(lines, |lines|), None)
    case Some(j) => Load(Entries(lines, j), Some(FormatError))
  }

  lemma {:induction false} FirstUnrecognizedSticks(lines: seq<string>, i: nat, n: nat)
    requires i <= n <= |lines| && FirstUnrecognized(lines, i).Some?
    ensures FirstUnrecognized(lines, n) == FirstUnrecognized(lines, i)
    decreases n
  {
    if i < n {
      FirstUnrecognizedSticks(lines, i, n - 1);
    }
  }

  /** How the account of the first `i + 1` lines extends that of the first `i`. */
  lemma ReferenceStep(lines: seq<string>, i: nat)
    requires i < |lines| && FirstUnrecognized(lines, i).None?
    ensures Parsed(lines[i]).Header? ==> SectionOf(lines, i + 1) == Parsed(lines[i]).section + [PathSeparator]
    ensures !Parsed(lines[i]).Header? ==> SectionOf(lines, i + 1) == SectionOf(lines, i)
    ensures Parsed(lines[i]).Assignment? ==>
      Entries(lines, i + 1) == Entries(lines, i) + [(SectionOf(lines, i) + Parsed(lines[i]).name, Parsed(lines[i]).value)]
    ensures !Parsed(lines[i]).Assignment? ==> Entries(lines, i + 1) == Entries(lines, i)
    ensures Parsed(lines[i]).Unrecognized? ==> FirstUnrecognized(lines, i + 1) == Some(i)
    ensures !Parsed(lines[i]).Unrecognized? ==> FirstUnrecognized(lines, i + 1) == None
  {
  }

  /** The loop, resumed at line `i` with what the reference account wrote before it, finishes as that account does. */
  ghost predicate ResumesReference(lines: seq<string>, i: nat)
    requires i <= |lines|
  {
    Then(Load(Entries(lines, i), None), LinesFrom(lines, i, SectionOf(lines, i))) == ReferenceLoad(lines)
  }

  /** A line that is not unrecognised hands the agreement back from line `i + 1` to line `i`. */
  lemma ResumesReferenceStep(lines: seq<string>, i: nat)
    requires i < |lines| && FirstUnrecognized(lines, i).None? && !Parsed(lines[i]).Unrecognized?
    requires ResumesReference(lines, i + 1)
    ensures ResumesReference(lines, i)
  {
    var l := Parsed(lines[i]);
    ReferenceStep(lines, i);
    LinesStep(lines, i, SectionOf(lines, i), Entries(lines, i), l);
  }

  /** At the first unrecognised line both accounts stop with what was written before it. */
  lemma ResumesReferenceAtError(lines: seq<string>, i: nat)
    requires i < |lines| && FirstUnrecognized(lines, i).None? && Parsed(lines[i]).Unrecognized?
    ensures ResumesReference(lines, i)
  {
    ReferenceStep(lines, i);
    LinesStep(lines, i, SectionOf(lines, i), Entries(lines, i), Parsed(lines[i]));
    FirstUnrecognizedSticks(lines, i + 1, |lines|);
  }

  lemma {:induction false} LinesFromReference(lines: seq<string>, i: nat)
    requires i <= |lines| && FirstUnrecognized(lines, i).None?
    ensures Then(Load(Entries(lines, i), None), LinesFrom(lines, i, SectionOf(lines, i))) == ReferenceLoad(lines)
    decreases |lines| - i
  {
    if i == |lines| {
      assert Entries(lines, i) + [] == Entries(lines, i);
    } else if Parsed(lines[i]).Unrecognized? {
      ResumesReferenceAtError(lines, i);
    } else {
      ReferenceStep(lines, i);
      LinesFromReference(lines, i + 1);
      ResumesReferenceStep(lines, i);
    }
  }

  /** Reading the lines in a loop with a running prefix gives the reference account. */
  lemma IniLoadIsReference(lines: seq<string>)
    ensures IniLoad(lines) == ReferenceLoad(lines)
  {
    LinesFromReference(lines, 0);
  }

  /** A file raises `FormatException` exactly when one of its lines is unrecognised, and it raises nothing else. */
  lemma IniFormatError(lines: seq<string>)
    ensures IniLoad(lines).error.Some? <==> exists j | 0 <= j < |lines| :: Parsed(lines[j]).Unrecognized?
    ensures IniLoad(lines).error.Some? ==> IniLoad(lines).error == Some(FormatError)
  {
    IniLoadIsReference(lines);
  }

  /** Before the first header the prefix is empty. */
  lemma {:induction false} SectionOfBeforeHeaders(lines: seq<string>, j: nat)
    requires j <= |lines|
    requires forall m | 0 <= m < j :: !Parsed(lines[m]).Header?
    ensures SectionOf(lines, j) == ""
  {
    if j > 0 {
      SectionOfBeforeHeaders(lines, j - 1);
    }
  }

  /** A header `[s]` at line `k` sets the prefix `s:` of every line after it up to the next header. */
  lemma {:induction false} SectionOfAfterHeader(lines: seq<string>, k: nat, j: nat)
    requires k < j <= |lines| && Parsed(lines[k]).Header?
    requires forall m | k < m < j :: !Parsed(lines[m]).Header?
    ensures SectionOf(lines, j) == Parsed(lines[k]).section + [PathSeparator]
  {
    if j > k + 1 {
      SectionOfAfterHeader(lines, k, j - 1);
    }
  }

  // ---------------------------------------------------------------------------
  // Single lines

  predicate Padding(w: string)
  {
    forall k | 0 <= k < |w| :: w[k] in WhiteSpace
  }

  /** Both quotes of a quoted value are removed, and nothing else. */
  lemma QuotesRemoved(inner: string)
    ensures Unquoted("\"" + inner + "\"") == inner
  {
    var v := "\"" + inner + "\"";
    assert v[1..|v| - 1] == inner;
  }

  /** A value is either kept, or it is its result between two quotes. */
  lemma UnquotedLaw(value: string)
    ensures Unquoted(value) == value || (|value| >= 2 && value == "\"" + Unquoted(value) + "\"")
  {
    if Unquoted(value) != value {
      assert value == [value[0]] + value[1..|value| - 1] + [value[|value| - 1]];
    }
  }

  /**
   * `name = value` with white space around either part is the pair of the
   * two parts, the value unquoted; the line splits at the first `=`.
   */
  lemma PaddedAssignment(w1: string, name: string, w2: string, w3: string, value: string, w4: string)
    requires Padding(w1) && Padding(w2) && Padding(w3) && Padding(w4)
    requires name != [] && name[0] !in WhiteSpace && name[|name| - 1] !in WhiteSpace && '=' !in name
    requires name[0] != ';' && name[0] != '#' && name[0] != '/' && name[0] != '['
    requires value != [] && value[0] !in WhiteSpace && value[|value| - 1] !in WhiteSpace
    ensures Parsed(w1 + name + w2 + "=" + w3 + value + w4) == Assignment(name, Unquoted(value))
  {
    var left := name + w2;
    var right := w3 + value;
    var mid := left + "=" + right;
    assert w1 + name + w2 + "=" + w3 + value + w4 == w1 + mid + w4;
    assert mid[0] == name[0];
    assert mid[|mid| - 1] == value[|value| - 1];
    TrimPadded(w1, mid, w4, WhiteSpace);
    assert '=' !in w2;
    IndexOfFirst(left, '=', right);
    assert mid[..|left|] == left;
    assert mid[|left| + 1..] == right;
    assert left == [] + name + w2;
    TrimPadded([], name, w2, WhiteSpace);
    assert right == w3 + value + [];
    TrimPadded(w3, value, [], WhiteSpace);
    assert mid[0] !in WhiteSpace;
  }

  /** A line whose first character other than white space is `;`, `#` or `/` is a comment. */
  lemma CommentLine(w: string, c: char, rest: string)
    requires Padding(w) && (c == ';' || c == '#' || c == '/')
    ensures Parsed(w + [c] + rest) == Skipped
  {
    assert w + [c] + rest == w + ([c] + rest);
    TrimStartSkips(w, [c] + rest, WhiteSpace);
    var line := Trim(w + [c] + rest, WhiteSpace);
    TrimEndLaw([c] + rest, WhiteSpace);
    assert ([c] + rest)[0] == c;
    assert line != [] by {
      TrimLaw(w + [c] + rest, WhiteSpace);
      assert (w + [c] + rest)[|w|] == c;
    }
    assert line[0] == c;
  }

  /** `[s]`, with white space around it, is the header of section `s`. */
  lemma HeaderLine(w1: string, section: string, w2: string)
    requires Padding(w1) && Padding(w2)
    ensures Parsed(w1 + ("[" + section + "]") + w2) == Header(section)
  {
    var mid := "[" + section + "]";
    assert mid[0] == '[' && mid[|mid| - 1] == ']';
    TrimPadded(w1, mid, w2, WhiteSpace);
    assert mid[0] !in WhiteSpace;
    assert mid[1..|mid| - 1] == section;
  }
}
