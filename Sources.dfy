/** What a configuration source hands to the tree. */
module ConfigurationSources {
  import opened Wrappers

  /** The exceptions a source raises on malformed input: `FormatException` and `ArgumentException`. */
  datatype SourceError = FormatError | ArgumentError

  /**
   * The `(path, value)` pairs a source passes to `AddValue`, in order, and the
   * exception that ended it, if any.  A source writes straight into the tree,
   * so the pairs written before an exception stay there.
   */
  datatype Load = Load(writes: seq<(string, string)>, error: Option<SourceError>)

  /** The load of one pair followed by `rest`. */
  function Prepend(pair: (string, string), rest: Load): (r: Load)
    ensures r.writes == [pair] + rest.writes && r.error == rest.error
  {
    Load([pair] + rest.writes, rest.error)
  }

  /** The load of `first` followed by `second`; nothing after an exception. */
  function Then(first: Load, second: Load): (r: Load)
    ensures first.error.Some? ==> r == first
    ensures first.error.None? ==> r.writes == first.writes + second.writes && r.error == second.error
  {
    if first.error.Some? then first else Load(first.writes + second.writes, second.error)
  }

  /** A load that writes nothing either stops the sequence or leaves it as it was. */
  lemma ThenSilent(first: Load, second: Load)
    requires first.writes == []
    ensures Then(first, second) == if first.error.Some? then first else second
  {
    assert [] + second.writes == second.writes;
  }
}
