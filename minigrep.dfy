/** The line filter of minigrep: a command-line validator that turns the
    argument vector into a configuration, and three searches over the lines of
    a text (case-sensitive, case-insensitive, and counting). */
module MiniGrep {
  import opened Text

  // ---------------------------------------------------------------------------
  // Configuration
  // ---------------------------------------------------------------------------

  datatype Result<T> = Ok(value: T) | Err(error: string)

  /** What to search for, where, and how: "-d" plain search, "-i" ignoring
      case, "-n" counting the matching lines. */
  datatype Config = Config(mode: string, query: string, filename: string)

  const NotEnoughArguments: string := "not enough arguments"
  const InvalidModeArgument: string := "invalid mode argument"
  const DefaultMode: string := "-d"
  const Modes: set<string> := {"-i", "-d", "-n"}

  /** `Config::new`. The first argument is the program's own name and is not
      looked at; three arguments mean query and file name in the default mode,
      four mean mode, query and file name. */
  function NewConfig(args: seq<string>): (r: Result<Config>)
    ensures r.Ok? <==> |args| == 3 || (|args| == 4 && args[1] in Modes)
    ensures r.Ok? ==> r.value.mode in Modes
    ensures r.Ok? ==> r.value.mode == (if |args| == 3 then DefaultMode else args[1])
    ensures r.Ok? ==> r.value.query == args[|args| - 2] && r.value.filename == args[|args| - 1]
    ensures r.Err? ==> r.error == (if |args| == 4 then InvalidModeArgument else NotEnoughArguments)
  {
    if |args| == 3 || |args| == 4 then
      var (mode, query, filename) :=
        if |args| == 3 then (DefaultMode, args[1], args[2]) else (args[1], args[2], args[3]);
      if mode != "-i" && mode != "-d" && mode != "-n" then Err(InvalidModeArgument)
      else Ok(Config(mode, query, filename))
    else
      Err(NotEnoughArguments)
  }

  /** Every valid configuration is what its own four-argument command line
      produces, whatever the program is called. */
  lemma ConfigRoundTrip(program: string, config: Config)
    requires config.mode in Modes
    ensures NewConfig([program, config.mode, config.query, config.filename]) == Ok(config)
  {
  }

  // ---------------------------------------------------------------------------
  // Searching: the specification
  // ---------------------------------------------------------------------------

  /** The test a search applies to one line: the line contains the query, or,
      ignoring case, the lower-cased line contains the lower-cased query. */
  predicate Matches(line: string, query: string, ignoreCase: bool) {
    if ignoreCase then Contains(ToLower(line), ToLower(query)) else Contains(line, query)
  }

  /** The lines that pass the test, in the order they come. */
  function Hits(lines: seq<string>, query: string, ignoreCase: bool): seq<string>
  {
    if lines == [] then []
    else
      var last := lines[|lines| - 1];
      Hits(lines[..|lines| - 1], query, ignoreCase) + if Matches(last, query, ignoreCase) then [last] else []
  }

  /** `r` can be obtained from `s` by deleting elements, keeping the order. */
  ghost predicate SubsequenceOf<T>(r: seq<T>, s: seq<T>)
    decreases |s|
  {
    r == [] ||
    (s != [] &&
     (SubsequenceOf(r, s[..|s| - 1]) ||
      (r[|r| - 1] == s[|s| - 1] && SubsequenceOf(r[..|r| - 1], s[..|s| - 1]))))
  }

  /** Appending to the longer sequence keeps a subsequence a subsequence. */
  lemma SubsequenceOfAppend<T>(r: seq<T>, s: seq<T>, x: T)
    requires SubsequenceOf(r, s)
    ensures SubsequenceOf(r, s + [x])
  {
    assert (s + [x])[..|s|] == s;
  }

  /** A search result keeps the document order of the lines. */
  lemma {:induction false} HitsSubsequence(lines: seq<string>, query: string, ignoreCase: bool)
    ensures SubsequenceOf(Hits(lines, query, ignoreCase), lines)
  {
    if lines != [] {
      var init, last := lines[..|lines| - 1], lines[|lines| - 1];
      var r := Hits(lines, query, ignoreCase);
      HitsSubsequence(init, query, ignoreCase);
      if Matches(last, query, ignoreCase) {
        assert r[..|r| - 1] == Hits(init, query, ignoreCase);
      } else {
        assert r == Hits(init, query, ignoreCase);
        assert lines == init + [last];
        SubsequenceOfAppend(r, init, last);
      }
    }
  }

  /** A line occurs in a search result exactly as often as in the text when it
      passes the test, and not at all otherwise. */
  lemma {:induction false} HitsMultiplicity(lines: seq<string>, query: string, ignoreCase: bool, line: string)
    ensures multiset(Hits(lines, query, ignoreCase))[line] ==
            if Matches(line, query, ignoreCase) then multiset(lines)[line] else 0
  {
    if lines != [] {
      var init, last := lines[..|lines| - 1], lines[|lines| - 1];
      assert lines == init + [last];
      HitsMultiplicity(init, query, ignoreCase, line);
    }
  }

  /** A line is in a search result exactly when it is a line of the text that
      passes the test. */
  lemma HitsMembers(lines: seq<string>, query: string, ignoreCase: bool)
    ensures forall line :: line in Hits(lines, query, ignoreCase) <==> line in lines && Matches(line, query, ignoreCase)
  {
    forall line
      ensures line in Hits(lines, query, ignoreCase) <==> line in lines && Matches(line, query, ignoreCase)
    {
      HitsMultiplicity(lines, query, ignoreCase, line);
    }
  }

  /** No search returns more lines than the text has. */
  lemma {:induction false} HitsBounded(lines: seq<string>, query: string, ignoreCase: bool)
    ensures |Hits(lines, query, ignoreCase)| <= |lines|
  {
    if lines != [] {
      HitsBounded(lines[..|lines| - 1], query, ignoreCase);
    }
  }

  /** The empty query is in every line, so it selects the whole text. */
  lemma {:induction false} EmptyQueryHitsAll(lines: seq<string>, ignoreCase: bool)
    ensures Hits(lines, [], ignoreCase) == lines
  {
    if lines != [] {
      EmptyQueryHitsAll(lines[..|lines| - 1], ignoreCase);
      assert OccursAt(lines[|lines| - 1], [], 0) && OccursAt(ToLower(lines[|lines| - 1]), [], 0);
      assert lines == lines[..|lines| - 1] + [lines[|lines| - 1]];
    }
  }

  /** Ignoring case loses nothing: every line the case-sensitive search finds
      is found again, in the same order, by the case-insensitive one. */
  lemma {:induction false} SensitiveWithinInsensitive(lines: seq<string>, query: string)
    ensures SubsequenceOf(Hits(lines, query, false), Hits(lines, query, true))
  {
    if lines != [] {
      var init, last := lines[..|lines| - 1], lines[|lines| - 1];
      var sensitive, insensitive := Hits(lines, query, false), Hits(lines, query, true);
      SensitiveWithinInsensitive(init, query);
      if Contains(last, query) {
        ContainsLowered(last, query);
        assert sensitive[..|sensitive| - 1] == Hits(init, query, false);
        assert insensitive[..|insensitive| - 1] == Hits(init, query, true);
      } else if Matches(last, query, true) {
        assert sensitive == Hits(init, query, false);
        assert insensitive == Hits(init, query, true) + [last];
        SubsequenceOfAppend(sensitive, Hits(init, query, true), last);
      } else {
        assert sensitive == Hits(init, query, false);
        assert insensitive == Hits(init, query, true);
      }
    }
  }

  // ---------------------------------------------------------------------------
  // Searching: the operations
  // ---------------------------------------------------------------------------

  /** `search_count`: how many lines of `contents` contain `query`. */
  method SearchCount(query: string, contents: string) returns (c: nat)
    ensures c == |Hits(Lines(contents), query, false)|
    ensures c <= |Lines(contents)|
  {
    c := 0;
    var lines := Lines(contents);
    for i := 0 to |lines|
      invariant c == |Hits(lines[..i], query, false)|
    {
      assert lines[..i + 1][..i] == lines[..i];
      if Contains(lines[i], query) {
        c := c + 1;
      }
    }
    assert lines[..|lines|] == lines;
    HitsBounded(lines, query, false);
  }

  /** `search`: the lines of `contents` that contain `query`, in order. */
  method Search(query: string, contents: string) returns (results: seq<string>)
    ensures results == Hits(Lines(contents), query, false)
    ensures forall line :: line in results <==> line in Lines(contents) && Contains(line, query)
  {
    results := [];
    var lines := Lines(contents);
    for i := 0 to |lines|
      invariant results == Hits(lines[..i], query, false)
    {
      assert lines[..i + 1][..i] == lines[..i];
      var line := lines[i];
      if Contains(line, query) {
        results := results + [line];
      }
    }
    assert lines[..|lines|] == lines;
    HitsMembers(lines, query, false);
  }

  /** `search_case_insensitive`: the lines of `contents` whose lower-cased
      form contains the lower-cased `query`; the lines themselves are
      returned as they are in `contents`, not lower-cased. */
  method SearchCaseInsensitive(query: string, contents: string) returns (results: seq<string>)
    ensures results == Hits(Lines(contents), query, true)
    ensures forall line :: line in results <==> line in Lines(contents) && Contains(ToLower(line), ToLower(query))
  {
    var lowered := ToLower(query);
    results := [];
    var lines := Lines(contents);
    for i := 0 to |lines|
      invariant results == Hits(lines[..i], query, true)
    {
      assert lines[..i + 1][..i] == lines[..i];
      var line := lines[i];
      if Contains(ToLower(line), lowered) {
        results := results + [line];
      }
    }
    assert lines[..|lines|] == lines;
    HitsMembers(lines, query, true);
  }
}
