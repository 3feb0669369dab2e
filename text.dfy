/** The pieces of Rust's `str` that the line filter relies on: splitting text
    into lines (`str::lines`), substring containment (`str::contains`) and
    lower-casing (`str::to_lowercase`, restricted here to ASCII letters). */
module Text {

  // ---------------------------------------------------------------------------
  // Lines
  // ---------------------------------------------------------------------------

  /** Position of the first '\n' in `s`, or `|s|` when there is none. */
  function NewlineIndex(s: string): (k: nat)
    ensures k <= |s|
    ensures k < |s| ==> s[k] == '\n'
    ensures forall j :: 0 <= j < k ==> s[j] != '\n'
  {
    if s == [] || s[0] == '\n' then 0 else 1 + NewlineIndex(s[1..])
  }

  predicate EndsInCr(line: string) {
    |line| > 0 && line[|line| - 1] == '\r'
  }

  /** Removes the '\r' of a "\r\n" terminator whose '\n' is already gone. */
  function StripCr(line: string): string {
    if EndsInCr(line) then line[..|line| - 1] else line
  }

  /** `str::lines`: the text cut at every '\n'. A line that was terminated by
      "\r\n" loses the '\r' too; the last line needs no terminator, and a text
      that ends in '\n' has no empty line after it. */
  function Lines(s: string): (ls: seq<string>)
    ensures s == [] <==> ls == []
    decreases |s|
  {
    if s == [] then []
    else
      var k := NewlineIndex(s);
      if k == |s| then [s]
      else [StripCr(s[..k])] + Lines(s[k + 1..])
  }

  /** The inverse direction: every line followed by its own '\n'. */
  function Unlines(ls: seq<string>): string {
    if ls == [] then [] else ls[0] + "\n" + Unlines(ls[1..])
  }

  /** A line of text with no '\n' is a single line. */
  lemma LinesSingle(line: string)
    requires line != [] && '\n' !in line
    ensures Lines(line) == [line]
  {
    assert forall j :: 0 <= j < |line| ==> line[j] in line;
  }

  /** A line followed by '\n' is split off whole, unless it ends in '\r'. */
  lemma LinesCons(line: string, rest: string)
    requires '\n' !in line && !EndsInCr(line)
    ensures Lines(line + "\n" + rest) == [line] + Lines(rest)
  {
    var s := line + "\n" + rest;
    var k := NewlineIndex(s);
    assert s[|line|] == '\n';
    assert forall j :: 0 <= j < |line| ==> s[j] == line[j] && line[j] in line;
    assert k == |line|;
    assert s[..k] == line;
    assert s[k + 1..] == rest;
  }

  /** A line terminated by "\r\n" is split off without its '\r'. */
  lemma LinesConsCrlf(line: string, rest: string)
    requires '\n' !in line
    ensures Lines(line + "\r\n" + rest) == [line] + Lines(rest)
  {
    var s := line + "\r\n" + rest;
    assert forall j :: 0 <= j < |line| ==> s[j] == line[j] && line[j] in line;
    assert s[|line|] == '\r' && s[|line| + 1] == '\n';
    assert NewlineIndex(s) == |line| + 1;
    assert s[..|line| + 1] == line + "\r";
    assert StripCr(line + "\r") == line;
    assert s[|line| + 2..] == rest;
  }

  /** Splitting text built from lines gives those lines back, provided no line
      holds a '\n' or ends in the '\r' that splitting would strip. */
  lemma {:induction false} LinesOfUnlines(ls: seq<string>)
    requires forall i :: 0 <= i < |ls| ==> '\n' !in ls[i] && !EndsInCr(ls[i])
    ensures Lines(Unlines(ls)) == ls
  {
    if ls != [] {
      LinesCons(ls[0], Unlines(ls[1..]));
      LinesOfUnlines(ls[1..]);
    }
  }

  /** Lines each followed by "\r\n", as text written on Windows has them. */
  function UnlinesCrlf(ls: seq<string>): string {
    if ls == [] then [] else ls[0] + "\r\n" + UnlinesCrlf(ls[1..])
  }

  /** Splitting "\r\n"-terminated lines gives them back, whatever characters
      other than '\n' they hold, a final '\r' included. */
  lemma {:induction false} LinesOfUnlinesCrlf(ls: seq<string>)
    requires forall i :: 0 <= i < |ls| ==> '\n' !in ls[i]
    ensures Lines(UnlinesCrlf(ls)) == ls
  {
    if ls != [] {
      LinesConsCrlf(ls[0], UnlinesCrlf(ls[1..]));
      LinesOfUnlinesCrlf(ls[1..]);
    }
  }

  /** Joining the lines of a text without '\r' gives the text back, with a
      final '\n' added when it had none. */
  lemma {:induction false} UnlinesOfLines(s: string)
    requires '\r' !in s
    ensures Unlines(Lines(s)) == if s == [] || s[|s| - 1] == '\n' then s else s + "\n"
    decreases |s|
  {
    if s != [] {
      var k := NewlineIndex(s);
      if k == |s| {
        assert Unlines([s]) == s + "\n" + Unlines([]);
      } else {
        var head, tail := s[..k], s[k + 1..];
        assert tail != [] ==> tail[|tail| - 1] == s[|s| - 1];
        FirstLineOff(s);
        UnlinesOfLines(tail);
        RejoinAt(s, k);
        if tail == [] {
          assert Unlines(Lines(tail)) == [];
        } else if tail[|tail| - 1] != '\n' {
          assert head + "\n" + (tail + "\n") == s + "\n";
        }
      }
    }
  }

  /** Splitting off the first line of a text without '\r' that holds a '\n':
      rejoining the lines restores that first line, its '\n', and then the
      rejoined rest. */
  lemma FirstLineOff(s: string)
    requires '\r' !in s && NewlineIndex(s) < |s|
    ensures '\r' !in s[NewlineIndex(s) + 1..]
    ensures Unlines(Lines(s)) == s[..NewlineIndex(s)] + "\n" + Unlines(Lines(s[NewlineIndex(s) + 1..]))
  {
    var k := NewlineIndex(s);
    var head, rest := s[..k], Lines(s[k + 1..]);
    assert k > 0 ==> head[k - 1] == s[k - 1] && s[k - 1] in s;
    assert Lines(s) == [head] + rest;
    assert ([head] + rest)[1..] == rest;
    CharNotInSlice(s, '\r', k + 1, |s|);
  }

  /** A text is the part before a '\n', the '\n', and the part after it. */
  lemma RejoinAt(s: string, k: nat)
    requires k < |s| && s[k] == '\n'
    ensures s == s[..k] + "\n" + s[k + 1..]
  {
  }

  /** The text before the first '\n' holds no '\n'. */
  lemma NoNewlineBeforeIndex(s: string)
    ensures '\n' !in s[..NewlineIndex(s)]
  {
    var k := NewlineIndex(s);
    assert forall m :: 0 <= m < k ==> s[..k][m] == s[m];
  }

  /** No line that splitting yields holds a '\n'. */
  lemma {:induction false} LinesHaveNoNewline(s: string)
    ensures forall i :: 0 <= i < |Lines(s)| ==> '\n' !in Lines(s)[i]
    decreases |s|
  {
    if s != [] {
      var k := NewlineIndex(s);
      NoNewlineBeforeIndex(s);
      if k < |s| {
        var head, ls := s[..k], Lines(s);
        CharNotInSlice(head, '\n', 0, if EndsInCr(head) then k - 1 else k);
        LinesHaveNoNewline(s[k + 1..]);
        assert ls == [StripCr(head)] + Lines(s[k + 1..]);
        assert forall i :: 1 <= i < |ls| ==> ls[i] == Lines(s[k + 1..])[i - 1];
      } else {
        assert s[..k] == s;
      }
    }
  }

  /** A character absent from a text is absent from every slice of it. */
  lemma CharNotInSlice(s: string, c: char, i: nat, j: nat)
    requires i <= j <= |s| && c !in s
    ensures c !in s[i..j]
  {
    assert forall m :: 0 <= m < j - i ==> s[i..j][m] == s[i + m] && s[i + m] in s;
  }

  // ---------------------------------------------------------------------------
  // Containment
  // ---------------------------------------------------------------------------

  /** `query` occurs in `line` starting at offset `i`. */
  predicate OccursAt(line: string, query: string, i: int) {
    0 <= i && i + |query| <= |line| && line[i..i + |query|] == query
  }

  /** `str::contains`: `query` occurs in `line` at some offset. The empty
      query occurs at offset 0 of every line. */
  predicate Contains(line: string, query: string) {
    exists i | 0 <= i <= |line| - |query| :: OccursAt(line, query, i)
  }

  /** A line that does not start with the query contains it exactly when the
      rest of the line after its first character does. */
  lemma ContainsStep(line: string, query: string)
    requires line != [] && !(query <= line)
    ensures Contains(line, query) == Contains(line[1..], query)
  {
    if Contains(line, query) {
      var i :| 0 <= i <= |line| - |query| && OccursAt(line, query, i);
      assert i != 0;
      assert line[1..][i - 1..i - 1 + |query|] == query;
      assert OccursAt(line[1..], query, i - 1);
    }
    if Contains(line[1..], query) {
      var i :| 0 <= i <= |line| - 1 - |query| && OccursAt(line[1..], query, i);
      assert line[i + 1..i + 1 + |query|] == query;
      assert OccursAt(line, query, i + 1);
    }
  }

  /** Looking for the query from offset `from`, a stretch up to offset `to`
      in which the query's first character does not occur can be skipped. */
  lemma ContainsSkip(line: string, query: string, from: nat, to: nat)
    requires query != [] && from <= to <= |line| && query[0] !in line[from..to]
    ensures Contains(line[from..], query) == Contains(line[to..], query)
  {
    var tail := line[from..];
    if Contains(tail, query) {
      var i :| 0 <= i <= |tail| - |query| && OccursAt(tail, query, i);
      assert tail[i] == query[0];
      assert forall j :: from <= j < to ==> line[from..to][j - from] == line[j];
      assert from + i >= to;
      assert line[to..][from + i - to..from + i - to + |query|] == query;
      assert OccursAt(line[to..], query, from + i - to);
    }
    if Contains(line[to..], query) {
      var i :| 0 <= i <= |line| - to - |query| && OccursAt(line[to..], query, i);
      assert tail[to - from + i..to - from + i + |query|] == query;
      assert OccursAt(tail, query, to - from + i);
    }
  }

  // ---------------------------------------------------------------------------
  // Lower-casing
  // ---------------------------------------------------------------------------

  /** ASCII lower-casing of one character; all others are left alone. */
  function LowerChar(c: char): char {
    if 'A' <= c <= 'Z' then (c as int + 32) as char else c
  }

  /** `str::to_lowercase` for ASCII text: each character lower-cased in place,
      so the length and every offset are kept. */
  function ToLower(s: string): string {
    seq(|s|, i requires 0 <= i < |s| => LowerChar(s[i]))
  }

  /** An occurrence survives lower-casing both sides, at the same offset. */
  lemma ContainsLowered(line: string, query: string)
    requires Contains(line, query)
    ensures Contains(ToLower(line), ToLower(query))
  {
    var i :| 0 <= i <= |line| - |query| && OccursAt(line, query, i);
    var lowered := ToLower(line);
    forall j | 0 <= j < |query|
      ensures lowered[i..i + |query|][j] == ToLower(query)[j]
    {
      assert line[i..i + |query|][j] == query[j];
    }
    assert lowered[i..i + |query|] == ToLower(query);
    assert OccursAt(lowered, ToLower(query), i);
  }
}
