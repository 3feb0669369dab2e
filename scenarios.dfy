/** The unit tests of the line filter, stated as methods that call the searches
    on the tests' texts and promise the tests' expected results. The tests'
    texts are four lines joined by '\n', with no final newline. */
module MiniGrepScenarios {
  import opened Text
  import opened MiniGrep

  /** Four lines joined by '\n' split back into those four lines. */
  lemma FourLines(a: string, b: string, c: string, d: string)
    requires '\n' !in a && '\n' !in b && '\n' !in c && '\n' !in d
    requires !EndsInCr(a) && !EndsInCr(b) && !EndsInCr(c) && d != []
    ensures Lines(a + "\n" + (b + "\n" + (c + "\n" + d))) == [a, b, c, d]
  {
    LinesSingle(d);
    LinesCons(c, d);
    LinesCons(b, c + "\n" + d);
    LinesCons(a, b + "\n" + (c + "\n" + d));
  }

  /** A search of four lines tests each of them once, in order. */
  lemma HitsOfFour(a: string, b: string, c: string, d: string, query: string, ignoreCase: bool)
    ensures Hits([a, b, c, d], query, ignoreCase) ==
      (if Matches(a, query, ignoreCase) then [a] else []) + (if Matches(b, query, ignoreCase) then [b] else []) +
      (if Matches(c, query, ignoreCase) then [c] else []) + (if Matches(d, query, ignoreCase) then [d] else [])
  {
    assert [a, b, c, d][..3] == [a, b, c];
    assert [a, b, c][..2] == [a, b];
    assert [a, b][..1] == [a];
    assert Hits([a], query, ignoreCase) == (if Matches(a, query, ignoreCase) then [a] else []);
    assert Hits([a, b], query, ignoreCase) ==
      Hits([a], query, ignoreCase) + (if Matches(b, query, ignoreCase) then [b] else []);
    assert Hits([a, b, c], query, ignoreCase) ==
      Hits([a, b], query, ignoreCase) + (if Matches(c, query, ignoreCase) then [c] else []);
  }

  /** Of the lines of the tests `one_result` and `count_occurrences`, only the
      second contains "duct", at offset 17; the others have no 'd' at all
      ("Duct tape." has a capital one). */
  lemma DuctOnlyInSecondLine(rust: string, safe: string, pick: string, duct: string)
    requires rust == "Rust:" && safe == "safe, secure, productive."
    requires pick == "Pick three." && duct == "Duct tape."
    ensures !Contains(rust, "duct") && Contains(safe, "duct")
    ensures !Contains(pick, "duct") && !Contains(duct, "duct")
  {
    assert 'd' !in rust[0..|rust|] && 'd' !in safe[0..17];
    assert 'd' !in pick[0..|pick|] && 'd' !in duct[0..|duct|];
    ContainsSkip(rust, "duct", 0, |rust|);
    ContainsSkip(safe, "duct", 0, 17);
    ContainsSkip(pick, "duct", 0, |pick|);
    ContainsSkip(duct, "duct", 0, |duct|);
    assert OccursAt(safe[17..], "duct", 0);
  }

  /** "duct" selects the second line of the text of the tests `one_result`
      and `count_occurrences`. */
  lemma DuctHits(rust: string, safe: string, pick: string, duct: string)
    requires rust == "Rust:" && safe == "safe, secure, productive."
    requires pick == "Pick three." && duct == "Duct tape."
    ensures Hits(Lines(rust + "\n" + (safe + "\n" + (pick + "\n" + duct))), "duct", false) == [safe]
  {
    FourLines(rust, safe, pick, duct);
    HitsOfFour(rust, safe, pick, duct, "duct", false);
    DuctOnlyInSecondLine(rust, safe, pick, duct);
  }

  /** The query of the test `case_insensitive`, lower-cased. */
  lemma LoweredRuSt(query: string)
    requires query == "RuSt"
    ensures ToLower(query) == "rust"
  {
  }

  /** "Rust:" and "Trust me", lower-cased, contain "rust". */
  lemma RustInFirstAndLastLine(rust: string, trust: string, q: string)
    requires rust == "Rust:" && trust == "Trust me" && q == "rust"
    ensures Contains(ToLower(rust), q) && Contains(ToLower(trust), q)
  {
    assert OccursAt(ToLower(rust), q, 0);
    assert OccursAt(ToLower(trust), q, 1);
  }

  /** "safe, secure, productive." is lower-case already. */
  lemma SecondLineLowered(safe: string)
    requires safe == "safe, secure, productive."
    ensures ToLower(safe) == safe
  {
  }

  /** "safe, secure, productive." does not contain "rust": its two 'r's are
      followed by 'e' and by 'o'. */
  lemma RustNotInSecondLine(safe: string, q: string)
    requires safe == "safe, secure, productive." && q == "rust"
    ensures !Contains(safe, q)
  {
    assert 'r' !in safe[0..10] && 'r' !in safe[11..15] && 'r' !in safe[16..|safe|];
    assert safe[10..][1] == 'e' && safe[15..][1] == 'o';
    ContainsSkip(safe, q, 0, 10);
    ContainsStep(safe[10..], q);
    ContainsSkip(safe, q, 11, 15);
    ContainsStep(safe[15..], q);
    ContainsSkip(safe, q, 16, |safe|);
  }

  /** "Pick three." lower-cased is "pick three.". */
  lemma ThirdLineLowered(pick: string)
    requires pick == "Pick three."
    ensures ToLower(pick) == "pick three."
  {
  }

  /** "pick three." does not contain "rust": its one 'r' is followed by 'e'. */
  lemma RustNotInThirdLine(pick: string, q: string)
    requires pick == "pick three." && q == "rust"
    ensures !Contains(pick, q)
  {
    assert 'r' !in pick[0..7] && 'r' !in pick[8..|pick|] && pick[7..][1] == 'e';
    ContainsSkip(pick, q, 0, 7);
    ContainsStep(pick[7..], q);
    ContainsSkip(pick, q, 8, |pick|);
  }

  /** Ignoring case, "RuSt" selects the first and the last line of the test
      `case_insensitive`. */
  lemma RustHits(rust: string, safe: string, pick: string, trust: string, query: string)
    requires rust == "Rust:" && safe == "safe, secure, productive."
    requires pick == "Pick three." && trust == "Trust me" && query == "RuSt"
    ensures Hits(Lines(rust + "\n" + (safe + "\n" + (pick + "\n" + trust))), query, true) == [rust, trust]
  {
    FourLines(rust, safe, pick, trust);
    HitsOfFour(rust, safe, pick, trust, query, true);
    LoweredRuSt(query);
    RustInFirstAndLastLine(rust, trust, "rust");
    SecondLineLowered(safe);
    RustNotInSecondLine(safe, "rust");
    ThirdLineLowered(pick);
    RustNotInThirdLine(ToLower(pick), "rust");
  }

  /** The test `one_result`. */
  method OneResult() returns (results: seq<string>)
    ensures results == ["safe, secure, productive."]
  {
    var rust, safe, pick, duct := "Rust:", "safe, secure, productive.", "Pick three.", "Duct tape.";
    results := Search("duct", rust + "\n" + (safe + "\n" + (pick + "\n" + duct)));
    DuctHits(rust, safe, pick, duct);
  }

  /** The test `count_occurrences`. */
  method CountOccurrences() returns (c: nat)
    ensures c == 1
  {
    var rust, safe, pick, duct := "Rust:", "safe, secure, productive.", "Pick three.", "Duct tape.";
    c := SearchCount("duct", rust + "\n" + (safe + "\n" + (pick + "\n" + duct)));
    DuctHits(rust, safe, pick, duct);
  }

  /** The test `case_insensitive`: the matching lines come back as written,
      not lower-cased. */
  method CaseInsensitive() returns (results: seq<string>)
    ensures results == ["Rust:", "Trust me"]
  {
    var rust, safe, pick, trust := "Rust:", "safe, secure, productive.", "Pick three.", "Trust me";
    var query := "RuSt";
    results := SearchCaseInsensitive(query, rust + "\n" + (safe + "\n" + (pick + "\n" + trust)));
    RustHits(rust, safe, pick, trust, query);
  }
}
