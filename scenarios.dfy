/**
 * Concrete cases of the scorer: the repository's own test inputs
 * (lib.rs:143-146) and the non-backtracking search of lib.rs:20-43
 * (`"b a"` against `"ab"`).
 *
 * The lemmas about the test inputs take them as parameters fixed by their
 * `requires`, rather than as literals in the `ensures`: with literals the
 * verifier tries to evaluate the whole scorer on them at once and runs out
 * of resource, while the parameters let the proof go one step at a time.
 */
module Scenarios {
  import opened Wrappers
  import opened Text
  import opened Scorer

  /**
   * The search never goes back: for `"b a"` against `"ab"` each term occurs
   * on its own, but `"a"` does not occur after the end of `"b"`, so there is
   * no match.
   */
  lemma NoBacktracking()
    ensures OccursAt("ab", 1, "b") && OccursAt("ab", 0, "a")
    ensures SubstrScore("b a", "ab") == None
  {
  }

  /** The characters of the lower-cased test haystack, one by one. */
  lemma HaystackChars(h: string)
    requires h == ToLower("substr_scorer_should_work")
    ensures |h| == 25
    ensures h[0] == 's' && h[1] == 'u' && h[2] == 'b' && h[3] == 's' && h[4] == 't' && h[5] == 'r' && h[6] == '_' && h[7] == 's' && h[8] == 'c' && h[9] == 'o' && h[10] == 'r' && h[11] == 'e' && h[12] == 'r' && h[13] == '_' && h[14] == 's' && h[15] == 'h' && h[16] == 'o' && h[17] == 'u' && h[18] == 'l' && h[19] == 'd' && h[20] == '_' && h[21] == 'w' && h[22] == 'o' && h[23] == 'r' && h[24] == 'k'
  {
  }

  /**
   * Two lower-case words joined by one space split into exactly those two
   * terms, already lower case.
   */
  lemma TermsOfTwoWords(a: string, b: string)
    requires a != [] && NoWhitespace(a) && ToLower(a) == a
    requires b != [] && NoWhitespace(b) && ToLower(b) == b
    ensures Terms(a + [' '] + b) == [a, b]
  {
    SplitAtWhitespace(a, ' ', b);
    SplitWord(a);
    SplitWord(b);
    assert SplitWhitespace(a + [' '] + b) == [a, b];
  }

  /** `"su"` is found at the very start. */
  lemma FindSu(h: string)
    requires h == ToLower("substr_scorer_should_work")
    ensures FindStartAt(h, 0, "su") == Some(0)
  {
    HaystackChars(h);
    assert h[0..2] == "su";
    FindStartAtExact(h, 0, 0, "su");
  }

  /** After `"su"`, `"ou"` is first found at 16 (the `o` at 9 is followed by `r`). */
  lemma FindOu(h: string)
    requires h == ToLower("substr_scorer_should_work")
    ensures FindStartAt(h, 2, "ou") == Some(16)
  {
    HaystackChars(h);
    forall j: nat | 2 <= j < 16
      ensures !OccursAt(h, j, "ou")
    {
      assert j == 2 || j == 3 || j == 4 || j == 5 || j == 6 || j == 7 || j == 8 || j == 9 || j == 10 || j == 11 || j == 12 || j == 13 || j == 14 || j == 15;
      assert h[j] != 'o' || h[j + 1] != 'u';
    }
    assert h[16..18] == "ou";
    FindStartAtExact(h, 2, 16, "ou");
  }

  /** After `"su"`, `"ork"` is first found at 22, past the `o`s at 9 and 16. */
  lemma FindOrk(h: string)
    requires h == ToLower("substr_scorer_should_work")
    ensures FindStartAt(h, 2, "ork") == Some(22)
  {
    HaystackChars(h);
    forall j: nat | 2 <= j < 22
      ensures !OccursAt(h, j, "ork")
    {
      assert j == 2 || j == 3 || j == 4 || j == 5 || j == 6 || j == 7 || j == 8 || j == 9 || j == 10 || j == 11 || j == 12 || j == 13 || j == 14 || j == 15 || j == 16 || j == 17 || j == 18 || j == 19 || j == 20 || j == 21;
      assert h[j] != 'o' || h[j + 1] != 'r' || h[j + 2] != 'k';
      assert h[j..j + 3][0] == h[j] && h[j..j + 3][1] == h[j + 1] && h[j..j + 3][2] == h[j + 2];
    }
    assert h[22..25] == "ork";
    FindStartAtExact(h, 2, 22, "ork");
  }

  /** The cursor's starts for `"su ou"`. */
  lemma StartsSuOu(h: string)
    requires h == ToLower("substr_scorer_should_work")
    ensures GreedyStarts(h, ["su", "ou"], 0) == Some([0, 16])
  {
    FindSu(h);
    FindOu(h);
    var empty: seq<nat> := [];
    var ou: seq<string> := ["ou"];
    assert ou[0] == "ou" && ou[1..] == [];
    assert GreedyStarts(h, ou[1..], 18) == Some([]);
    assert [16] + empty == [16];
    assert GreedyStarts(h, ou, 2) == Some([16]);
    var ts: seq<string> := ["su", "ou"];
    assert ts[0] == "su" && ts[1..] == ou;
    assert [0] + [16] == [0, 16];
  }

  /** The cursor's starts for `"su ork"`. */
  lemma StartsSuOrk(h: string)
    requires h == ToLower("substr_scorer_should_work")
    ensures GreedyStarts(h, ["su", "ork"], 0) == Some([0, 22])
  {
    FindSu(h);
    FindOrk(h);
    var empty: seq<nat> := [];
    var ork: seq<string> := ["ork"];
    assert ork[0] == "ork" && ork[1..] == [];
    assert GreedyStarts(h, ork[1..], 25) == Some([]);
    assert [22] + empty == [22];
    assert GreedyStarts(h, ork, 2) == Some([22]);
    var ts: seq<string> := ["su", "ork"];
    assert ts[0] == "su" && ts[1..] == ork;
    assert [0] + [22] == [0, 22];
  }

  /** The positions covered by the starts of `"su ou"`. */
  lemma RunsSuOu()
    ensures Runs(["su", "ou"], [0, 16]) == [0, 1, 16, 17]
  {
    assert ["su", "ou"][1..] == ["ou"];
    assert [0, 16][1..] == [16];
    assert Run(0, 2) == [0, 1];
    assert Run(16, 2) == [16, 17];
  }

  /** The positions covered by the starts of `"su ork"`. */
  lemma RunsSuOrk()
    ensures Runs(["su", "ork"], [0, 22]) == [0, 1, 22, 23, 24]
  {
    assert ["su", "ork"][1..] == ["ork"];
    assert [0, 22][1..] == [22];
    assert Run(0, 2) == [0, 1];
    assert Run(22, 3) == [22, 23, 24];
  }

  /** The score of the positions of `"su ou"`. */
  lemma ScoreSuOu(ps: seq<nat>)
    requires ps == [0, 1, 16, 17]
    ensures ScoreOf(ps) == 2.0 + 1.0 / 18.0 - 18.0
  {
    assert ps[0] == 0 && ps[|ps| - 1] == 17;
  }

  /** The score of the positions of `"su ork"`. */
  lemma ScoreSuOrk(ps: seq<nat>)
    requires ps == [0, 1, 22, 23, 24]
    ensures ScoreOf(ps) == 2.0 + 1.0 / 25.0 - 25.0
  {
    assert ps[0] == 0 && ps[|ps| - 1] == 24;
  }

  /** `("su ou", "substr_scorer_should_work")` matches at 0, 1, 16, 17 with score `2 + 1/18 - 18`. */
  lemma SuOu(needle: string, haystack: string)
    requires needle == "su ou" && haystack == "substr_scorer_should_work"
    ensures SubstrScore(needle, haystack) == Some(Scored(2.0 + 1.0 / 18.0 - 18.0, [0, 1, 16, 17]))
  {
    var h := ToLower(haystack);
    var ts := Terms(needle);
    assert needle == "su" + [' '] + "ou";
    assert ToLower("su") == "su" && ToLower("ou") == "ou";
    TermsOfTwoWords("su", "ou");
    StartsSuOu(h);
    assert GreedyStarts(h, ts, 0) == Some([0, 16]);
    assert SubstrScore(needle, haystack) == Some(Scored(ScoreOf(Runs(ts, [0, 16])), Runs(ts, [0, 16])));
    RunsSuOu();
    var ps := Runs(ts, [0, 16]);
    assert ps == [0, 1, 16, 17];
    ScoreSuOu(ps);
  }

  /** `("su ork", "substr_scorer_should_work")` matches at 0, 1, 22, 23, 24 with score `2 + 1/25 - 25`. */
  lemma SuOrk(needle: string, haystack: string)
    requires needle == "su ork" && haystack == "substr_scorer_should_work"
    ensures SubstrScore(needle, haystack) == Some(Scored(2.0 + 1.0 / 25.0 - 25.0, [0, 1, 22, 23, 24]))
  {
    var h := ToLower(haystack);
    var ts := Terms(needle);
    assert needle == "su" + [' '] + "ork";
    assert ToLower("su") == "su" && ToLower("ork") == "ork";
    TermsOfTwoWords("su", "ork");
    StartsSuOrk(h);
    assert GreedyStarts(h, ts, 0) == Some([0, 22]);
    assert SubstrScore(needle, haystack) == Some(Scored(ScoreOf(Runs(ts, [0, 22])), Runs(ts, [0, 22])));
    RunsSuOrk();
    var ps := Runs(ts, [0, 22]);
    assert ps == [0, 1, 22, 23, 24];
    ScoreSuOrk(ps);
  }
}
