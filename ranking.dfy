/**
 * `fuzzy_match` (lib.rs:71-120): score every candidate with the chosen
 * matcher, keep the matches, sort them by descending score in place, hand
 * them to the external truncator, and split its rows into the aligned
 * `indices` and `filtered` vectors.
 */
module Ranking {
  import opened Wrappers
  import opened Scorer
  import opened Matcher

  /** A ranked row `(line, score, indices)`. */
  datatype Row = Row(line: string, score: real, indices: seq<nat>)

  /**
   * `truncate_long_matched_lines(rows, winwidth, skipped)`: the shortened
   * rows and the map from row number to the original text.
   */
  type Truncator = (seq<Row>, nat, Option<nat>) -> (seq<Row>, map<nat, string>)

  predicate AllAccepted(m: Matcher, cands: seq<string>) {
    forall i :: 0 <= i < |cands| ==> Accepts(m, cands[i])
  }

  /**
   * The `filter_map(..).collect()` of lib.rs:94-97: each candidate the
   * matcher accepts, paired with its own score and indices, in input order.
   */
  function Matched(m: Matcher, fzy: FzyFn, query: string, cands: seq<string>): (rows: seq<Row>)
    requires AllAccepted(m, cands)
    ensures |rows| <= |cands|
    ensures forall row :: row in rows <==>
      exists i :: 0 <= i < |cands| && row.line == cands[i]
               && Apply(m, fzy, query, cands[i]) == Some(Scored(row.score, row.indices))
    decreases |cands|
  {
    if cands == [] then []
    else
      var rest := Matched(m, fzy, query, cands[1..]);
      assert forall i :: 1 <= i < |cands| ==> cands[i] == cands[1..][i - 1];
      match Apply(m, fzy, query, cands[0])
      case None => rest
      case Some(s) => [Row(cands[0], s.score, s.positions)] + rest
  }

  /** The matcher's result for each candidate, in order. */
  function Results(m: Matcher, fzy: FzyFn, query: string, cands: seq<string>): (rs: seq<Option<Scored>>)
    requires AllAccepted(m, cands)
    ensures |rs| == |cands|
    ensures forall i :: 0 <= i < |cands| ==> rs[i] == Apply(m, fzy, query, cands[i])
  {
    seq(|cands|, i requires 0 <= i < |cands| => Apply(m, fzy, query, cands[i]))
  }

  /**
   * `ks` numbers the candidates behind `rows`: ascending, one per row, each
   * row that candidate's text with its own result `rs[ks[k]]`, and every
   * candidate with a result numbered.
   */
  ghost predicate Numbering(cands: seq<string>, rs: seq<Option<Scored>>, rows: seq<Row>, ks: seq<nat>)
    requires |rs| == |cands|
  {
    && |ks| == |rows|
    && StrictlyAscending(ks)
    && (forall k :: 0 <= k < |ks| ==>
          && ks[k] < |cands|
          && rows[k].line == cands[ks[k]]
          && rs[ks[k]] == Some(Scored(rows[k].score, rows[k].indices)))
    && (forall i :: 0 <= i < |cands| && rs[i].Some? ==> i in ks)
  }

  /** The rows one `filter_map` step builds from the rows of the tail. */
  function Step(c: string, r: Option<Scored>, rest: seq<Row>): seq<Row> {
    match r
    case None => rest
    case Some(s) => [Row(c, s.score, s.positions)] + rest
  }

  /** Moving every number one to the right keeps them ascending. */
  lemma SuccAscending(ks: seq<nat>)
    requires StrictlyAscending(ks)
    ensures |Shift(ks, 1)| == |ks| && StrictlyAscending(Shift(ks, 1))
  {
    var s := Shift(ks, 1);
    forall k, l | 0 <= k < l < |s| ensures s[k] < s[l] {
      assert ks[k] < ks[l];
    }
  }

  /** Moved one to the right, the tail's numbers pick the same rows out of the whole input. */
  lemma SuccRows(cands: seq<string>, rs: seq<Option<Scored>>, rest: seq<Row>, ks': seq<nat>)
    requires cands != [] && |rs| == |cands|
    requires Numbering(cands[1..], rs[1..], rest, ks')
    ensures forall k :: 0 <= k < |ks'| ==>
      && 1 <= Shift(ks', 1)[k] < |cands|
      && rest[k].line == cands[Shift(ks', 1)[k]]
      && rs[Shift(ks', 1)[k]] == Some(Scored(rest[k].score, rest[k].indices))
  {
    var s := Shift(ks', 1);
    forall k | 0 <= k < |ks'|
      ensures && 1 <= s[k] < |cands|
              && rest[k].line == cands[s[k]]
              && rs[s[k]] == Some(Scored(rest[k].score, rest[k].indices))
    {
      assert cands[s[k]] == cands[1..][ks'[k]] && rs[s[k]] == rs[1..][ks'[k]];
    }
  }

  /** Moved one to the right, the tail's numbers cover every later candidate with a result. */
  lemma SuccComplete(cands: seq<string>, rs: seq<Option<Scored>>, rest: seq<Row>, ks': seq<nat>)
    requires cands != [] && |rs| == |cands|
    requires Numbering(cands[1..], rs[1..], rest, ks')
    ensures forall i :: 1 <= i < |cands| && rs[i].Some? ==> i in Shift(ks', 1)
  {
    var s := Shift(ks', 1);
    forall i | 1 <= i < |cands| && rs[i].Some? ensures i in s {
      assert rs[i] == rs[1..][i - 1];
      assert i - 1 in ks';
      var k :| 0 <= k < |ks'| && ks'[k] == i - 1;
      assert s[k] == i;
    }
  }

  /** A first candidate with a result: its row comes first, numbered 0. */
  lemma NumberingFront(cands: seq<string>, rs: seq<Option<Scored>>, rest: seq<Row>, shifted: seq<nat>)
    requires cands != [] && |rs| == |cands| && rs[0].Some?
    requires |shifted| == |rest| && StrictlyAscending(shifted)
    requires forall k :: 0 <= k < |shifted| ==>
      && 1 <= shifted[k] < |cands|
      && rest[k].line == cands[shifted[k]]
      && rs[shifted[k]] == Some(Scored(rest[k].score, rest[k].indices))
    requires forall i :: 1 <= i < |cands| && rs[i].Some? ==> i in shifted
    ensures Numbering(cands, rs, Step(cands[0], rs[0], rest), [0] + shifted)
  {
    var ks := [0] + shifted;
    var rows := Step(cands[0], rs[0], rest);
    assert rows == [Row(cands[0], rs[0].value.score, rs[0].value.positions)] + rest;
    forall k | 1 <= k < |ks| ensures ks[k] == shifted[k - 1] && rows[k] == rest[k - 1] {
    }
    forall k, l | 0 <= k < l < |ks| ensures ks[k] < ks[l] {
      if k > 0 {
        assert shifted[k - 1] < shifted[l - 1];
      }
    }
    forall i | 0 <= i < |cands| && rs[i].Some? ensures i in ks {
      if i > 0 {
        assert i in shifted;
      }
    }
  }

  /** A numbering of the tail extends to the whole input. */
  lemma NumberingCons(cands: seq<string>, rs: seq<Option<Scored>>, rest: seq<Row>, ks': seq<nat>)
      returns (ks: seq<nat>)
    requires cands != [] && |rs| == |cands|
    requires Numbering(cands[1..], rs[1..], rest, ks')
    ensures Numbering(cands, rs, Step(cands[0], rs[0], rest), ks)
  {
    var shifted := Shift(ks', 1);
    SuccAscending(ks');
    SuccRows(cands, rs, rest, ks');
    SuccComplete(cands, rs, rest, ks');
    if rs[0].Some? {
      NumberingFront(cands, rs, rest, shifted);
      ks := [0] + shifted;
    } else {
      ks := shifted;
    }
  }

  /**
   * `filter_map` keeps one row per matching candidate, in input order: the
   * matched rows are numbered by ascending candidate numbers, exactly those
   * of the candidates the matcher accepts, each row that candidate's text
   * with its own result.
   */
  lemma {:induction false} MatchedInOrder(m: Matcher, fzy: FzyFn, query: string, cands: seq<string>)
    requires AllAccepted(m, cands)
    ensures exists ks: seq<nat> :: Numbering(cands, Results(m, fzy, query, cands), Matched(m, fzy, query, cands), ks)
    decreases |cands|
  {
    var rs := Results(m, fzy, query, cands);
    if cands == [] {
      var ks: seq<nat> := [];
      assert Numbering(cands, rs, Matched(m, fzy, query, cands), ks);
    } else {
      var tail := cands[1..];
      assert AllAccepted(m, tail) by {
        forall i | 0 <= i < |tail| ensures Accepts(m, tail[i]) {
          assert tail[i] == cands[i + 1];
        }
      }
      MatchedInOrder(m, fzy, query, tail);
      assert Results(m, fzy, query, tail) == rs[1..];
      var rest := Matched(m, fzy, query, tail);
      var ks' :| Numbering(tail, rs[1..], rest, ks');
      assert Matched(m, fzy, query, cands) == Step(cands[0], rs[0], rest);
      var ks := NumberingCons(cands, rs, rest, ks');
    }
  }

  /** Non-increasing by score. */
  predicate SortedByScore(rows: seq<Row>) {
    forall i, j :: 0 <= i < j < |rows| ==> rows[i].score >= rows[j].score
  }

  /** The first `n` elements of `a` are in non-increasing score order. */
  ghost predicate SortedPrefix(a: array<Row>, n: nat)
    reads a
    requires n <= a.Length
  {
    forall k, l :: 0 <= k < l < n ==> a[k].score >= a[l].score
  }

  /** Exchanges `a[i]` and `a[j]`. */
  method Swap(a: array<Row>, i: nat, j: nat)
    requires i < a.Length && j < a.Length
    modifies a
    ensures a[i] == old(a[j]) && a[j] == old(a[i])
    ensures forall k :: 0 <= k < a.Length && k != i && k != j ==> a[k] == old(a[k])
    ensures multiset(a[..]) == multiset(old(a[..]))
  {
    a[i], a[j] := a[j], a[i];
  }

  /**
   * One insertion step: moves `a[i]` left past every element of the sorted
   * prefix `a[..i]` that scores lower, leaving `a[..i+1]` sorted.
   */
  method Insert(a: array<Row>, i: nat)
    requires i < a.Length && SortedPrefix(a, i)
    modifies a
    ensures SortedPrefix(a, i + 1)
    ensures multiset(a[..]) == multiset(old(a[..]))
    ensures a[i + 1..] == old(a[i + 1..])
  {
    var j := i;
    while j > 0 && a[j - 1].score < a[j].score
      invariant 0 <= j <= i
      invariant forall k, l :: 0 <= k < l <= i && k != j && l != j ==> a[k].score >= a[l].score
      invariant forall l :: j < l <= i ==> a[j].score > a[l].score
      invariant multiset(a[..]) == multiset(old(a[..]))
      invariant a[i + 1..] == old(a[i + 1..])
    {
      Swap(a, j - 1, j);
      j := j - 1;
    }
  }

  /**
   * The unstable sort of lib.rs:99: sorts the rows in place by descending
   * score, with no promise about the order of equal scores.
   */
  method SortByScore(a: array<Row>)
    modifies a
    ensures SortedByScore(a[..])
    ensures multiset(a[..]) == multiset(old(a[..]))
  {
    var i := 0;
    while i < a.Length
      invariant 0 <= i <= a.Length
      invariant SortedPrefix(a, i)
      invariant multiset(a[..]) == multiset(old(a[..]))
    {
      Insert(a, i);
      i := i + 1;
    }
  }

  /** Filter and sort (lib.rs:94-99): the matches, as a permutation sorted by descending score. */
  method Rank(m: Matcher, fzy: FzyFn, query: string, cands: seq<string>) returns (ranked: seq<Row>)
    requires AllAccepted(m, cands)
    ensures SortedByScore(ranked)
    ensures multiset(ranked) == multiset(Matched(m, fzy, query, cands))
    ensures forall row :: row in ranked <==>
      exists i :: 0 <= i < |cands| && row.line == cands[i]
               && Apply(m, fzy, query, cands[i]) == Some(Scored(row.score, row.indices))
  {
    var rows := Matched(m, fzy, query, cands);
    var a := new Row[|rows|](k requires 0 <= k < |rows| => rows[k]);
    assert a[..] == rows;
    SortByScore(a);
    ranked := a[..];
    forall row ensures row in ranked <==> row in rows {
      assert row in ranked <==> row in multiset(ranked);
      assert row in rows <==> row in multiset(rows);
    }
  }

  /** The loop of lib.rs:105-110: the text and the indices of each row, in order. */
  method Unzip(lines: seq<Row>) returns (indices: seq<seq<nat>>, filtered: seq<string>)
    ensures |indices| == |lines| && |filtered| == |lines|
    ensures forall i :: 0 <= i < |lines| ==> Row(filtered[i], lines[i].score, indices[i]) == lines[i]
  {
    indices, filtered := [], [];
    for i := 0 to |lines|
      invariant |indices| == i && |filtered| == i
      invariant forall k :: 0 <= k < i ==> indices[k] == lines[k].indices && filtered[k] == lines[k].line
    {
      indices := indices + [lines[i].indices];
      filtered := filtered + [lines[i].line];
    }
  }

  /** A decimal digit. */
  function Digit(d: nat): (c: char)
    requires d < 10
    ensures '0' <= c <= '9' && c as int - '0' as int == d
  {
    ('0' as int + d) as char
  }

  /** `usize::to_string`: the decimal numeral of `n`. */
  function DecimalString(n: nat): (s: string)
    ensures |s| >= 1
    ensures |s| == 1 <==> n < 10
    ensures forall i :: 0 <= i < |s| ==> '0' <= s[i] <= '9'
  {
    if n < 10 then [Digit(n)] else DecimalString(n / 10) + [Digit(n % 10)]
  }

  /** Different numbers have different numerals. */
  lemma {:induction false} DecimalInjective(a: nat, b: nat)
    requires DecimalString(a) == DecimalString(b)
    ensures a == b
  {
    var s := DecimalString(a);
    if a >= 10 {
      assert b >= 10;
      assert s[|s| - 1] == Digit(a % 10) == Digit(b % 10);
      assert s[..|s| - 1] == DecimalString(a / 10) == DecimalString(b / 10);
      DecimalInjective(a / 10, b / 10);
    }
  }

  lemma DecimalInjectiveAll()
    ensures forall a: nat, b: nat :: DecimalString(a) == DecimalString(b) ==> a == b
  {
    forall a: nat, b: nat | DecimalString(a) == DecimalString(b) ensures a == b {
      DecimalInjective(a, b);
    }
  }

  /**
   * The re-keying of lib.rs:115-118: the truncator's entries, each keyed by
   * the decimal numeral of its row number instead of the number itself.
   */
  function Rekey(m: map<nat, string>): (r: map<string, string>)
    ensures forall k :: k in m ==> DecimalString(k) in r && r[DecimalString(k)] == m[k]
    ensures forall s :: s in r ==> exists k :: k in m && s == DecimalString(k)
  {
    DecimalInjectiveAll();
    map k | k in m :: DecimalString(k) := m[k]
  }

  /** The numerals of a set of numbers. */
  function Numerals(ks: set<nat>): set<string> {
    set k | k in ks :: DecimalString(k)
  }

  lemma {:induction false} NumeralsSize(ks: set<nat>)
    ensures |Numerals(ks)| == |ks|
    decreases |ks|
  {
    if ks != {} {
      var k :| k in ks;
      var rest := ks - {k};
      NumeralsSize(rest);
      var d := DecimalString(k);
      assert Numerals(ks) == Numerals(rest) + {d};
      assert d !in Numerals(rest) by {
        if d in Numerals(rest) {
          var k' :| k' in rest && d == DecimalString(k');
          DecimalInjective(k', k);
        }
      }
    }
  }

  /** Re-keying loses no entry: the two maps have the same size. */
  lemma RekeySize(m: map<nat, string>)
    ensures |Rekey(m)| == |m|
  {
    assert Rekey(m).Keys == Numerals(m.Keys);
    NumeralsSize(m.Keys);
  }

  /** `Some(2)` display columns are skipped for the icon, else `None` (lib.rs:102). */
  function Skipped(enableIcon: bool): (r: Option<nat>)
    ensures r.Some? <==> enableIcon
    ensures r.Some? ==> r.value == 2
  {
    if enableIcon then Some(2) else None
  }

  /**
   * The results built from the truncator's output: `indices` and `filtered`
   * aligned with its rows, and its map re-keyed by numeral.
   */
  predicate Delivered(out: (seq<Row>, map<nat, string>), indices: seq<seq<nat>>, filtered: seq<string>,
                      truncatedMap: map<string, string>)
  {
    var (lines, numbered) := out;
    && |indices| == |lines| && |filtered| == |lines|
    && (forall i :: 0 <= i < |lines| ==> indices[i] == lines[i].indices && filtered[i] == lines[i].line)
    && truncatedMap == Rekey(numbered)
  }

  /**
   * `fuzzy_match(query, candidates, winwidth, enable_icon, line_splitter)`:
   * the truncator is handed some descending-score ordering of the matches
   * (`sort_unstable_by` fixes none among equal scores), and the three
   * results are read off the rows and the map it returns.
   */
  method FuzzyMatch(query: string, candidates: seq<string>, winwidth: nat, enableIcon: bool,
                    lineSplitter: string, matcherFor: string -> FzyFn, truncate: Truncator)
    returns (indices: seq<seq<nat>>, filtered: seq<string>, truncatedMap: map<string, string>)
    requires AllAccepted(Select(query, enableIcon), candidates)
    ensures exists ranked: seq<Row> ::
      && SortedByScore(ranked)
      && multiset(ranked) == multiset(Matched(Select(query, enableIcon), matcherFor(lineSplitter), query, candidates))
      && Delivered(truncate(ranked, winwidth, Skipped(enableIcon)), indices, filtered, truncatedMap)
  {
    var fzy := matcherFor(lineSplitter);
    var matcher := Select(query, enableIcon);
    var ranked := Rank(matcher, fzy, query, candidates);
    var skipped := Skipped(enableIcon);
    var (lines, numbered) := truncate(ranked, winwidth, skipped);
    indices, filtered := Unzip(lines);
    truncatedMap := Rekey(numbered);
    assert Delivered(truncate(ranked, winwidth, Skipped(enableIcon)), indices, filtered, truncatedMap);
  }
}
