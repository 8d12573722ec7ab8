/**
 * The matcher `fuzzy_match` chooses once per query (lib.rs:78-92): the
 * substring scorer for a query holding a space, otherwise the external fzy
 * matcher, run past the 4-byte icon prefix when icons are enabled.
 */
module Matcher {
  import opened Wrappers
  import opened Text
  import opened Scorer

  /**
   * The fzy matcher that `get_appropriate_matcher` returns for the line
   * splitter: `(line, query)` to an integer score and matched offsets.
   */
  type FzyFn = (string, string) -> Option<(int, seq<nat>)>

  /** The closure `fuzzy_match` builds, as a tagged value. */
  datatype Matcher = Substring | Fzy(enableIcon: bool)

  /** The icon glyph and its separator occupy the first 4 bytes of a line. */
  const IconBytes: nat := 4

  /** The matcher chosen for `query`: contains `' '` selects the substring scorer. */
  function Select(query: string, enableIcon: bool): (m: Matcher)
    ensures m.Substring? <==> ' ' in query
    ensures m.Fzy? ==> m.enableIcon == enableIcon
  {
    if ' ' in query then Substring else Fzy(enableIcon)
  }

  /** `&line[4..]` needs at least 4 bytes; the other matchers accept any line. */
  predicate Accepts(m: Matcher, line: string) {
    m.Fzy? && m.enableIcon ==> |line| >= IconBytes
  }

  /** How far the fzy matcher's offsets are moved: 4 past the icon, else 0. */
  function Offset(m: Matcher): nat {
    if m.Fzy? && m.enableIcon then IconBytes else 0
  }

  /** The text the fzy matcher sees. */
  function FzyLine(m: Matcher, line: string): (s: string)
    requires Accepts(m, line)
    ensures |s| == |line| - Offset(m)
    ensures forall i :: 0 <= i < |s| ==> s[i] == line[i + Offset(m)]
  {
    if m.Fzy? && m.enableIcon then line[IconBytes..] else line
  }

  /** Every index moved right by `k` (lib.rs:86). */
  function Shift(ids: seq<nat>, k: nat): (r: seq<nat>)
    ensures |r| == |ids|
    ensures forall i :: 0 <= i < |ids| ==> r[i] - k == ids[i]
  {
    seq(|ids|, i requires 0 <= i < |ids| => ids[i] + k)
  }

  /** The result of running matcher `m` on `line`. */
  function Apply(m: Matcher, fzy: FzyFn, query: string, line: string): (r: Option<Scored>)
    requires Accepts(m, line)
    ensures m.Substring? ==> r == SubstrScore(query, line)
    ensures m.Fzy? ==> (r.Some? <==> fzy(FzyLine(m, line), query).Some?)
    ensures m.Fzy? && r.Some? ==>
      var (score, ids) := fzy(FzyLine(m, line), query).value;
      && r.value.score == score as real
      && |r.value.positions| == |ids|
      && forall i :: 0 <= i < |ids| ==> r.value.positions[i] - Offset(m) == ids[i]
    ensures m.Fzy? && m.enableIcon && r.Some? ==>
      forall i :: 0 <= i < |r.value.positions| ==> r.value.positions[i] >= IconBytes
  {
    match m
    case Substring => SubstrScore(query, line)
    case Fzy(icon) =>
      match fzy(FzyLine(m, line), query)
      case None => None
      case Some((score, ids)) => Some(Scored(score as real, Shift(ids, Offset(m))))
  }

  /**
   * With a space in the query the result is the substring scorer's on the
   * whole line, whether or not icons are enabled.
   */
  lemma SpaceSelectsSubstring(query: string, enableIcon: bool, fzy: FzyFn, line: string)
    requires ' ' in query
    ensures Accepts(Select(query, enableIcon), line)
    ensures Apply(Select(query, enableIcon), fzy, query, line) == SubstrScore(query, line)
  {
  }

  /** Without a space and without icons the fzy result passes through unchanged. */
  lemma PlainFzyPassesThrough(query: string, fzy: FzyFn, line: string)
    requires ' ' !in query
    ensures Apply(Select(query, false), fzy, query, line)
         == match fzy(line, query)
            case None => None
            case Some((score, ids)) => Some(Scored(score as real, ids))
  {
    var r := fzy(line, query);
    if r.Some? {
      assert Shift(r.value.1, 0) == r.value.1;
    }
  }

  /**
   * Without a space and with icons: the fzy matcher runs on `line[4..]`,
   * the score is kept, every offset it reports is moved 4 to the right, so
   * offsets that were inside `line[4..]` (in ascending order) are inside
   * `line` (in the same order).
   */
  lemma IconShift(query: string, fzy: FzyFn, line: string)
    requires ' ' !in query && |line| >= IconBytes
    ensures var r := Apply(Select(query, true), fzy, query, line);
      var f := fzy(line[IconBytes..], query);
      && (r.Some? <==> f.Some?)
      && (r.Some? ==>
            && r.value.score == f.value.0 as real
            && r.value.positions == Shift(f.value.1, IconBytes)
            && ((forall i :: 0 <= i < |f.value.1| ==> f.value.1[i] < |line| - IconBytes) ==>
                  forall i :: 0 <= i < |r.value.positions| ==> IconBytes <= r.value.positions[i] < |line|)
            && (StrictlyAscending(f.value.1) ==> StrictlyAscending(r.value.positions)))
  {
  }

  /**
   * `contains(' ')` looks for the space character only: a query whose terms
   * are separated by a tab goes to the fzy matcher as one term, although the
   * substring scorer would split it into two.
   */
  lemma TabQueryGoesToFzy(enableIcon: bool)
    ensures Select("a\tb", enableIcon).Fzy?
    ensures SplitWhitespace("a\tb") == ["a", "b"]
  {
    assert WordPrefix("a\tb") == "a";
    assert "a\tb"[1..] == "\tb";
    assert "\tb"[1..] == "b";
    assert WordPrefix("b") == "b";
  }
}
