/**
 * The multi-term substring scorer `substr_scorer` and its helper
 * `find_start_at` (pythonx/clap/fuzzymatch-rs/src/lib.rs).
 *
 * The needle is split on whitespace into terms; each lower-cased term is
 * searched in the lower-cased haystack at or after a cursor that only moves
 * forward, and every byte a found term covers becomes a matched position.
 */
module Scorer {
  import opened Wrappers
  import opened Text

  /** A successful match: a score and the matched byte offsets. */
  datatype Scored = Scored(score: real, positions: seq<nat>)

  /** `find_start_at(slice, at, pat)`: the first occurrence of `pat` at or after `at`. */
  function FindStartAt(slice: string, at: nat, pat: string): (r: Option<nat>)
    requires at <= |slice|
    ensures r.Some? ==> at <= r.value && OccursAt(slice, r.value, pat)
    ensures r.Some? ==> forall j: nat :: at <= j < r.value ==> !OccursAt(slice, j, pat)
    ensures r.None? ==> forall j: nat :: at <= j ==> !OccursAt(slice, j, pat)
  {
    OccursShift(slice, at, pat);
    match Find(slice[at..], pat)
    case None => None
    case Some(i) => Some(at + i)
  }

  /** Conversely, an occurrence with none before it at or after `at` is the one found. */
  lemma FindStartAtExact(slice: string, at: nat, i: nat, pat: string)
    requires at <= i <= |slice| && OccursAt(slice, i, pat)
    requires forall j: nat :: at <= j < i ==> !OccursAt(slice, j, pat)
    ensures FindStartAt(slice, at, pat) == Some(i)
  {
  }

  /** The terms of the needle, each lower-cased, in order. */
  function LowerTerms(ts: seq<string>): (r: seq<string>)
    ensures |r| == |ts|
    ensures forall k :: 0 <= k < |ts| ==> r[k] == ToLower(ts[k])
  {
    seq(|ts|, k requires 0 <= k < |ts| => ToLower(ts[k]))
  }

  /**
   * The start offsets the scorer's forward-only cursor finds for `terms`,
   * beginning at `offset`; None as soon as one term is not found.
   */
  function GreedyStarts(h: string, terms: seq<string>, offset: nat): (r: Option<seq<nat>>)
    requires offset <= |h|
    ensures r.Some? ==> |r.value| == |terms|
    decreases |terms|
  {
    if terms == [] then Some([])
    else
      match FindStartAt(h, offset, terms[0])
      case None => None
      case Some(idx) =>
        match GreedyStarts(h, terms[1..], idx + |terms[0]|)
        case None => None
        case Some(rest) => Some([idx] + rest)
  }

  /**
   * Independent description of a successful search: `starts[k]` is an
   * occurrence of `terms[k]`, the first at or after `offset`, each later one
   * at or after the end of the one before it.
   */
  ghost predicate Placement(h: string, terms: seq<string>, offset: nat, starts: seq<nat>)
    decreases |terms|
  {
    && |starts| == |terms|
    && (terms != [] ==>
          && offset <= starts[0]
          && OccursAt(h, starts[0], terms[0])
          && Placement(h, terms[1..], starts[0] + |terms[0]|, starts[1..]))
  }

  /** Some placement of all of `terms` exists, starting from offset 0. */
  ghost predicate Placeable(h: string, terms: seq<string>) {
    exists st: seq<nat> :: Placement(h, terms, 0, st)
  }

  /** The contiguous run of `n` offsets starting at `lo`. */
  function Run(lo: nat, n: nat): seq<nat> {
    seq(n, k requires 0 <= k < n => lo + k)
  }

  /** The positions a placement covers: one run per term, in order. */
  function Runs(terms: seq<string>, starts: seq<nat>): seq<nat>
    requires |starts| == |terms|
    decreases |terms|
  {
    if terms == [] then [] else Run(starts[0], |terms[0]|) + Runs(terms[1..], starts[1..])
  }

  /** The score `2/(p0+1) + 1/(last+1) - (last+1-p0)`, and 0 for no positions. */
  function ScoreOf(ps: seq<nat>): real {
    if ps == [] then 0.0
    else
      var first := ps[0];
      var last := ps[|ps| - 1];
      2.0 / (first + 1) as real + 1.0 / (last + 1) as real - (last as int + 1 - first) as real
  }

  /** `c/(n+1)` shrinks as `n` grows, for a positive `c`. */
  lemma QuotientShrinks(c: real, x: nat, y: nat)
    requires 0.0 < c && x < y
    ensures c / (y + 1) as real < c / (x + 1) as real
  {
    var xr, yr := (x + 1) as real, (y + 1) as real;
    var q := c / yr;
    assert q * yr == c;
    assert q > 0.0;
    assert q * xr < q * yr;
    assert c / xr == (q * yr) / xr;
  }

  /** No score exceeds 2: the best is a match starting at 0 whose span is one character. */
  lemma ScoreAtMostTwo(ps: seq<nat>)
    requires ps != [] ==> ps[0] <= ps[|ps| - 1]
    ensures ScoreOf(ps) <= 2.0
  {
    if ps != [] {
      var f, l := ps[0], ps[|ps| - 1];
      assert 2.0 / (f + 1) as real <= 2.0;
      assert 1.0 / (l + 1) as real <= 1.0;
    }
  }

  /** With the same start, a match whose last position is further right scores lower. */
  lemma ScoreWiderSpanLower(ps: seq<nat>, qs: seq<nat>)
    requires ps != [] && qs != []
    requires qs[0] == ps[0] && ps[|ps| - 1] < qs[|qs| - 1]
    ensures ScoreOf(qs) < ScoreOf(ps)
  {
    QuotientShrinks(1.0, ps[|ps| - 1], qs[|qs| - 1]);
  }

  /** With the same span, a match that starts further right scores lower. */
  lemma ScoreLaterStartLower(ps: seq<nat>, qs: seq<nat>)
    requires ps != [] && qs != []
    requires ps[0] < qs[0] && qs[|qs| - 1] as int - qs[0] == ps[|ps| - 1] as int - ps[0]
    ensures ScoreOf(qs) < ScoreOf(ps)
  {
    QuotientShrinks(2.0, ps[0], qs[0]);
    QuotientShrinks(1.0, ps[|ps| - 1], qs[|qs| - 1]);
  }

  /** What `substr_scorer(needle, haystack)` returns. */
  function SubstrScore(needle: string, haystack: string): Option<Scored> {
    var h := ToLower(haystack);
    var terms := Terms(needle);
    match GreedyStarts(h, terms, 0)
    case None => None
    case Some(st) =>
      var ps := Runs(terms, st);
      Some(Scored(ScoreOf(ps), ps))
  }

  predicate StrictlyAscending(ps: seq<nat>) {
    forall i, j :: 0 <= i < j < |ps| ==> ps[i] < ps[j]
  }

  /** The characters of `h` at the offsets `ps`, in order. */
  function Spell(h: string, ps: seq<nat>): string
    requires forall i :: 0 <= i < |ps| ==> ps[i] < |h|
  {
    seq(|ps|, i requires 0 <= i < |ps| => h[ps[i]])
  }

  // ----- lemmas about the search -----

  /** What the greedy cursor finds is a placement. */
  lemma {:induction false} GreedyIsPlacement(h: string, terms: seq<string>, offset: nat)
    requires offset <= |h|
    ensures GreedyStarts(h, terms, offset).Some? ==> Placement(h, terms, offset, GreedyStarts(h, terms, offset).value)
    decreases |terms|
  {
    if terms != [] {
      match FindStartAt(h, offset, terms[0]) {
        case None =>
        case Some(idx) =>
          GreedyIsPlacement(h, terms[1..], idx + |terms[0]|);
      }
    }
  }

  /**
   * Whenever some placement exists, the greedy cursor succeeds, and each of
   * its starts is at or before the corresponding start of that placement.
   */
  lemma {:induction false} GreedyLeftmost(h: string, terms: seq<string>, offset: nat, starts: seq<nat>)
    requires offset <= |h|
    requires Placement(h, terms, offset, starts)
    ensures GreedyStarts(h, terms, offset).Some?
    ensures forall k :: 0 <= k < |starts| ==> GreedyStarts(h, terms, offset).value[k] <= starts[k]
    decreases |terms|
  {
    if terms != [] {
      var t := terms[0];
      var found := FindStartAt(h, offset, t);
      assert found.Some?;
      var idx := found.value;
      assert idx <= starts[0];
      assert Placement(h, terms[1..], idx + |t|, starts[1..]);
      GreedyLeftmost(h, terms[1..], idx + |t|, starts[1..]);
      var rest := GreedyStarts(h, terms[1..], idx + |t|).value;
      assert GreedyStarts(h, terms, offset).value == [idx] + rest;
    }
  }

  /** The search succeeds exactly when a placement exists. */
  lemma GreedySomeIff(h: string, terms: seq<string>)
    ensures GreedyStarts(h, terms, 0).Some? <==> Placeable(h, terms)
  {
    var g := GreedyStarts(h, terms, 0);
    if g.Some? {
      GreedyIsPlacement(h, terms, 0);
      var st := g.value;
      assert Placement(h, terms, 0, st);
      assert exists st: seq<nat> :: Placement(h, terms, 0, st);
    } else if exists st: seq<nat> :: Placement(h, terms, 0, st) {
      var st :| Placement(h, terms, 0, st);
      GreedyLeftmost(h, terms, 0, st);
      assert false;
    }
  }

  lemma AscendingConcat(a: seq<nat>, b: seq<nat>, bound: nat)
    requires StrictlyAscending(a) && StrictlyAscending(b)
    requires forall i :: 0 <= i < |a| ==> a[i] < bound
    requires forall j :: 0 <= j < |b| ==> bound <= b[j]
    ensures StrictlyAscending(a + b)
  {
    var c := a + b;
    forall i, j | 0 <= i < j < |c| ensures c[i] < c[j] {
      if j < |a| {
        assert c[i] == a[i] && c[j] == a[j];
      } else if i < |a| {
        assert c[i] == a[i] && c[j] == b[j - |a|];
      } else {
        assert c[i] == b[i - |a|] && c[j] == b[j - |a|];
      }
    }
  }

  lemma SpellConcat(h: string, a: seq<nat>, b: seq<nat>)
    requires forall i :: 0 <= i < |a| ==> a[i] < |h|
    requires forall j :: 0 <= j < |b| ==> b[j] < |h|
    ensures forall i :: 0 <= i < |a + b| ==> (a + b)[i] < |h|
    ensures Spell(h, a + b) == Spell(h, a) + Spell(h, b)
  {
    assert forall i :: 0 <= i < |a + b| ==> (a + b)[i] < |h| by {
      forall i | 0 <= i < |a + b| ensures (a + b)[i] < |h| {
        if i < |a| { assert (a + b)[i] == a[i]; } else { assert (a + b)[i] == b[i - |a|]; }
      }
    }
  }

  /**
   * The positions of a placement: strictly ascending, at or after the
   * offset, inside the haystack, one per byte of the terms, and the
   * haystack's bytes at them spell the terms one after another.
   */
  lemma {:induction false} RunsShape(h: string, terms: seq<string>, offset: nat, starts: seq<nat>)
    requires Placement(h, terms, offset, starts)
    ensures var ps := Runs(terms, starts);
      && StrictlyAscending(ps)
      && (forall i :: 0 <= i < |ps| ==> offset <= ps[i] < |h|)
      && |ps| == |Flatten(terms)|
      && Spell(h, ps) == Flatten(terms)
    decreases |terms|
  {
    if terms != [] {
      var t, s := terms[0], starts[0];
      var run := Run(s, |t|);
      var rest := Runs(terms[1..], starts[1..]);
      RunsShape(h, terms[1..], s + |t|, starts[1..]);
      assert forall i :: 0 <= i < |run| ==> run[i] < s + |t|;
      AscendingConcat(run, rest, s + |t|);
      SpellConcat(h, run, rest);
      assert Spell(h, run) == t by {
        assert h[s..s + |t|] == t;
        forall i | 0 <= i < |t| ensures Spell(h, run)[i] == t[i] {
          assert h[s..s + |t|][i] == h[s + i];
        }
      }
    }
  }

  lemma {:induction false} FlattenLower(ts: seq<string>)
    ensures Flatten(LowerTerms(ts)) == ToLower(Flatten(ts))
    decreases |ts|
  {
    if ts != [] {
      assert LowerTerms(ts)[1..] == LowerTerms(ts[1..]);
      FlattenLower(ts[1..]);
      ToLowerAppend(ts[0], Flatten(ts[1..]));
    }
  }

  lemma FlattenEmptyIff(ts: seq<string>)
    requires forall k :: 0 <= k < |ts| ==> ts[k] != []
    ensures Flatten(ts) == [] <==> ts == []
  {
    if ts != [] {
      assert |Flatten(ts)| >= |ts[0]|;
    }
  }

  // ----- properties of substr_scorer -----

  /**
   * An empty or all-whitespace needle matches every haystack with score 0
   * and no positions.
   */
  lemma WhitespaceNeedle(needle: string, haystack: string)
    requires AllWhitespace(needle)
    ensures SubstrScore(needle, haystack) == Some(Scored(0.0, []))
  {
    SplitEmptyIff(needle);
  }

  /**
   * The scorer succeeds exactly when the lower-cased terms can be placed
   * left to right, each at or after the end of the one before, in the
   * lower-cased haystack.
   */
  lemma SubstrSomeIff(needle: string, haystack: string)
    ensures SubstrScore(needle, haystack).Some?
        <==> Placeable(ToLower(haystack), Terms(needle))
  {
    var h := ToLower(haystack);
    var terms := Terms(needle);
    GreedySomeIff(h, terms);
    assert SubstrScore(needle, haystack).Some? == GreedyStarts(h, terms, 0).Some?;
  }

  /** The lower-cased terms of the needle, as the scorer's loop sees them. */
  function Terms(needle: string): seq<string> {
    LowerTerms(SplitWhitespace(needle))
  }

  /** A successful result is the runs of the greedy starts, scored. */
  lemma SubstrUnfold(needle: string, haystack: string)
    requires SubstrScore(needle, haystack).Some?
    ensures GreedyStarts(ToLower(haystack), Terms(needle), 0).Some?
    ensures var ps := Runs(Terms(needle), GreedyStarts(ToLower(haystack), Terms(needle), 0).value);
      SubstrScore(needle, haystack) == Some(Scored(ScoreOf(ps), ps))
    ensures Placement(ToLower(haystack), Terms(needle), 0, GreedyStarts(ToLower(haystack), Terms(needle), 0).value)
  {
    GreedyIsPlacement(ToLower(haystack), Terms(needle), 0);
  }

  /**
   * On success the positions are strictly ascending and inside the
   * haystack, and the lower-cased haystack's bytes at them spell the
   * lower-cased needle with its whitespace removed, so there is one position
   * per byte of the terms.
   */
  lemma SubstrPositions(needle: string, haystack: string)
    requires SubstrScore(needle, haystack).Some?
    ensures var ps := SubstrScore(needle, haystack).value.positions;
      && StrictlyAscending(ps)
      && (forall i :: 0 <= i < |ps| ==> ps[i] < |haystack|)
      && |ps| == |DropWhitespace(needle)|
      && Spell(ToLower(haystack), ps) == ToLower(DropWhitespace(needle))
  {
    SubstrUnfold(needle, haystack);
    var h := ToLower(haystack);
    RunsShape(h, Terms(needle), 0, GreedyStarts(h, Terms(needle), 0).value);
    FlattenLower(SplitWhitespace(needle));
    SplitKeepsText(needle);
  }

  /** On success the positions are empty exactly for an all-whitespace needle. */
  lemma SubstrEmptyIff(needle: string, haystack: string)
    requires SubstrScore(needle, haystack).Some?
    ensures SubstrScore(needle, haystack).value.positions == [] <==> AllWhitespace(needle)
  {
    SubstrUnfold(needle, haystack);
    var h := ToLower(haystack);
    RunsShape(h, Terms(needle), 0, GreedyStarts(h, Terms(needle), 0).value);
    SplitEmptyIff(needle);
    FlattenEmptyIff(Terms(needle));
  }

  /** `Prepend(st, r)` extends a successful search result `r` by the starts `st`. */
  function Prepend(st: seq<nat>, r: Option<seq<nat>>): Option<seq<nat>> {
    match r
    case None => None
    case Some(rest) => Some(st + rest)
  }

  lemma RunsAppend(terms: seq<string>, starts: seq<nat>, t: string, s: nat)
    requires |terms| == |starts|
    ensures Runs(terms + [t], starts + [s]) == Runs(terms, starts) + Run(s, |t|)
    decreases |terms|
  {
    if terms == [] {
      assert Runs([t], [s]) == Run(s, |t|) + Runs([], []);
    } else {
      assert (terms + [t])[1..] == terms[1..] + [t];
      assert (starts + [s])[1..] == starts[1..] + [s];
      RunsAppend(terms[1..], starts[1..], t, s);
    }
  }

  /**
   * One iteration of the scorer's loop, in terms of the greedy search:
   * `whole` is the search over all terms, `ts` the terms still to find.
   */
  lemma GreedyStep(h: string, ts: seq<string>, offset: nat, starts: seq<nat>, whole: Option<seq<nat>>)
    requires ts != [] && offset <= |h|
    requires whole == Prepend(starts, GreedyStarts(h, ts, offset))
    ensures FindStartAt(h, offset, ts[0]).None? ==> whole == None
    ensures FindStartAt(h, offset, ts[0]).Some? ==>
      var idx := FindStartAt(h, offset, ts[0]).value;
      && idx + |ts[0]| <= |h|
      && whole == Prepend(starts + [idx], GreedyStarts(h, ts[1..], idx + |ts[0]|))
  {
    match FindStartAt(h, offset, ts[0]) {
      case None =>
      case Some(idx) =>
        match GreedyStarts(h, ts[1..], idx + |ts[0]|) {
          case None =>
          case Some(rest) =>
            assert starts + ([idx] + rest) == (starts + [idx]) + rest;
        }
    }
  }

  /** The loop invariant of `substr_scorer` after `i` terms. */
  ghost predicate LoopInvariant(h: string, terms: seq<string>, i: nat, offset: nat, starts: seq<nat>, positions: seq<nat>) {
    && i <= |terms| && offset <= |h| && |starts| == i
    && positions == Runs(terms[..i], starts)
    && GreedyStarts(h, terms, 0) == Prepend(starts, GreedyStarts(h, terms[i..], offset))
  }

  lemma LoopInit(h: string, terms: seq<string>)
    ensures LoopInvariant(h, terms, 0, 0, [], [])
  {
    assert terms[0..] == terms;
    assert terms[..0] == [];
    if GreedyStarts(h, terms, 0).Some? {
      assert [] + GreedyStarts(h, terms, 0).value == GreedyStarts(h, terms, 0).value;
    }
  }

  /** The term at `i` is not found: the whole search fails. */
  lemma LoopMissing(h: string, terms: seq<string>, i: nat, offset: nat, starts: seq<nat>, positions: seq<nat>, sub: string)
    requires LoopInvariant(h, terms, i, offset, starts, positions) && i < |terms| && sub == terms[i]
    requires FindStartAt(h, offset, sub).None?
    ensures GreedyStarts(h, terms, 0) == None
  {
    assert terms[i..][0] == terms[i];
    GreedyStep(h, terms[i..], offset, starts, GreedyStarts(h, terms, 0));
  }

  /** The term at `i` is found at `idx`: the cursor moves past it and its run is appended. */
  lemma LoopFound(h: string, terms: seq<string>, i: nat, offset: nat, starts: seq<nat>, positions: seq<nat>, sub: string, idx: nat, grown: seq<nat>)
    requires LoopInvariant(h, terms, i, offset, starts, positions) && i < |terms| && sub == terms[i]
    requires FindStartAt(h, offset, sub) == Some(idx)
    requires grown == positions + Run(idx, |sub|)
    ensures LoopInvariant(h, terms, i + 1, idx + |sub|, starts + [idx], grown)
  {
    assert terms[i..][0] == sub && terms[i..][1..] == terms[i + 1..];
    FoundMovesCursor(h, terms[i..], offset, starts, GreedyStarts(h, terms, 0), sub, idx);
    FoundAppendsRun(terms, i, starts, positions, sub, idx, grown);
  }

  /** The cursor half of `LoopFound`. */
  lemma FoundMovesCursor(h: string, ts: seq<string>, offset: nat, starts: seq<nat>, whole: Option<seq<nat>>, sub: string, idx: nat)
    requires ts != [] && ts[0] == sub && offset <= |h|
    requires whole == Prepend(starts, GreedyStarts(h, ts, offset))
    requires FindStartAt(h, offset, sub) == Some(idx)
    ensures idx + |sub| <= |h|
    ensures whole == Prepend(starts + [idx], GreedyStarts(h, ts[1..], idx + |sub|))
  {
    GreedyStep(h, ts, offset, starts, whole);
  }

  /** The positions half of `LoopFound`. */
  lemma FoundAppendsRun(terms: seq<string>, i: nat, starts: seq<nat>, positions: seq<nat>, sub: string, idx: nat, grown: seq<nat>)
    requires i < |terms| && |starts| == i && sub == terms[i]
    requires positions == Runs(terms[..i], starts)
    requires grown == positions + Run(idx, |sub|)
    ensures grown == Runs(terms[..i + 1], starts + [idx])
  {
    assert terms[..i + 1] == terms[..i] + [sub];
    RunsAppend(terms[..i], starts, sub, idx);
  }

  /** The loop ran to the end: the search found `starts` and the positions are their runs. */
  lemma LoopDone(h: string, terms: seq<string>, offset: nat, starts: seq<nat>, positions: seq<nat>)
    requires LoopInvariant(h, terms, |terms|, offset, starts, positions)
    ensures GreedyStarts(h, terms, 0) == Some(starts)
    ensures positions == Runs(terms, starts)
  {
    assert terms[|terms|..] == [];
    assert terms[..|terms|] == terms;
    assert starts + [] == starts;
  }

  /** A search that found `starts` gives the scored runs of `starts`. */
  lemma SubstrFromSearch(needle: string, haystack: string, starts: seq<nat>)
    requires GreedyStarts(ToLower(haystack), Terms(needle), 0) == Some(starts)
    ensures SubstrScore(needle, haystack) == Some(Scored(ScoreOf(Runs(Terms(needle), starts)), Runs(Terms(needle), starts)))
  {
  }

  lemma SubstrFromMissing(needle: string, haystack: string)
    requires GreedyStarts(ToLower(haystack), Terms(needle), 0) == None
    ensures SubstrScore(needle, haystack) == None
  {
  }

  /**
   * Growing `positions` by `n` entries with the counting closure of
   * lib.rs:30-39: appends `lo, lo+1, .., lo+n-1`.
   */
  method ResizeWithRun(positions: seq<nat>, lo: nat, n: nat) returns (r: seq<nat>)
    ensures r == positions + Run(lo, n)
  {
    r := positions;
    var pos := lo;
    var target := |positions| + n;
    while |r| < target
      invariant |positions| <= |r| <= target
      invariant pos == lo + (|r| - |positions|)
      invariant r == positions + Run(lo, pos - lo)
    {
      pos := pos + 1;
      r := r + [pos - 1];
      assert Run(lo, pos - lo) == Run(lo, pos - 1 - lo) + [pos - 1];
    }
  }

  /** Only a needle with a term can fail to match. */
  lemma SubstrNoneNotWhitespace(needle: string, haystack: string)
    requires SubstrScore(needle, haystack).None?
    ensures !AllWhitespace(needle)
  {
    if AllWhitespace(needle) {
      WhitespaceNeedle(needle, haystack);
    }
  }

  /** A match never scores above 2 (its positions ascend, so its start is not past its end). */
  lemma SubstrAtMostTwo(needle: string, haystack: string)
    requires SubstrScore(needle, haystack).Some?
    ensures SubstrScore(needle, haystack).value.score <= 2.0
  {
    SubstrPositions(needle, haystack);
    var ps := SubstrScore(needle, haystack).value.positions;
    if |ps| > 1 {
      assert ps[0] < ps[|ps| - 1];
    }
    ScoreAtMostTwo(ps);
  }

  /**
   * The loop of `substr_scorer` (lib.rs:20-43): `offset` is the cursor, and
   * `positions` grows by the run `idx .. idx+len-1` of each found term.
   */
  method SubstrScorer(needle: string, haystack: string) returns (r: Option<Scored>)
    ensures r == SubstrScore(needle, haystack)
    ensures AllWhitespace(needle) ==> r == Some(Scored(0.0, []))
    ensures r.Some? ==> StrictlyAscending(r.value.positions)
    ensures r.Some? ==> forall i :: 0 <= i < |r.value.positions| ==> r.value.positions[i] < |haystack|
    ensures r.Some? ==> |r.value.positions| == |DropWhitespace(needle)|
  {
    var h := ToLower(haystack);
    var raw := SplitWhitespace(needle);
    ghost var terms := Terms(needle);
    var offset: nat := 0;
    var positions: seq<nat> := [];
    ghost var starts: seq<nat> := [];
    var i := 0;
    LoopInit(h, terms);
    while i < |raw|
      invariant |raw| == |terms|
      invariant LoopInvariant(h, terms, i, offset, starts, positions)
    {
      var sub := ToLower(raw[i]);
      assert sub == terms[i];
      match FindStartAt(h, offset, sub) {
        case None =>
          LoopMissing(h, terms, i, offset, starts, positions, sub);
          SubstrFromMissing(needle, haystack);
          SubstrNoneNotWhitespace(needle, haystack);
          return None;
        case Some(idx) =>
          ghost var before := positions;
          positions := ResizeWithRun(positions, idx, |sub|);
          LoopFound(h, terms, i, offset, starts, before, sub, idx, positions);
          offset := idx + |sub|;
          starts := starts + [idx];
      }
      i := i + 1;
    }
    LoopDone(h, terms, offset, starts, positions);
    SubstrFromSearch(needle, haystack, starts);
    if positions == [] {
      r := Some(Scored(0.0, positions));
    } else {
      r := Some(Scored(ScoreOf(positions), positions));
    }
    assert r == SubstrScore(needle, haystack);
    SubstrProperties(needle, haystack);
  }

  /** The scorer's promises, gathered for `SubstrScorer`. */
  lemma SubstrProperties(needle: string, haystack: string)
    ensures var r := SubstrScore(needle, haystack);
      && (AllWhitespace(needle) ==> r == Some(Scored(0.0, [])))
      && (r.Some? ==> StrictlyAscending(r.value.positions))
      && (r.Some? ==> forall i :: 0 <= i < |r.value.positions| ==> r.value.positions[i] < |haystack|)
      && (r.Some? ==> |r.value.positions| == |DropWhitespace(needle)|)
      && (r.Some? ==> r.value.score <= 2.0)
  {
    if AllWhitespace(needle) { WhitespaceNeedle(needle, haystack); }
    if SubstrScore(needle, haystack).Some? {
      SubstrPositions(needle, haystack);
      SubstrAtMostTwo(needle, haystack);
    }
  }
}
