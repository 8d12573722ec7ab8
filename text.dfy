/**
 * The string primitives of Rust's `str` that the scorer relies on:
 * `to_lowercase`, `split_whitespace` and `find`.
 *
 * A string is a `seq<char>` in which every character stands for one byte,
 * so an index into the sequence is a byte offset (ASCII text).
 */
module Text {
  import opened Wrappers

  /** `char::is_whitespace` restricted to ASCII: tab, LF, VT, FF, CR and space. */
  predicate IsWhitespace(c: char) {
    c == ' ' || 9 <= c as int <= 13
  }

  predicate AllWhitespace(s: string) {
    forall i :: 0 <= i < |s| ==> IsWhitespace(s[i])
  }

  predicate NoWhitespace(s: string) {
    forall i :: 0 <= i < |s| ==> !IsWhitespace(s[i])
  }

  /** ASCII lower-casing of one character. */
  function LowerChar(c: char): (r: char)
    ensures 'A' <= c <= 'Z' ==> r as int == c as int + 32
    ensures !('A' <= c <= 'Z') ==> r == c
  {
    if 'A' <= c <= 'Z' then (c as int + 32) as char else c
  }

  /** `str::to_lowercase`, length-preserving on ASCII text. */
  function ToLower(s: string): (r: string)
    ensures |r| == |s|
    ensures forall i :: 0 <= i < |s| ==> r[i] == LowerChar(s[i])
  {
    seq(|s|, i requires 0 <= i < |s| => LowerChar(s[i]))
  }

  lemma ToLowerAppend(s: string, t: string)
    ensures ToLower(s + t) == ToLower(s) + ToLower(t)
  {
  }

  /** The longest prefix of `s` holding no whitespace. */
  function WordPrefix(s: string): (w: string)
    ensures |w| <= |s| && w == s[..|w|]
    ensures NoWhitespace(w)
    ensures |w| < |s| ==> IsWhitespace(s[|w|])
    ensures s != [] && !IsWhitespace(s[0]) ==> |w| >= 1
  {
    if s == [] || IsWhitespace(s[0]) then [] else [s[0]] + WordPrefix(s[1..])
  }

  /** `str::split_whitespace`: the maximal runs of non-whitespace, in order. */
  function SplitWhitespace(s: string): (terms: seq<string>)
    ensures forall k :: 0 <= k < |terms| ==> terms[k] != [] && NoWhitespace(terms[k])
    decreases |s|
  {
    if s == [] then []
    else if IsWhitespace(s[0]) then SplitWhitespace(s[1..])
    else
      var w := WordPrefix(s);
      [w] + SplitWhitespace(s[|w|..])
  }

  /** The concatenation of a sequence of strings. */
  function Flatten(ts: seq<string>): string {
    if ts == [] then [] else ts[0] + Flatten(ts[1..])
  }

  /** `s` with every whitespace character removed. */
  function DropWhitespace(s: string): string {
    if s == [] then []
    else (if IsWhitespace(s[0]) then [] else [s[0]]) + DropWhitespace(s[1..])
  }

  /** A string splits into no terms exactly when it is all whitespace. */
  lemma {:induction false} SplitEmptyIff(s: string)
    ensures SplitWhitespace(s) == [] <==> AllWhitespace(s)
    decreases |s|
  {
    if s != [] && IsWhitespace(s[0]) {
      SplitEmptyIff(s[1..]);
      assert AllWhitespace(s) <==> AllWhitespace(s[1..]) by {
        if AllWhitespace(s[1..]) {
          forall i | 0 <= i < |s| ensures IsWhitespace(s[i]) {
            if i > 0 { assert s[i] == s[1..][i - 1]; }
          }
        }
      }
    }
  }

  lemma {:induction false} DropWord(s: string, k: nat)
    requires k <= |s| && NoWhitespace(s[..k])
    ensures DropWhitespace(s) == s[..k] + DropWhitespace(s[k..])
    decreases k
  {
    if k > 0 {
      assert !IsWhitespace(s[..k][0]);
      var rest := s[1..][..k - 1];
      assert NoWhitespace(rest) by {
        forall i | 0 <= i < k - 1 ensures !IsWhitespace(rest[i]) {
          assert rest[i] == s[..k][i + 1];
        }
      }
      DropWord(s[1..], k - 1);
      assert s[1..][k - 1..] == s[k..];
      assert [s[0]] + s[1..k] == s[..k];
    }
  }

  /** Splitting loses exactly the whitespace: the terms, joined, are the non-whitespace text. */
  lemma {:induction false} SplitKeepsText(s: string)
    ensures Flatten(SplitWhitespace(s)) == DropWhitespace(s)
    decreases |s|
  {
    if s == [] {
    } else if IsWhitespace(s[0]) {
      SplitKeepsText(s[1..]);
    } else {
      var w := WordPrefix(s);
      var ts := SplitWhitespace(s);
      assert ts == [w] + SplitWhitespace(s[|w|..]);
      assert ts[1..] == SplitWhitespace(s[|w|..]);
      SplitKeepsText(s[|w|..]);
      DropWord(s, |w|);
    }
  }

  /** A word with no whitespace in it is its own longest whitespace-free prefix. */
  lemma {:induction false} WordPrefixWhole(w: string)
    requires NoWhitespace(w)
    ensures WordPrefix(w) == w
    decreases |w|
  {
    if w != [] {
      assert NoWhitespace(w[1..]) by {
        forall i | 0 <= i < |w| - 1 ensures !IsWhitespace(w[1..][i]) {
          assert w[1..][i] == w[i + 1];
        }
      }
      WordPrefixWhole(w[1..]);
    }
  }

  /** The longest whitespace-free prefix stops at the first whitespace character. */
  lemma {:induction false} WordPrefixStops(a: string, t: string)
    requires t != [] && IsWhitespace(t[0])
    ensures WordPrefix(a + t) == WordPrefix(a)
    decreases |a|
  {
    if a != [] && !IsWhitespace(a[0]) {
      assert (a + t)[1..] == a[1..] + t;
      WordPrefixStops(a[1..], t);
    } else if a == [] {
      assert a + t == t;
    }
  }

  /** A non-empty whitespace-free string is a single term. */
  lemma SplitWord(w: string)
    requires w != [] && NoWhitespace(w)
    ensures SplitWhitespace(w) == [w]
  {
    WordPrefixWhole(w);
    assert w[|w|..] == [];
  }

  /**
   * A whitespace character always separates terms: the terms of `a + [c] + b`
   * are those of `a` followed by those of `b`. With `SplitWord` this fixes
   * where `split_whitespace` cuts.
   */
  lemma {:induction false} SplitAtWhitespace(a: string, c: char, b: string)
    requires IsWhitespace(c)
    ensures SplitWhitespace(a + [c] + b) == SplitWhitespace(a) + SplitWhitespace(b)
    decreases |a|
  {
    var s := a + [c] + b;
    if a == [] {
      assert s[0] == c && s[1..] == b;
    } else if IsWhitespace(a[0]) {
      assert s[0] == a[0] && s[1..] == a[1..] + [c] + b;
      SplitAtWhitespace(a[1..], c, b);
    } else {
      assert s == a + ([c] + b);
      WordPrefixStops(a, [c] + b);
      var w := WordPrefix(a);
      assert s[0] == a[0];
      assert s[|w|..] == a[|w|..] + [c] + b;
      SplitAtWhitespace(a[|w|..], c, b);
    }
  }

  /** Whether `pat` occurs in `s` starting at byte offset `i`. */
  predicate OccursAt(s: string, i: nat, pat: string) {
    i + |pat| <= |s| && s[i..i + |pat|] == pat
  }

  lemma OccursShift(s: string, k: nat, pat: string)
    requires k <= |s|
    ensures forall j: nat :: OccursAt(s[k..], j, pat) ==> OccursAt(s, k + j, pat)
    ensures forall j: nat :: k <= j && OccursAt(s, j, pat) ==> OccursAt(s[k..], j - k, pat)
  {
    forall j: nat | OccursAt(s[k..], j, pat) ensures OccursAt(s, k + j, pat) {
      assert s[k..][j..j + |pat|] == s[k + j..k + j + |pat|];
    }
    forall j: nat | k <= j && OccursAt(s, j, pat) ensures OccursAt(s[k..], j - k, pat) {
      assert s[k..][j - k..j - k + |pat|] == s[j..j + |pat|];
    }
  }

  /** `str::find`: the first offset at which `pat` occurs in `s`, if any. */
  function Find(s: string, pat: string): (r: Option<nat>)
    ensures r.Some? ==> OccursAt(s, r.value, pat)
    ensures r.Some? ==> forall j: nat :: j < r.value ==> !OccursAt(s, j, pat)
    ensures r.None? ==> forall j: nat :: !OccursAt(s, j, pat)
    decreases |s|
  {
    if OccursAt(s, 0, pat) then Some(0)
    else if s == [] then None
    else
      OccursShift(s, 1, pat);
      match Find(s[1..], pat)
      case None => None
      case Some(i) => Some(i + 1)
  }
}
