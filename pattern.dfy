/** The fragment of PCRE that the index page's fixed-width patterns use: a
    pattern is a sequence of single-character tokens (a literal or a
    character range), matched either anchored at both ends (`/^...$/`) or
    searched for leftmost (`preg_match` without anchors). */
module Pattern {
  import opened Wrappers
  import opened Text

  datatype Token = Lit(c: char) | Range(lo: char, hi: char)

  /** One token against one character. With the `i` flag a literal compares
      up to ASCII case; the ranges used here are digit ranges, which have no
      case variants. */
  predicate TokenMatches(t: Token, ch: char, caseless: bool) {
    match t
    case Lit(c) => if caseless then Lower(c) == Lower(ch) else c == ch
    case Range(lo, hi) => lo <= ch <= hi
  }

  /** The tokens that match the string `s` literally. */
  function Literal(s: string): (p: seq<Token>)
    ensures |p| == |s|
    ensures forall i :: 0 <= i < |s| ==> p[i] == Lit(s[i])
  {
    seq(|s|, i requires 0 <= i < |s| => Lit(s[i]))
  }

  /** The pattern matches the characters of `s` starting at position `i`. */
  predicate MatchesAt(pat: seq<Token>, s: string, i: nat, caseless: bool) {
    i + |pat| <= |s| && forall k :: 0 <= k < |pat| ==> TokenMatches(pat[k], s[i + k], caseless)
  }

  /** `preg_match('/^pat$/', s)`: the pattern matches the whole string. */
  predicate FullMatch(pat: seq<Token>, s: string, caseless: bool) {
    |s| == |pat| && MatchesAt(pat, s, 0, caseless)
  }

  /** `preg_match('/pat/', s)`: the leftmost position at or after `from` where
      the pattern matches, if any. */
  function Search(pat: seq<Token>, s: string, from: nat, caseless: bool): (r: Option<nat>)
    requires from <= |s|
    ensures r.Some? ==> from <= r.value <= |s| && MatchesAt(pat, s, r.value, caseless)
    ensures r.Some? ==> forall j :: from <= j < r.value ==> !MatchesAt(pat, s, j, caseless)
    ensures r.None? ==> forall j :: from <= j <= |s| ==> !MatchesAt(pat, s, j, caseless)
    decreases |s| - from
  {
    if MatchesAt(pat, s, from, caseless) then Some(from)
    else if from == |s| then None
    else Search(pat, s, from + 1, caseless)
  }

  /** A concatenated pattern matches exactly where its first part matches and
      its second part matches right after. */
  lemma MatchesAtConcat(p: seq<Token>, q: seq<Token>, s: string, i: nat, caseless: bool)
    ensures MatchesAt(p + q, s, i, caseless) <==>
            MatchesAt(p, s, i, caseless) && MatchesAt(q, s, i + |p|, caseless)
  {
    if MatchesAt(p, s, i, caseless) && MatchesAt(q, s, i + |p|, caseless) {
      forall k | 0 <= k < |p + q|
        ensures TokenMatches((p + q)[k], s[i + k], caseless)
      {
        if k >= |p| {
          assert (p + q)[k] == q[k - |p|];
          assert TokenMatches(q[k - |p|], s[i + |p| + (k - |p|)], caseless);
        }
      }
    }
    if MatchesAt(p + q, s, i, caseless) {
      forall k | 0 <= k < |p|
        ensures TokenMatches(p[k], s[i + k], caseless)
      {
        assert (p + q)[k] == p[k];
      }
      forall k | 0 <= k < |q|
        ensures TokenMatches(q[k], s[i + |p| + k], caseless)
      {
        assert (p + q)[|p| + k] == q[k];
        assert TokenMatches((p + q)[|p| + k], s[i + (|p| + k)], caseless);
      }
    }
  }

  /** A literal pattern with the `i` flag matches exactly the case variants of
      its text. */
  lemma LiteralMatchesAt(t: string, s: string, i: nat)
    ensures MatchesAt(Literal(t), s, i, true) <==>
            i + |t| <= |s| && EqualsIgnoreCase(s[i..i + |t|], t)
  {
    if i + |t| <= |s| {
      var w := s[i..i + |t|];
      assert forall k :: 0 <= k < |t| ==> w[k] == s[i + k];
      if EqualsIgnoreCase(w, t) {
        assert forall k :: 0 <= k < |t| ==> Lower(s[i + k]) == Lower(t[k]);
      }
    }
  }
}
