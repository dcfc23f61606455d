/** The client count a report carries in its last line. The report tool may
    end a report with the tag `plex-clients:<N>:`; the index page reads the
    last line of each report (when it can run `tail`), takes the leftmost
    match of `plex-clients:[0-9]+:`, splits it on `:` and shows element 1 as
    `<N> client(s)`. Anything else shows as `Unknown`. */
module ClientTag {
  import opened Wrappers
  import opened Text

  const TagHead: string := "plex-clients:"
  const Unknown: string := "Unknown"
  const ClientsSuffix: string := " client(s)"

  /** The length of the run of digits starting at `i`, as far as it goes. */
  function DigitRun(s: string, i: nat): (n: nat)
    requires i <= |s|
    ensures i + n <= |s|
    ensures forall j :: i <= j < i + n ==> IsDigit(s[j])
    ensures i + n == |s| || !IsDigit(s[i + n])
    decreases |s| - i
  {
    if i < |s| && IsDigit(s[i]) then 1 + DigitRun(s, i + 1) else 0
  }

  /** The tag pattern with its `[0-9]+` matching exactly `n` digits matches at
      position `k`. This is the pattern's meaning, before any choice of `n`. */
  predicate TagMatchesWith(s: string, k: nat, n: nat) {
    && 0 < n
    && k + 13 + n < |s|
    && s[k..k + 13] == TagHead
    && (forall j :: k + 13 <= j < k + 13 + n ==> IsDigit(s[j]))
    && s[k + 13 + n] == ':'
  }

  /** The tag matches at `k`, with the digit run taken as far as it goes. */
  predicate TagAt(s: string, k: nat) {
    && k + 13 <= |s|
    && s[k..k + 13] == TagHead
    && var n := DigitRun(s, k + 13);
       0 < n && k + 13 + n < |s| && s[k + 13 + n] == ':'
  }

  predicate LeftmostTagAt(s: string, k: nat) {
    TagAt(s, k) && forall j :: 0 <= j < k ==> !TagAt(s, j)
  }

  ghost predicate HasTag(s: string) {
    exists k: nat :: TagAt(s, k)
  }

  /** The digits of the tag at `k`. */
  function TagDigits(s: string, k: nat): string
    requires TagAt(s, k)
  {
    s[k + 13..k + 13 + DigitRun(s, k + 13)]
  }

  /** One past the closing `:` of the tag at `k`. */
  function TagEnd(s: string, k: nat): nat
    requires TagAt(s, k)
  {
    k + 13 + DigitRun(s, k + 13) + 1
  }

  /** The tag pattern can match at `k` in one way only: with every digit of
      the run. So the greedy reading TagAt is exactly where the pattern
      matches, and TagDigits is exactly what `[0-9]+` matched. */
  lemma TagMatchIsGreedy(s: string, k: nat, n: nat)
    ensures TagMatchesWith(s, k, n) <==> TagAt(s, k) && n == DigitRun(s, k + 13)
  {
  }

  /** `preg_match('/plex-clients:[0-9]+:/', s)`: the leftmost tag at or after
      `from`. */
  function FindTag(s: string, from: nat): (r: Option<nat>)
    requires from <= |s|
    ensures r.Some? ==> from <= r.value && TagAt(s, r.value)
    ensures r.Some? ==> forall j :: from <= j < r.value ==> !TagAt(s, j)
    ensures r.None? ==> forall j :: from <= j ==> !TagAt(s, j)
    decreases |s| - from
  {
    if TagAt(s, from) then Some(from)
    else if from == |s| then None
    else FindTag(s, from + 1)
  }

  /** Splitting a tag on `:` gives the head word, the digits and an empty
      tail, so element 1 is the client count. */
  lemma ExplodeTag(s: string, k: nat)
    requires TagAt(s, k)
    ensures |Explode(':', s[k..TagEnd(s, k)])| == 3
    ensures Explode(':', s[k..TagEnd(s, k)])[1] == TagDigits(s, k)
  {
    var digits := TagDigits(s, k);
    var parts := ["plex-clients", digits, ""];
    assert forall j :: 0 <= j < |digits| ==> digits[j] == s[k + 13 + j];
    assert ':' !in digits by {
      forall j | 0 <= j < |digits| ensures digits[j] != ':' {
        assert IsDigit(s[k + 13 + j]);
      }
    }
    assert s[k..TagEnd(s, k)] == s[k..k + 13] + digits + [':'];
    assert parts[1..] == [digits, ""];
    assert parts[1..][1..] == [""];
    assert Join(':', [digits, ""]) == digits + [':'] + "";
    assert Join(':', parts) == "plex-clients" + [':'] + (digits + [':'] + "");
    assert s[k..k + 13] == "plex-clients" + [':'];
    assert s[k..TagEnd(s, k)] == Join(':', parts);
    assert ':' !in "plex-clients";
    ExplodeJoin(':', parts);
  }

  /** The label shown for a report. `dotail` is false where `tail` is not
      available; `lastLine` is what `tail -n 1` printed, None when it could not
      be run. */
  function ClientLabel(dotail: bool, lastLine: Option<string>): (shown: string)
    ensures shown == Unknown <==> !(dotail && lastLine.Some? && HasTag(lastLine.value))
    ensures shown != Unknown ==>
              lastLine.Some? &&
              exists k: nat :: LeftmostTagAt(lastLine.value, k) &&
                               shown == TagDigits(lastLine.value, k) + ClientsSuffix
  {
    if !dotail then Unknown
    else
      match lastLine
      case None => Unknown
      case Some(line) =>
        if line == "" then Unknown
        else
          match FindTag(line, 0)
          case None => Unknown
          case Some(k) =>
            ExplodeTag(line, k);
            assert LeftmostTagAt(line, k);
            Explode(':', line[k..TagEnd(line, k)])[1] + ClientsSuffix
  }

  /** A last line that starts with a tag gives that tag's digits, leading
      zeros and all, whatever follows it. */
  lemma LeadingTagLabel(d: string, rest: string)
    requires |d| > 0 && forall i :: 0 <= i < |d| ==> IsDigit(d[i])
    ensures ClientLabel(true, Some(TagHead + d + ":" + rest)) == d + ClientsSuffix
  {
    var line := TagHead + d + ":" + rest;
    assert line[0..13] == TagHead;
    assert forall j :: 13 <= j < 13 + |d| ==> line[j] == d[j - 13];
    assert line[13 + |d|] == ':';
    assert TagMatchesWith(line, 0, |d|);
    TagMatchIsGreedy(line, 0, |d|);
    var shown := ClientLabel(true, Some(line));
    var k: nat :| LeftmostTagAt(line, k) && shown == TagDigits(line, k) + ClientsSuffix;
    assert k == 0;
    assert TagDigits(line, 0) == d;
  }

  /** Without `tail`, or with an empty or missing last line, the label is
      Unknown whatever the file holds. */
  lemma UntaggedLabels(line: string)
    ensures ClientLabel(false, Some(line)) == Unknown
    ensures ClientLabel(true, Some("")) == Unknown
    ensures ClientLabel(true, None) == Unknown
  {
  }
}
