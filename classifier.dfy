/** Which directory entries are report files, and which date each one is for.
    The report tool names its files `<prefix>-YYYY-MM-DD.htm`; the index page
    checks that convention with one anchored, case-insensitive pattern and then
    finds the date by searching the name again with the date pattern alone. */
module Classifier {
  import opened Wrappers
  import opened Text
  import opened Pattern

  const Digit: Token := Range('0', '9')

  /** `[1-2][0-9][0-9][0-9]-[0-1][0-9]-[0-3][0-9]`: the digit ranges are the
      only check made on the date, so month 19 or day 39 pass. */
  const DatePattern: seq<Token> :=
    [Range('1', '2'), Digit, Digit, Digit, Lit('-'),
     Range('0', '1'), Digit, Lit('-'),
     Range('0', '3'), Digit]

  /** `^<prefix>-<date>\.htm$`, with the prefix taken as literal text. */
  function ConventionPattern(prefix: string): seq<Token> {
    Literal(prefix) + [Lit('-')] + DatePattern + Literal(".htm")
  }

  /** Names beginning with a dot (`/^\./`) are hidden files and are skipped. */
  predicate IsDotFile(name: string) {
    |name| > 0 && name[0] == '.'
  }

  /** The naming check, with the `i` flag: prefix and extension compare up to
      case. */
  predicate IsReportName(prefix: string, name: string) {
    FullMatch(ConventionPattern(prefix), name, true)
  }

  /** A ten-character date in the syntactic form the pattern admits. */
  predicate IsDateShape(d: string) {
    && |d| == 10
    && '1' <= d[0] <= '2' && IsDigit(d[1]) && IsDigit(d[2]) && IsDigit(d[3])
    && d[4] == '-'
    && '0' <= d[5] <= '1' && IsDigit(d[6])
    && d[7] == '-'
    && '0' <= d[8] <= '3' && IsDigit(d[9])
  }

  predicate DateAt(s: string, k: nat) {
    k + 10 <= |s| && IsDateShape(s[k..k + 10])
  }

  /** A date starts at `k` and at no earlier position. */
  predicate LeftmostDateAt(s: string, k: nat) {
    DateAt(s, k) && forall j :: 0 <= j < k ==> !DateAt(s, j)
  }

  lemma LowerIsDash(c: char)
    ensures Lower(c) == '-' <==> c == '-'
  {
  }

  /** The date pattern matches exactly where a date-shaped substring starts. */
  lemma DatePatternAt(s: string, k: nat, caseless: bool)
    ensures MatchesAt(DatePattern, s, k, caseless) <==> DateAt(s, k)
  {
    LowerIsDash(if k + 4 < |s| then s[k + 4] else '-');
    LowerIsDash(if k + 7 < |s| then s[k + 7] else '-');
    if k + 10 <= |s| {
      var d := s[k..k + 10];
      assert forall i :: 0 <= i < 10 ==> d[i] == s[k + i];
      if DateAt(s, k) {
        forall i | 0 <= i < 10
          ensures TokenMatches(DatePattern[i], s[k + i], caseless)
        {
        }
      }
      if MatchesAt(DatePattern, s, k, caseless) {
        assert TokenMatches(DatePattern[0], s[k + 0], caseless);
        assert TokenMatches(DatePattern[1], s[k + 1], caseless);
        assert TokenMatches(DatePattern[2], s[k + 2], caseless);
        assert TokenMatches(DatePattern[3], s[k + 3], caseless);
        assert TokenMatches(DatePattern[4], s[k + 4], caseless);
        assert TokenMatches(DatePattern[5], s[k + 5], caseless);
        assert TokenMatches(DatePattern[6], s[k + 6], caseless);
        assert TokenMatches(DatePattern[7], s[k + 7], caseless);
        assert TokenMatches(DatePattern[8], s[k + 8], caseless);
        assert TokenMatches(DatePattern[9], s[k + 9], caseless);
      }
    }
  }

  /** The convention pattern matches where its four parts match in turn. */
  lemma ConventionParts(prefix: string, name: string)
    ensures MatchesAt(ConventionPattern(prefix), name, 0, true) <==>
            && MatchesAt(Literal(prefix), name, 0, true)
            && MatchesAt([Lit('-')], name, |prefix|, true)
            && MatchesAt(DatePattern, name, |prefix| + 1, true)
            && MatchesAt(Literal(".htm"), name, |prefix| + 11, true)
  {
    var head := Literal(prefix) + [Lit('-')];
    MatchesAtConcat(head + DatePattern, Literal(".htm"), name, 0, true);
    MatchesAtConcat(head, DatePattern, name, 0, true);
    MatchesAtConcat(Literal(prefix), [Lit('-')], name, 0, true);
  }

  /** The naming convention, stated field by field: the name is the prefix up
      to case, a dash, a date-shaped segment and `.htm` up to case, and nothing
      else. */
  lemma ReportNameShape(prefix: string, name: string)
    ensures IsReportName(prefix, name) <==>
            && |name| == |prefix| + 15
            && EqualsIgnoreCase(name[..|prefix|], prefix)
            && name[|prefix|] == '-'
            && IsDateShape(name[|prefix| + 1..|prefix| + 11])
            && EqualsIgnoreCase(name[|prefix| + 11..], ".htm")
  {
    var n := |prefix|;
    if |name| == n + 15 {
      ConventionParts(prefix, name);
      assert MatchesAt(Literal(prefix), name, 0, true) <==> EqualsIgnoreCase(name[..n], prefix) by {
        LiteralMatchesAt(prefix, name, 0);
        assert name[0..n] == name[..n];
      }
      assert MatchesAt([Lit('-')], name, n, true) <==> name[n] == '-' by {
        LowerIsDash(name[n]);
        assert TokenMatches([Lit('-')][0], name[n + 0], true) <==> Lower(name[n]) == '-';
      }
      assert MatchesAt(DatePattern, name, n + 1, true) <==> IsDateShape(name[n + 1..n + 11]) by {
        DatePatternAt(name, n + 1, true);
      }
      assert MatchesAt(Literal(".htm"), name, n + 11, true) <==> EqualsIgnoreCase(name[n + 11..], ".htm") by {
        LiteralMatchesAt(".htm", name, n + 11);
        assert name[n + 11..n + 15] == name[n + 11..];
      }
    }
  }

  /** The date in a name, as `preg_match` with the date pattern finds it: the
      leftmost date-shaped substring, or nothing when there is none. */
  function ExtractDate(name: string): (date: Option<string>)
    ensures date.None? <==> forall k :: 0 <= k <= |name| ==> !DateAt(name, k)
    ensures date.Some? ==> IsDateShape(date.value)
    ensures date.Some? ==> exists k: nat :: LeftmostDateAt(name, k) && date.value == name[k..k + 10]
  {
    DatePatternEverywhere(name);
    match Search(DatePattern, name, 0, true)
    case None => None
    case Some(k) => assert LeftmostDateAt(name, k); Some(name[k..k + 10])
  }

  lemma DatePatternEverywhere(name: string)
    ensures forall k: nat :: MatchesAt(DatePattern, name, k, true) <==> DateAt(name, k)
  {
    forall k: nat ensures MatchesAt(DatePattern, name, k, true) <==> DateAt(name, k) {
      DatePatternAt(name, k, true);
    }
  }

  /** Every name that passes the naming check contains a date, so the
      "Unknown" fallback after the date search is never taken for it. */
  lemma ReportNameHasDate(prefix: string, name: string)
    requires IsReportName(prefix, name)
    ensures ExtractDate(name).Some?
  {
    ReportNameShape(prefix, name);
    assert DateAt(name, |prefix| + 1);
  }

  /** With a prefix free of digits, the date found is exactly the segment after
      `<prefix>-`. */
  lemma DateFollowsPrefix(prefix: string, name: string)
    requires IsReportName(prefix, name) && HasNoDigits(prefix)
    ensures ExtractDate(name) == Some(name[|prefix| + 1..|prefix| + 11])
  {
    var n := |prefix|;
    ReportNameShape(prefix, name);
    forall j | 0 <= j <= n
      ensures !DateAt(name, j)
    {
      if j < n {
        assert name[..n][j] == name[j];
        assert Lower(name[j]) == Lower(prefix[j]);
        assert !IsDigit(name[j]);
        assert name[j..j + 10][0] == name[j];
      } else {
        assert name[j..j + 10][0] == '-';
      }
    }
    assert DateAt(name, n + 1);
    var date := ExtractDate(name);
    var k: nat :| LeftmostDateAt(name, k) && date.value == name[k..k + 10];
    assert k == n + 1;
  }

  lemma ShiftedNameChars(name: string)
    requires name == "x2024-01-2024-01-01.htm"
    ensures name[0] == 'x'
    ensures name[1..11] == "2024-01-20"
    ensures name == "x2024-01" + "-" + "2024-01-01" + ".htm"
  {
    assert name[1] == '2' && name[2] == '0' && name[3] == '2' && name[4] == '4' && name[5] == '-';
    assert name[6] == '0' && name[7] == '1' && name[8] == '-' && name[9] == '2' && name[10] == '0';
    assert forall i :: 0 <= i < 10 ==> name[1..11][i] == name[i + 1];
  }

  /** With digits in the prefix the leftmost date can start inside the prefix:
      here the date found straddles prefix and real date. */
  lemma DigitPrefixShiftsDate(prefix: string, name: string)
    requires prefix == "x2024-01" && name == "x2024-01-2024-01-01.htm"
    ensures IsReportName(prefix, name)
    ensures ExtractDate(name) == Some("2024-01-20")
  {
    ShiftedNameChars(name);
    assert IsReportName(prefix, name) by {
      ConventionAccepts(prefix, prefix, "2024-01-01", ".htm");
    }
    assert !DateAt(name, 0) by {
      assert name[0..10][0] == name[0];
    }
    assert DateAt(name, 1);
    var date := ExtractDate(name);
    var k: nat :| LeftmostDateAt(name, k) && date.value == name[k..k + 10];
    assert k == 1;
  }

  /** The other direction of the convention, as a construction: any case
      variant of the prefix, a dash, any date-shaped segment and any case
      variant of `.htm` form an accepted name. */
  lemma ConventionAccepts(prefix: string, p: string, d: string, e: string)
    requires EqualsIgnoreCase(p, prefix) && IsDateShape(d) && EqualsIgnoreCase(e, ".htm")
    ensures IsReportName(prefix, p + "-" + d + e)
  {
    var name := p + "-" + d + e;
    var n := |prefix|;
    assert name[..n] == p;
    assert name[n] == '-';
    assert name[n + 1..n + 11] == d;
    assert name[n + 11..] == e;
    ReportNameShape(prefix, name);
  }

  /** The check is syntactic only: month 19 and day 39 are accepted, and
      prefix and extension may be in any case. */
  lemma LooseDateAccepted()
    ensures IsReportName("plex", "plex-2024-19-39.htm")
    ensures IsReportName("plex", "PLEX-2024-01-01.HTM")
  {
    ConventionAccepts("plex", "plex", "2024-19-39", ".htm");
    assert "plex" + "-" + "2024-19-39" + ".htm" == "plex-2024-19-39.htm";
    assert EqualsIgnoreCase("PLEX", "plex") by {
      assert Lower('P') == 'p' && Lower('L') == 'l' && Lower('E') == 'e' && Lower('X') == 'x';
    }
    assert EqualsIgnoreCase(".HTM", ".htm") by {
      assert Lower('H') == 'h' && Lower('T') == 't' && Lower('M') == 'm';
    }
    ConventionAccepts("plex", "PLEX", "2024-01-01", ".HTM");
    assert "PLEX" + "-" + "2024-01-01" + ".HTM" == "PLEX-2024-01-01.HTM";
  }

  /** A year outside 1000-2999, a day whose first digit is above 3, a longer
      extension and an unrelated name are all rejected. */
  lemma NonReportNamesRejected()
    ensures !IsReportName("plex", "plex-3024-01-01.htm")
    ensures !IsReportName("plex", "plex-2024-13-40.htm")
    ensures !IsReportName("plex", "plex-2024-01-01.html")
    ensures !IsReportName("plex", "readme.txt")
  {
    ReportNameShape("plex", "plex-3024-01-01.htm");
    ReportNameShape("plex", "plex-2024-13-40.htm");
    assert "plex-2024-13-40.htm"[5..15][8] == '4';
    ReportNameShape("plex", "plex-2024-01-01.html");
    ReportNameShape("plex", "readme.txt");
    assert "plex-3024-01-01.htm"[5..15][0] == '3';
  }
}
