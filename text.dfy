/** The conventional optional value, used for every "may be absent" result. */
module Wrappers {
  datatype Option<+T> = None | Some(value: T)
}

/** Character and string helpers standing in for the PHP built-ins the index
    page relies on: ASCII case folding (as used by a case-insensitive PCRE
    match without the UTF-8 flag) and `explode` with a one-character
    delimiter. */
module Text {

  predicate IsDigit(c: char) {
    '0' <= c <= '9'
  }

  predicate IsUpper(c: char) {
    'A' <= c <= 'Z'
  }

  /** ASCII lower-casing; every other character is left alone. */
  function Lower(c: char): (r: char)
    ensures !IsUpper(r)
    ensures IsDigit(r) <==> IsDigit(c)
    ensures !IsUpper(c) ==> r == c
    ensures IsUpper(c) ==> 'a' <= r <= 'z' && r as int - 'a' as int == c as int - 'A' as int
  {
    if IsUpper(c) then (c as int + 32) as char else c
  }

  /** Two characters compare equal under the `i` flag exactly when they are
      equal or one is the upper-case form of the other. */
  lemma LowerAgrees(a: char, b: char)
    ensures Lower(a) == Lower(b) <==>
            || a == b
            || (IsUpper(a) && b as int == a as int + 32)
            || (IsUpper(b) && a as int == b as int + 32)
  {
  }

  /** Equality of two strings up to ASCII case. */
  predicate EqualsIgnoreCase(s: string, t: string) {
    |s| == |t| && forall i :: 0 <= i < |s| ==> Lower(s[i]) == Lower(t[i])
  }

  predicate HasNoDigits(s: string) {
    forall i :: 0 <= i < |s| ==> !IsDigit(s[i])
  }

  /** PHP `explode(sep, s)` for a one-character separator: the pieces between
      successive separators, always at least one (possibly empty) piece. */
  function Explode(sep: char, s: string): (parts: seq<string>)
    ensures |parts| >= 1
    ensures forall i :: 0 <= i < |parts| ==> sep !in parts[i]
    decreases |s|
  {
    if s == [] then [""]
    else
      var rest := Explode(sep, s[1..]);
      if s[0] == sep then [""] + rest
      else [[s[0]] + rest[0]] + rest[1..]
  }

  /** PHP `implode(sep, parts)`: the inverse of Explode. */
  function Join(sep: char, parts: seq<string>): string
    requires |parts| >= 1
    decreases |parts|
  {
    if |parts| == 1 then parts[0] else parts[0] + [sep] + Join(sep, parts[1..])
  }

  /** Gluing the pieces back together with the separator gives the input. */
  lemma {:induction false} JoinExplode(sep: char, s: string)
    ensures Join(sep, Explode(sep, s)) == s
    decreases |s|
  {
    if s != [] {
      var rest := Explode(sep, s[1..]);
      JoinExplode(sep, s[1..]);
      if s[0] != sep {
        if |rest| == 1 {
          assert Explode(sep, s) == [[s[0]] + rest[0]];
        } else {
          assert Explode(sep, s)[1..] == rest[1..];
        }
      }
    }
  }

  /** Splitting a string built from separator-free pieces gives those pieces back. */
  lemma {:induction false} ExplodeJoin(sep: char, parts: seq<string>)
    requires |parts| >= 1
    requires forall i :: 0 <= i < |parts| ==> sep !in parts[i]
    ensures Explode(sep, Join(sep, parts)) == parts
    decreases |parts|, |parts[0]|
  {
    if parts[0] == [] {
      if |parts| > 1 {
        assert Join(sep, parts) == [sep] + Join(sep, parts[1..]);
        assert Join(sep, parts)[1..] == Join(sep, parts[1..]);
        ExplodeJoin(sep, parts[1..]);
      }
    } else {
      var head := parts[0];
      var shorter := [head[1..]] + parts[1..];
      assert shorter[1..] == parts[1..];
      assert Join(sep, parts) == [head[0]] + Join(sep, shorter) by {
        if |parts| > 1 {
          assert head == [head[0]] + head[1..];
        }
      }
      assert Join(sep, parts)[1..] == Join(sep, shorter);
      assert sep !in head[1..] by {
        assert forall j :: 0 <= j < |head[1..]| ==> head[1..][j] == head[j + 1];
      }
      ExplodeJoin(sep, shorter);
      assert head[0] != sep by { assert head[0] in parts[0]; }
      assert [head[0]] + head[1..] == head;
    }
  }
}
