/** Which names the filter and the name order take for the same: what ignoring case means, in terms of
    the letters themselves. */
module CaseFolding {
  import opened Basics
  import opened ProcessModel
  import opened Ordering

  const UPPER: string := "ABCDEFGHIJKLMNOPQRSTUVWXYZ"
  const LOWER: string := "abcdefghijklmnopqrstuvwxyz"

  lemma LettersStand(k: nat)
    requires k < 26
    ensures |UPPER| == |LOWER| == 26
    ensures UPPER[k] as int == 'A' as int + k && LOWER[k] as int == 'a' as int + k
  {
  }

  lemma CapitalStands(c: char)
    ensures c in UPPER <==> 'A' <= c <= 'Z'
  {
    if 'A' <= c <= 'Z' {
      LettersStand(c as int - 'A' as int);
      assert UPPER[c as int - 'A' as int] == c;
    }
  }

  /** tolower takes every capital letter to its small one, and leaves every other character alone. */
  lemma FoldIs(c: char)
    ensures |UPPER| == |LOWER| == 26
    ensures forall k :: 0 <= k < 26 ==> ToLower(UPPER[k]) == LOWER[k]
    ensures c !in UPPER ==> ToLower(c) == c
  {
    forall k | 0 <= k < 26 ensures ToLower(UPPER[k]) == LOWER[k] {
      LettersStand(k);
    }
    CapitalStands(c);
  }

  /** The same character, or the capital and the small form of one letter. */
  predicate SameLetter(c: char, d: char) { c == d || IsPair(c, d) || IsPair(d, c) }

  predicate IsPair(capital: char, small: char) {
    exists k :: 0 <= k < 26 && capital == UPPER[k] && small == LOWER[k]
  }

  lemma PairIs(c: char, d: char)
    ensures IsPair(c, d) <==> 'A' <= c <= 'Z' && d as int == c as int + 32
  {
    if 'A' <= c <= 'Z' && d as int == c as int + 32 {
      var k := c as int - 'A' as int;
      LettersStand(k);
      assert UPPER[k] == c && LOWER[k] == d;
    }
    if k :| 0 <= k < 26 && c == UPPER[k] && d == LOWER[k] {
      LettersStand(k);
    }
  }

  lemma FoldsAlikeIff(c: char, d: char)
    ensures ToLower(c) == ToLower(d) <==> SameLetter(c, d)
  {
    PairIs(c, d);
    PairIs(d, c);
  }

  /** Letter by letter the same, up to case. */
  predicate SameLetters(x: string, y: string) {
    |x| == |y| && forall i :: 0 <= i < |x| ==> SameLetter(x[i], y[i])
  }

  lemma SameLettersFold(x: string, y: string)
    ensures SameLetters(x, y) <==> |x| == |y| && forall i :: 0 <= i < |x| ==> ToLower(x[i]) == ToLower(y[i])
  {
    forall i | 0 <= i < |x| && i < |y|
      ensures SameLetter(x[i], y[i]) <==> ToLower(x[i]) == ToLower(y[i])
    {
      FoldsAlikeIff(x[i], y[i]);
    }
  }

  /** A name matches a filter exactly if some part of the name is the filter, up to case. */
  lemma ContainsFoldMeans(name: string, needle: string)
    ensures ContainsFold(name, needle) <==>
              exists i, j :: 0 <= i <= j <= |name| && SameLetters(name[i..j], needle)
  {
    forall i | 0 <= i <= |name| && i + |needle| <= |name|
      ensures MatchesAt(name, needle, i) <==> SameLetters(name[i..i + |needle|], needle)
    {
      var part := name[i..i + |needle|];
      SameLettersFold(part, needle);
      assert forall j :: 0 <= j < |needle| ==> part[j] == name[i + j];
    }
    if ContainsFold(name, needle) {
      var i :| 0 <= i <= |name| && MatchesAt(name, needle, i);
      assert SameLetters(name[i..i + |needle|], needle);
    }
    if i, j :| 0 <= i <= j <= |name| && SameLetters(name[i..j], needle) {
      assert j == i + |needle|;
      assert MatchesAt(name, needle, i);
    }
  }

  /** Neither the case of the filter nor that of a name decides whether the name matches. */
  lemma MatchIgnoresCase(name: string, name': string, needle: string, needle': string)
    requires SameLetters(name, name') && SameLetters(needle, needle')
    ensures ContainsFold(name, needle) <==> ContainsFold(name', needle')
  {
    SameLettersFold(name, name');
    SameLettersFold(needle, needle');
    forall i | 0 <= i <= |name|
      ensures MatchesAt(name, needle, i) <==> MatchesAt(name', needle', i)
    {
    }
  }

  /** Hence a filter keeps the same processes however it is capitalized. */
  lemma FilterIgnoresCase(s: seq<ProcessInfo>, needle: string, needle': string)
    requires SameLetters(needle, needle')
    ensures Filter(s, needle) == Filter(s, needle')
  {
    if needle != "" {
      KeepIgnoresCase(s, |s|, needle, needle');
    }
  }

  lemma {:induction false} KeepIgnoresCase(s: seq<ProcessInfo>, n: nat, needle: string, needle': string)
    requires n <= |s| && SameLetters(needle, needle')
    ensures FlatMapTo(Keep(needle), s, n) == FlatMapTo(Keep(needle'), s, n)
  {
    if n > 0 {
      KeepIgnoresCase(s, n - 1, needle, needle');
      SameLettersFold(s[n - 1].name, s[n - 1].name);
      MatchIgnoresCase(s[n - 1].name, s[n - 1].name, needle, needle');
    }
  }

  /** The name order takes two names for equal exactly if they are the same up to case. */
  lemma NamesEqualIff(x: string, y: string)
    ensures CompareNamesFrom(x, y, 0) == 0 <==> SameLetters(x, y)
  {
    CompareNamesMeans(x, y);
    SameLettersFold(x, y);
  }
}
