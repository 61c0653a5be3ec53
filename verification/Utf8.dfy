/** Shortening a name to a column (`truncate_utf8` in C, `Renderer::truncateUtf8` in C++).
    Both walk the text in units whose length is read off the lead byte. The C++ walk stops before
    passing the limit; the C walk stops only once it has reached or passed it. */
module Utf8 {
  import opened Basics

  function Width(lead: char): (w: nat)
    ensures 1 <= w <= 4
  {
    if lead as int >= 0xF0 then 4
    else if lead as int >= 0xE0 then 3
    else if lead as int >= 0xC0 then 2
    else 1
  }

  /** Where the unit at position i ends. */
  function Next(s: string, i: nat): (n: nat)
    requires i < |s|
    ensures i < n <= i + 4
  {
    i + Width(s[i])
  }

  // ---------- Where a text may be cut ----------

  /** Position n is reached from position i by stepping over complete units only. */
  ghost predicate Reaches(s: string, i: nat, n: nat)
    requires i <= |s|
    decreases |s| - i
  {
    n == i || (i < |s| && Next(s, i) <= |s| && Reaches(s, Next(s, i), n))
  }

  ghost predicate Boundary(s: string, n: nat) { Reaches(s, 0, n) }

  /** No boundary lies beyond the limit. */
  ghost predicate EndsWithin(s: string, limit: nat) {
    forall n: nat :: Boundary(s, n) ==> n <= limit
  }

  /** Where the C++ walk from position i stops. */
  function CppEnd(s: string, i: nat, limit: nat): (m: nat)
    requires i <= |s|
    ensures i <= m <= |s|
    decreases |s| - i
  {
    if i == |s| || i >= limit || Next(s, i) > |s| || Next(s, i) > limit then i
    else CppEnd(s, Next(s, i), limit)
  }

  /** Where the C walk from position i stops. */
  function CEnd(s: string, i: nat, limit: nat): (m: nat)
    requires i <= |s|
    ensures i <= m <= |s|
    decreases |s| - i
  {
    if i == |s| || i >= limit || Next(s, i) > |s| then i
    else CEnd(s, Next(s, i), limit)
  }

  function CppCut(s: string, limit: nat): nat { CppEnd(s, 0, limit) }

  function CCut(s: string, limit: nat): nat { CEnd(s, 0, limit) }

  lemma {:induction false} ReachesForward(s: string, i: nat, n: nat)
    requires i <= |s| && Reaches(s, i, n)
    ensures i <= n <= |s|
    decreases |s| - i
  {
    if n != i { ReachesForward(s, Next(s, i), n); }
  }

  lemma {:induction false} CppEndIsLast(s: string, i: nat, limit: nat)
    requires i <= |s| && i <= limit
    ensures Reaches(s, i, CppEnd(s, i, limit)) && CppEnd(s, i, limit) <= limit
    ensures forall n: nat :: Reaches(s, i, n) && n <= limit ==> n <= CppEnd(s, i, limit)
    decreases |s| - i
  {
    if i < |s| && Next(s, i) <= |s| {
      if Next(s, i) <= limit {
        CppEndIsLast(s, Next(s, i), limit);
      } else {
        forall n: nat | Reaches(s, i, n) && n != i
          ensures n > limit
        {
          ReachesForward(s, Next(s, i), n);
        }
      }
    }
  }

  lemma {:induction false} CEndIsNext(s: string, i: nat, limit: nat)
    requires i <= |s| && i <= limit + 3
    ensures Reaches(s, i, CEnd(s, i, limit)) && CEnd(s, i, limit) <= limit + 3
    ensures forall n: nat :: Reaches(s, i, n) && n >= limit ==> limit <= CEnd(s, i, limit) <= n
    ensures forall n: nat :: Reaches(s, i, n) && CEnd(s, i, limit) < limit ==> n <= CEnd(s, i, limit)
    decreases |s| - i
  {
    if i >= limit {
      forall n: nat | Reaches(s, i, n)
        ensures i <= n
      {
        ReachesForward(s, i, n);
      }
    } else if i < |s| && Next(s, i) <= |s| {
      CEndIsNext(s, Next(s, i), limit);
    }
  }

  /** C++ keeps everything up to the last boundary within the limit. */
  lemma CppCutIsLastBoundary(s: string, limit: nat)
    ensures Boundary(s, CppCut(s, limit)) && CppCut(s, limit) <= limit
    ensures forall n: nat :: Boundary(s, n) && n <= limit ==> n <= CppCut(s, limit)
  {
    CppEndIsLast(s, 0, limit);
  }

  /** C keeps everything up to the first boundary at or past the limit, or up to the last boundary
      of all when the text has none there; it passes the limit by three bytes at most. */
  lemma CCutIsNextBoundary(s: string, limit: nat)
    ensures Boundary(s, CCut(s, limit)) && CCut(s, limit) <= limit + 3
    ensures forall n: nat :: Boundary(s, n) && n >= limit ==> limit <= CCut(s, limit) <= n
    ensures forall n: nat :: Boundary(s, n) && CCut(s, limit) < limit ==> n <= CCut(s, limit)
  {
    CEndIsNext(s, 0, limit);
  }

  lemma {:induction false} EndsCompared(s: string, i: nat, limit: nat)
    requires i <= |s| && i <= limit
    ensures var m := CppEnd(s, i, limit);
            if m == limit || m == |s| || Next(s, m) > |s|
            then CEnd(s, i, limit) == m
            else CEnd(s, i, limit) == Next(s, m) > limit
    decreases |s| - i
  {
    if i < |s| && i < limit && Next(s, i) <= |s| && Next(s, i) <= limit {
      EndsCompared(s, Next(s, i), limit);
    }
  }

  /** The two results never differ by more than one unit, and they differ exactly when a complete
      unit straddles the limit. */
  lemma CutsCompared(s: string, limit: nat)
    ensures var m := CppCut(s, limit);
            if m == limit || m == |s| || m + Width(s[m]) > |s|
            then CCut(s, limit) == m
            else CCut(s, limit) == m + Width(s[m]) > limit
  {
    EndsCompared(s, 0, limit);
  }

  /** The same condition read off the text: the programs agree if and only if the limit is itself
      a boundary, or no boundary lies beyond it. */
  lemma CutsAgreeIff(s: string, limit: nat)
    ensures CCut(s, limit) == CppCut(s, limit) <==> Boundary(s, limit) || EndsWithin(s, limit)
  {
    CppCutIsLastBoundary(s, limit);
    CCutIsNextBoundary(s, limit);
    CutsCompared(s, limit);
    var m, k := CppCut(s, limit), CCut(s, limit);
    if Boundary(s, limit) {
      assert m == limit && k == limit;
    } else if EndsWithin(s, limit) {
      assert k <= limit;
    } else {
      var n: nat :| Boundary(s, n) && n > limit;
      assert m < limit <= k;
    }
  }

  // ---------- Cutting twice, and cutting later ----------

  lemma {:induction false} EndOfPrefix(s: string, i: nat, m: nat, limit: nat)
    requires i <= m <= |s| && Reaches(s, i, m)
    ensures CppEnd(s[..m], i, limit) == Min(m, CppEnd(s, i, limit))
    ensures CEnd(s[..m], i, limit) == Min(m, CEnd(s, i, limit))
    decreases |s| - i
  {
    if i < m {
      var j := Next(s, i);
      ReachesForward(s, j, m);
      assert Next(s[..m], i) == j;
      EndOfPrefix(s, j, m, limit);
    }
  }

  /** Cutting a prefix that ends on a boundary: the cut of the whole text, unless that is longer. */
  lemma CutOfPrefix(s: string, m: nat, limit: nat)
    requires m <= |s| && Boundary(s, m)
    ensures CppCut(s[..m], limit) == Min(m, CppCut(s, limit))
    ensures CCut(s[..m], limit) == Min(m, CCut(s, limit))
  {
    EndOfPrefix(s, 0, m, limit);
  }

  /** Cutting a cut text again changes nothing, in either program and across the two: a C++ cut
      satisfies C, and cutting C's result the C++ way gives what C++ gives directly. */
  lemma CuttingTwice(s: string, limit: nat)
    ensures CppCut(s[..CppCut(s, limit)], limit) == CppCut(s, limit)
    ensures CCut(s[..CCut(s, limit)], limit) == CCut(s, limit)
    ensures CCut(s[..CppCut(s, limit)], limit) == CppCut(s, limit)
    ensures CppCut(s[..CCut(s, limit)], limit) == CppCut(s, limit)
  {
    CppCutIsLastBoundary(s, limit);
    CCutIsNextBoundary(s, limit);
    CutsCompared(s, limit);
    CutOfPrefix(s, CppCut(s, limit), limit);
    CutOfPrefix(s, CCut(s, limit), limit);
  }

  /** A larger limit only extends the result. */
  lemma CutsGrowWithLimit(s: string, lower: nat, higher: nat)
    requires lower <= higher
    ensures CppCut(s, lower) <= CppCut(s, higher)
    ensures CCut(s, lower) <= CCut(s, higher)
  {
    CppCutIsLastBoundary(s, lower);
    CppCutIsLastBoundary(s, higher);
    CCutIsNextBoundary(s, lower);
    CCutIsNextBoundary(s, higher);
  }

  lemma {:induction false} EndIgnoresFarTail(s: string, i: nat, m: nat, limit: nat)
    requires limit + 4 <= m <= |s| && i <= m
    ensures CEnd(s[..m], i, limit) == CEnd(s, i, limit)
    decreases |s| - i
  {
    if i < limit {
      assert Next(s[..m], i) == Next(s, i) <= m;
      EndIgnoresFarTail(s, Next(s, i), m, limit);
    }
  }

  /** The C cut does not see what comes four bytes or more past the limit, even if the text was cut
      there in the middle of a unit. */
  lemma CutIgnoresFarTail(s: string, m: nat, limit: nat)
    requires limit + 4 <= m <= |s|
    ensures CCut(s[..m], limit) == CCut(s, limit)
  {
    EndIgnoresFarTail(s, 0, m, limit);
  }

  // ---------- Well-formed UTF-8 ----------

  predicate InRange(c: char, low: int, high: int) { low <= c as int <= high }

  predicate Tail(c: char) { InRange(c, 0x80, 0xBF) }

  /** One character in the syntax of section 4 of RFC 3629. */
  predicate WellFormedChar(s: string) {
    match |s|
    case 1 => InRange(s[0], 0x00, 0x7F)
    case 2 => InRange(s[0], 0xC2, 0xDF) && Tail(s[1])
    case 3 =>
      && Tail(s[2])
      && (|| (InRange(s[0], 0xE0, 0xE0) && InRange(s[1], 0xA0, 0xBF))
          || (InRange(s[0], 0xE1, 0xEC) && Tail(s[1]))
          || (InRange(s[0], 0xED, 0xED) && InRange(s[1], 0x80, 0x9F))
          || (InRange(s[0], 0xEE, 0xEF) && Tail(s[1])))
    case 4 =>
      && Tail(s[2]) && Tail(s[3])
      && (|| (InRange(s[0], 0xF0, 0xF0) && InRange(s[1], 0x90, 0xBF))
          || (InRange(s[0], 0xF1, 0xF3) && Tail(s[1]))
          || (InRange(s[0], 0xF4, 0xF4) && InRange(s[1], 0x80, 0x8F)))
    case _ => false
  }

  /** From position i on, s is a sequence of well-formed characters, however divided into them. */
  ghost predicate ValidFrom(s: string, i: nat)
    requires i <= |s|
    decreases |s| - i
  {
    i == |s| || exists n :: i < n <= |s| && WellFormedChar(s[i..n]) && ValidFrom(s, n)
  }

  ghost predicate ValidUtf8(s: string) { ValidFrom(s, 0) }

  /** The lead byte of a well-formed character gives its length. */
  lemma LeadGivesLength(c: string)
    requires WellFormedChar(c)
    ensures c != [] && Width(c[0]) == |c|
  {
  }

  /** The lead byte of a valid text gives the length of its first character. */
  lemma FirstCharacter(s: string, i: nat)
    requires i < |s| && ValidFrom(s, i)
    ensures Next(s, i) <= |s| && WellFormedChar(s[i..Next(s, i)]) && ValidFrom(s, Next(s, i))
  {
    var n :| i < n <= |s| && WellFormedChar(s[i..n]) && ValidFrom(s, n);
    LeadGivesLength(s[i..n]);
    assert n == Next(s, i);
  }

  /** In a valid text, the cuts that leave valid UTF-8 are exactly the boundaries. */
  lemma {:induction false} ValidPrefixIffReached(s: string, i: nat, n: nat)
    requires i <= n <= |s| && ValidFrom(s, i)
    ensures ValidFrom(s[..n], i) <==> Reaches(s, i, n)
    decreases |s| - i
  {
    var t := s[..n];
    if i < n {
      FirstCharacter(s, i);
      var j := Next(s, i);
      assert t[i] == s[i];
      if ValidFrom(t, i) {
        FirstCharacter(t, i);
      }
      if j <= n {
        ValidPrefixIffReached(s, j, n);
        assert t[i..j] == s[i..j];
      } else if Reaches(s, i, n) {
        ReachesForward(s, j, n);
      }
    }
  }

  /** No character is ever split: on valid text both programs leave valid text. C++ leaves the
      longest valid prefix that fits the limit; C leaves the shortest one that fills it, or the
      whole text when that is shorter than the limit. */
  lemma NoCharacterIsSplit(s: string, limit: nat)
    requires ValidUtf8(s)
    ensures var m := CppCut(s, limit);
            && m <= limit && ValidUtf8(s[..m])
            && forall n: nat :: n <= |s| && n <= limit && ValidUtf8(s[..n]) ==> n <= m
    ensures var k := CCut(s, limit);
            && ValidUtf8(s[..k])
            && (k < limit ==> k == |s|)
            && forall n: nat :: limit <= n <= |s| && ValidUtf8(s[..n]) ==> k <= n
  {
    CppCutIsLastBoundary(s, limit);
    CCutIsNextBoundary(s, limit);
    assert s[..|s|] == s;
    forall n: nat | n <= |s|
      ensures ValidUtf8(s[..n]) <==> Boundary(s, n)
    {
      ValidPrefixIffReached(s, 0, n);
    }
  }

  // ---------- Bytes and characters ----------

  /** A complete unit starts at position n. */
  predicate UnitAt(s: string, n: nat) { n < |s| && Next(s, n) <= |s| }

  /** Where n complete units from position i end, or all there are if there are fewer. */
  function CharEnd(s: string, i: nat, n: nat): nat
    requires i <= |s|
    decreases n
  {
    if n == 0 || !UnitAt(s, i) then i else CharEnd(s, Next(s, i), n - 1)
  }

  /** The cut that keeps the first n characters. */
  function CharCut(s: string, n: nat): nat { CharEnd(s, 0, n) }

  /** Every complete unit from position i on starts before the limit. */
  ghost predicate StartsBefore(s: string, i: nat, limit: nat)
    requires i <= |s|
  {
    forall n: nat :: Reaches(s, i, n) && UnitAt(s, n) ==> n < limit
  }

  /** Every complete unit from position i on ends within the limit. */
  ghost predicate StopsWithin(s: string, i: nat, limit: nat)
    requires i <= |s|
  {
    forall n: nat :: Reaches(s, i, n) && UnitAt(s, n) ==> Next(s, n) <= limit
  }

  /** The bytes from position i up to position j, as far as there are any, are characters by themselves. */
  predicate SingleBytes(s: string, i: nat, j: int) {
    forall k :: i <= k < j && k < |s| ==> Width(s[k]) == 1
  }

  lemma StepsOver(s: string, i: nat, limit: nat)
    requires UnitAt(s, i)
    ensures StartsBefore(s, i, limit) <==> i < limit && StartsBefore(s, Next(s, i), limit)
    ensures StopsWithin(s, i, limit) <==> Next(s, i) <= limit && StopsWithin(s, Next(s, i), limit)
  {
    assert Reaches(s, i, i);
    forall n: nat | Reaches(s, Next(s, i), n) && UnitAt(s, n)
      ensures Reaches(s, i, n)
    {
    }
  }

  /** Once fewer units have been taken than bytes, the byte limit binds before the character limit. */
  lemma {:induction false} BytesBindFirst(s: string, i: nat, n: nat, limit: nat)
    requires i <= |s| && n > 0 && i + n > limit
    ensures CEnd(s, i, limit) == CharEnd(s, i, n) <==> StartsBefore(s, i, limit)
    ensures i <= limit ==> (CppEnd(s, i, limit) == CharEnd(s, i, n) <==> StopsWithin(s, i, limit))
    decreases |s| - i
  {
    if UnitAt(s, i) {
      var j := Next(s, i);
      StepsOver(s, i, limit);
      CharEndForward(s, j, n - 1);
      if i < limit {
        BytesBindFirst(s, j, n - 1, limit);
      }
    }
  }

  lemma {:induction false} CharEndForward(s: string, i: nat, n: nat)
    requires i <= |s|
    ensures i <= CharEnd(s, i, n) <= |s|
    decreases n
  {
    if n > 0 && UnitAt(s, i) {
      CharEndForward(s, Next(s, i), n - 1);
    }
  }

  /** As long as every byte is a character, the two limits stay together. */
  lemma {:induction false} LimitsTogether(s: string, i: nat, n: nat, limit: nat)
    requires i <= |s| && i + n == limit
    ensures CEnd(s, i, limit) == CharEnd(s, i, n) <==> StartsBefore(s, i, limit) || SingleBytes(s, i, limit - 1)
    ensures CppEnd(s, i, limit) == CharEnd(s, i, n) <==> StopsWithin(s, i, limit) || SingleBytes(s, i, limit)
    decreases n
  {
    if n > 0 && UnitAt(s, i) {
      var j := Next(s, i);
      StepsOver(s, i, limit);
      CharEndForward(s, j, n - 1);
      if j == i + 1 {
        LimitsTogether(s, j, n - 1, limit);
      } else if n > 1 {
        BytesBindFirst(s, j, n - 1, limit);
      }
    }
  }

  /** The documented cut counts characters, the programs count bytes. C shows the first `limit`
      characters if and only if every character starts before byte `limit`, or all bytes before the
      last that fits are characters by themselves. C++ does if and only if every character ends within
      the first `limit` bytes, or these are characters by themselves. */
  lemma CutsAtCharactersIff(s: string, limit: nat)
    ensures CCut(s, limit) == CharCut(s, limit) <==> StartsBefore(s, 0, limit) || SingleBytes(s, 0, limit - 1)
    ensures CppCut(s, limit) == CharCut(s, limit) <==> StopsWithin(s, 0, limit) || SingleBytes(s, 0, limit)
  {
    LimitsTogether(s, 0, limit, limit);
  }

  /** A text of n letters e with an acute accent, which take two bytes each. */
  function Accents(n: nat): string { seq(2 * n, i => if i % 2 == 0 then 0xC3 as char else 0xA9 as char) }

  lemma {:induction false} AccentsAreValid(n: nat, k: nat)
    requires k <= n
    ensures ValidFrom(Accents(n), 2 * k)
    decreases n - k
  {
    if k < n {
      AccentsAreValid(n, k + 1);
      assert WellFormedChar(Accents(n)[2 * k..2 * (k + 1)]);
    }
  }

  lemma {:induction false} AccentsCounted(n: nat, k: nat, chars: nat)
    requires k <= n
    ensures CharEnd(Accents(n), 2 * k, chars) == 2 * Min(n, k + chars)
    decreases chars
  {
    if k < n && chars > 0 {
      assert Next(Accents(n), 2 * k) == 2 * (k + 1);
      AccentsCounted(n, k + 1, chars - 1);
    }
  }

  lemma {:induction false} AccentsCut(n: nat, k: nat, half: nat)
    requires k <= n && k <= half
    ensures CEnd(Accents(n), 2 * k, 2 * half) == CppEnd(Accents(n), 2 * k, 2 * half) == 2 * Min(n, half)
    decreases n - k
  {
    if k < n && k < half {
      assert Next(Accents(n), 2 * k) == 2 * (k + 1);
      AccentsCut(n, k + 1, half);
    }
  }

  /** Thirty such letters: a column of 30 shows fifteen of them in either program. */
  lemma FifteenOfThirty()
    ensures ValidUtf8(Accents(30)) && CharCut(Accents(30), 30) == |Accents(30)| == 60
    ensures CCut(Accents(30), 30) == CppCut(Accents(30), 30) == CharCut(Accents(30), 15) == 30
  {
    AccentsAreValid(30, 0);
    AccentsCounted(30, 0, 30);
    AccentsCounted(30, 0, 15);
    AccentsCut(30, 0, 15);
  }

  // ---------- The two loops ----------

  /** C++: appends whole units to a result string. */
  method TruncateCpp(text: string, limit: nat) returns (result: string)
    ensures result == text[..CppCut(text, limit)]
  {
    result := "";
    var index := 0;
    while index < |text| && |result| < limit
      invariant index <= |text| && result == text[..index]
      invariant CppCut(text, limit) == CppEnd(text, index, limit)
    {
      var width := Width(text[index]);
      if index + width > |text| || |result| + width > limit {
        break;
      }
      result := result + text[index..index + width];
      index := index + width;
    }
  }

  /** C: copies whole units into a caller-supplied buffer and terminates it. The buffer must hold
      the limit, the three bytes by which the last unit may pass it, and the NUL. */
  method TruncateC(source: string, target: array<char>, limit: nat) returns (used: nat)
    requires target.Length >= limit + 4
    modifies target
    ensures used == CCut(source, limit) < target.Length
    ensures target[..used] == source[..used] && target[used] == '\0'
    ensures forall j :: used < j < target.Length ==> target[j] == old(target[j])
  {
    used := 0;
    var i := 0;
    while i < |source| && used < limit
      invariant used == i <= |source| && used <= limit + 3
      invariant forall j :: 0 <= j < used ==> target[j] == source[j]
      invariant forall j :: used <= j < target.Length ==> target[j] == old(target[j])
      invariant CCut(source, limit) == CEnd(source, i, limit)
      decreases |source| - i
    {
      var width := Width(source[i]);
      if |source| - i < width {
        break;
      }
      CopyUnit(source, i, target, used, width);
      used := used + width;
      i := i + width;
    }
    target[used] := '\0';
  }

  /** memcpy of one unit. */
  method CopyUnit(source: string, i: nat, target: array<char>, used: nat, width: nat)
    requires i + width <= |source| && used + width <= target.Length
    modifies target
    ensures forall j :: used <= j < used + width ==> target[j] == source[i + (j - used)]
    ensures forall j :: 0 <= j < used || used + width <= j < target.Length ==> target[j] == old(target[j])
  {
    forall j | 0 <= j < width {
      target[used + j] := source[i + j];
    }
  }
}
