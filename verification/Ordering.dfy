/** The four comparators are total orders, so sorting with an unstable library sort still has one
    possible result as soon as pids are distinct. */
module Ordering {
  import opened Basics
  import opened ProcessModel

  // ---------- Comparing names ----------

  /** The folded names agree before position k. */
  predicate AgreeBefore(x: string, y: string, k: nat) {
    k <= |x| && k <= |y| && forall i :: 0 <= i < k ==> ToLower(x[i]) == ToLower(y[i])
  }

  predicate NameBeforeAt(x: string, y: string, k: nat) {
    AgreeBefore(x, y, k) && k < |y| && (k == |x| || ToLower(x[k]) < ToLower(y[k]))
  }

  /** Lexicographic order, stated without the loop: x is a proper prefix of y up to case, or is
      smaller at the first position where the two differ. */
  ghost predicate NameBefore(x: string, y: string) { exists k: nat :: NameBeforeAt(x, y, k) }

  predicate SameName(x: string, y: string) { |x| == |y| && AgreeBefore(x, y, |x|) }

  lemma {:induction false} CompareNamesFromMeans(x: string, y: string, i: nat)
    requires AgreeBefore(x, y, i)
    ensures var c := CompareNamesFrom(x, y, i);
            && (c < 0 ==> NameBefore(x, y))
            && (c > 0 ==> NameBefore(y, x))
            && (c == 0 ==> SameName(x, y))
    decreases |x| - i
  {
    if i < |x| && i < |y| && ToLower(x[i]) == ToLower(y[i]) {
      CompareNamesFromMeans(x, y, i + 1);
    } else {
      assert AgreeBefore(y, x, i);
      assert (i == |x| && i == |y|) || NameBeforeAt(x, y, i) || NameBeforeAt(y, x, i);
    }
  }

  lemma NameBeforeIsStrict(x: string, y: string)
    ensures !(NameBefore(x, y) && NameBefore(y, x))
    ensures SameName(x, y) ==> !NameBefore(x, y) && !NameBefore(y, x)
  {
  }

  /** Where x first differs from y, or the common length. */
  lemma Difference(x: string, y: string) returns (k: nat)
    requires NameBefore(x, y) || SameName(x, y)
    ensures NameBeforeAt(x, y, k) || (k == |x| && SameName(x, y))
  {
    if SameName(x, y) {
      k := |x|;
    } else {
      k :| NameBeforeAt(x, y, k);
    }
  }

  lemma NameBeforeIsTransitive(x: string, y: string, z: string)
    requires NameBefore(x, y) || SameName(x, y)
    requires NameBefore(y, z) || SameName(y, z)
    ensures NameBefore(x, z) || SameName(x, z)
    ensures NameBefore(x, y) || NameBefore(y, z) ==> NameBefore(x, z)
  {
    var k := Difference(x, y);
    var m := Difference(y, z);
    var n := Min(k, m);
    assert AgreeBefore(x, z, n);
    NameBeforeIsStrict(x, y);
    NameBeforeIsStrict(y, z);
    assert (SameName(x, y) && SameName(y, z)) || NameBeforeAt(x, z, n);
  }

  /** The comparison loop decides the lexicographic order. */
  lemma CompareNamesMeans(x: string, y: string)
    ensures CompareNamesFrom(x, y, 0) < 0 <==> NameBefore(x, y)
    ensures CompareNamesFrom(x, y, 0) > 0 <==> NameBefore(y, x)
    ensures CompareNamesFrom(x, y, 0) == 0 <==> SameName(x, y)
  {
    CompareNamesFromMeans(x, y, 0);
    NameBeforeIsStrict(x, y);
    NameBeforeIsStrict(y, x);
  }

  // ---------- Total orders ----------

  /** Swapping the arguments flips the sign, and only records with the same pid compare equal. */
  lemma CompareIsAntisymmetric(key: SortKey, a: ProcessInfo, b: ProcessInfo)
    ensures Compare(key, a, b) < 0 <==> Compare(key, b, a) > 0
    ensures Compare(key, a, b) == 0 <==> Compare(key, b, a) == 0
    ensures Compare(key, a, b) == 0 ==> a.pid == b.pid
  {
    CompareNamesMeans(a.name, b.name);
    CompareNamesMeans(b.name, a.name);
  }

  lemma CompareIsTransitive(key: SortKey, a: ProcessInfo, b: ProcessInfo, c: ProcessInfo)
    requires Compare(key, a, b) <= 0 && Compare(key, b, c) <= 0
    ensures Compare(key, a, c) <= 0
    ensures Compare(key, a, b) < 0 || Compare(key, b, c) < 0 ==> Compare(key, a, c) < 0
  {
    if key == ByName {
      CompareNamesMeans(a.name, b.name);
      CompareNamesMeans(b.name, c.name);
      CompareNamesMeans(a.name, c.name);
      NameBeforeIsStrict(a.name, c.name);
      NameBeforeIsTransitive(a.name, b.name, c.name);
    }
  }

  // ---------- A sort exists ----------

  function Insert(key: SortKey, x: ProcessInfo, s: seq<ProcessInfo>): seq<ProcessInfo> {
    if s == [] || Compare(key, x, s[0]) <= 0 then [x] + s
    else [s[0]] + Insert(key, x, s[1..])
  }

  function Sort(key: SortKey, s: seq<ProcessInfo>): seq<ProcessInfo> {
    if s == [] then [] else Insert(key, s[0], Sort(key, s[1..]))
  }

  lemma {:induction false} InsertAdds(key: SortKey, x: ProcessInfo, s: seq<ProcessInfo>)
    ensures multiset(Insert(key, x, s)) == multiset(s) + multiset{x}
  {
    if !(s == [] || Compare(key, x, s[0]) <= 0) {
      InsertAdds(key, x, s[1..]);
      assert s == [s[0]] + s[1..];
    }
  }

  ghost predicate NotAfterAny(key: SortKey, x: ProcessInfo, s: seq<ProcessInfo>) {
    forall j :: 0 <= j < |s| ==> Compare(key, x, s[j]) <= 0
  }

  lemma SortedCons(key: SortKey, x: ProcessInfo, s: seq<ProcessInfo>)
    requires Sorted(key, s) && NotAfterAny(key, x, s)
    ensures Sorted(key, [x] + s)
  {
  }

  lemma NotAfterHead(key: SortKey, x: ProcessInfo, s: seq<ProcessInfo>)
    requires s != [] && Sorted(key, s) && Compare(key, x, s[0]) <= 0
    ensures NotAfterAny(key, x, s)
  {
    forall j | 0 <= j < |s| ensures Compare(key, x, s[j]) <= 0 {
      if j > 0 { CompareIsTransitive(key, x, s[0], s[j]); }
    }
  }

  lemma {:induction false} InsertSorts(key: SortKey, x: ProcessInfo, s: seq<ProcessInfo>)
    requires Sorted(key, s)
    ensures Sorted(key, Insert(key, x, s))
  {
    if s == [] {
    } else if Compare(key, x, s[0]) <= 0 {
      NotAfterHead(key, x, s);
      SortedCons(key, x, s);
    } else {
      InsertSorts(key, x, s[1..]);
      CompareIsAntisymmetric(key, x, s[0]);
      InsertAdds(key, x, s[1..]);
      var r := Insert(key, x, s[1..]);
      forall j | 0 <= j < |r| ensures Compare(key, s[0], r[j]) <= 0 {
        assert r[j] in multiset(s[1..]) + multiset{x};
      }
      SortedCons(key, s[0], r);
    }
  }

  lemma HeadAndTail(s: seq<ProcessInfo>)
    requires s != []
    ensures multiset(s) == multiset(s[1..]) + multiset{s[0]}
  {
    assert s == [s[0]] + s[1..];
  }

  /** The contract of qsort can be met. */
  lemma {:induction false} SortSorts(key: SortKey, s: seq<ProcessInfo>)
    ensures SortedPermutation(key, s, Sort(key, s))
  {
    if s != [] {
      SortSorts(key, s[1..]);
      HeadAndTail(s);
      InsertAdds(key, s[0], Sort(key, s[1..]));
      InsertSorts(key, s[0], Sort(key, s[1..]));
    }
  }

  // ---------- There is only one sorted permutation ----------

  lemma {:induction false} DistinctOccurOnce(s: seq<ProcessInfo>, x: ProcessInfo)
    requires DistinctPids(s)
    ensures multiset(s)[x] <= 1
  {
    if s != [] {
      var n := |s| - 1;
      DistinctOccurOnce(s[..n], x);
      assert s == s[..n] + [s[n]];
      if s[n] == x {
        assert x !in s[..n];
      }
    }
  }

  lemma RepeatedOccurTwice(t: seq<ProcessInfo>, i: nat, j: nat)
    requires i < j < |t| && t[i] == t[j]
    ensures multiset(t)[t[i]] >= 2
  {
    RemoveAt(t, i);
    assert (t[..i] + t[i + 1..])[j - 1] == t[j];
  }

  lemma DistinctUnderPermutation(s: seq<ProcessInfo>, t: seq<ProcessInfo>)
    requires DistinctPids(s) && multiset(s) == multiset(t)
    ensures DistinctPids(t)
  {
    forall i, j | 0 <= i < j < |t|
      ensures t[i].pid != t[j].pid
    {
      assert t[i] in multiset(s) && t[j] in multiset(s);
      if t[i] == t[j] {
        RepeatedOccurTwice(t, i, j);
        DistinctOccurOnce(s, t[i]);
      }
    }
  }

  lemma HeadComesFirst(key: SortKey, s: seq<ProcessInfo>, j: nat)
    requires Sorted(key, s) && j < |s|
    ensures Compare(key, s[0], s[j]) <= 0
  {
    CompareIsAntisymmetric(key, s[0], s[0]);
  }

  lemma SortedHeadsAgree(key: SortKey, s: seq<ProcessInfo>, t: seq<ProcessInfo>, i: nat, j: nat)
    requires Sorted(key, s) && Sorted(key, t) && DistinctPids(s)
    requires i < |t| && j < |s| && t[i] == s[0] && s[j] == t[0]
    ensures s[0] == t[0]
  {
    HeadComesFirst(key, s, j);
    HeadComesFirst(key, t, i);
    CompareIsAntisymmetric(key, s[0], t[0]);
  }

  lemma HeadsOfPermutation(s: seq<ProcessInfo>, t: seq<ProcessInfo>) returns (i: nat, j: nat)
    requires multiset(s) == multiset(t) && s != [] && t != []
    ensures i < |t| && t[i] == s[0] && j < |s| && s[j] == t[0]
  {
    assert s[0] in multiset(t) && t[0] in multiset(s);
    i :| 0 <= i < |t| && t[i] == s[0];
    j :| 0 <= j < |s| && s[j] == t[0];
  }

  /** With distinct pids, two sorted arrangements of the same records are the same sequence. */
  lemma {:induction false} SortedIsUnique(key: SortKey, s: seq<ProcessInfo>, t: seq<ProcessInfo>)
    requires Sorted(key, s) && Sorted(key, t) && multiset(s) == multiset(t) && DistinctPids(s)
    ensures s == t
  {
    SameLength(s, t);
    if s != [] {
      var i, j := HeadsOfPermutation(s, t);
      SortedHeadsAgree(key, s, t, i, j);
      TailsPermute(s, t);
      SortedIsUnique(key, s[1..], t[1..]);
      assert s == [s[0]] + s[1..] && t == [t[0]] + t[1..];
    }
  }

  lemma SameLength(s: seq<ProcessInfo>, t: seq<ProcessInfo>)
    requires multiset(s) == multiset(t)
    ensures |s| == |t|
  {
    assert |s| == |multiset(s)| == |multiset(t)| == |t|;
  }

  lemma TailsPermute(s: seq<ProcessInfo>, t: seq<ProcessInfo>)
    requires s != [] && t != [] && s[0] == t[0] && multiset(s) == multiset(t)
    ensures multiset(s[1..]) == multiset(t[1..])
  {
    HeadAndTail(s);
    HeadAndTail(t);
    assert multiset(s[1..]) == multiset(s) - multiset{s[0]};
    assert multiset(t[1..]) == multiset(t) - multiset{t[0]};
  }

  /** Hence a call of qsort on records with distinct pids has exactly one possible outcome, however
      the records were arranged before. */
  lemma QsortIsDeterministic(key: SortKey, s: seq<ProcessInfo>, t: seq<ProcessInfo>)
    requires DistinctPids(s)
    ensures SortedPermutation(key, s, t) <==> t == Sort(key, s)
  {
    SortSorts(key, s);
    if SortedPermutation(key, s, t) {
      DistinctUnderPermutation(s, t);
      SortedIsUnique(key, t, Sort(key, s));
    }
  }

  lemma SortIgnoresArrangement(key: SortKey, s: seq<ProcessInfo>, t: seq<ProcessInfo>)
    requires DistinctPids(s) && multiset(s) == multiset(t)
    ensures Sort(key, s) == Sort(key, t)
  {
    SortSorts(key, t);
    QsortIsDeterministic(key, s, Sort(key, t));
  }

  // ---------- Filtering and sorting ----------

  /** What the filter leaves, without saying how: the positions of the kept records, in order. */
  ghost predicate KeptFrom(s: seq<ProcessInfo>, needle: string, t: seq<ProcessInfo>, at: seq<nat>) {
    && |at| == |t|
    && (forall i :: 0 <= i < |at| ==> at[i] < |s| && t[i] == s[at[i]])
    && (forall i :: 0 <= i < |t| ==> ContainsFold(t[i].name, needle))
    && (forall i, j :: 0 <= i < j < |at| ==> at[i] < at[j])
    && (forall k: nat :: k < |s| && ContainsFold(s[k].name, needle) ==> k in at)
  }

  lemma KeptStep(s: seq<ProcessInfo>, needle: string, t: seq<ProcessInfo>, at: seq<nat>, x: ProcessInfo)
    requires KeptFrom(s, needle, t, at)
    ensures ContainsFold(x.name, needle) ==> KeptFrom(s + [x], needle, t + [x], at + [|s|])
    ensures !ContainsFold(x.name, needle) ==> KeptFrom(s + [x], needle, t, at)
  {
    assert forall k: nat :: k in at ==> k in at + [|s|];
    assert (at + [|s|])[|at|] == |s|;
  }

  /** The filter keeps exactly the matching records, each once, in their original order. */
  lemma {:induction false} FilterKeepsMatches(s: seq<ProcessInfo>, needle: string) returns (at: seq<nat>)
    ensures KeptFrom(s, needle, FlatMap(Keep(needle), s), at)
  {
    if s == [] {
      at := [];
    } else {
      var n := |s| - 1;
      at := FilterKeepsMatches(s[..n], needle);
      FlatMapLast(Keep(needle), s);
      KeptStep(s[..n], needle, FlatMap(Keep(needle), s[..n]), at, s[n]);
      assert s == s[..n] + [s[n]];
      if ContainsFold(s[n].name, needle) {
        at := at + [n];
      } else {
        assert FlatMap(Keep(needle), s) == FlatMap(Keep(needle), s[..n]);
      }
    }
  }

  lemma EverythingMatchesEmpty(name: string)
    ensures ContainsFold(name, "")
  {
    assert MatchesAt(name, "", 0);
  }

  lemma FilterKeepsDistinct(s: seq<ProcessInfo>, needle: string)
    requires DistinctPids(s)
    ensures DistinctPids(Filter(s, needle))
  {
    if needle != "" {
      var at := FilterKeepsMatches(s, needle);
    }
  }

  lemma {:induction false} FilterOfMatches(s: seq<ProcessInfo>, needle: string)
    requires forall i :: 0 <= i < |s| ==> ContainsFold(s[i].name, needle)
    ensures FlatMap(Keep(needle), s) == s
  {
    if s != [] {
      FilterOfMatches(s[..|s| - 1], needle);
      FlatMapLast(Keep(needle), s);
    }
  }

  lemma FilterIsIdempotent(s: seq<ProcessInfo>, needle: string)
    ensures Filter(Filter(s, needle), needle) == Filter(s, needle)
  {
    if needle != "" {
      var at := FilterKeepsMatches(s, needle);
      FilterOfMatches(Filter(s, needle), needle);
    }
  }

  lemma FilterPermutes(s: seq<ProcessInfo>, t: seq<ProcessInfo>, needle: string)
    requires multiset(s) == multiset(t)
    ensures multiset(Filter(s, needle)) == multiset(Filter(t, needle))
  {
    FlatMapPermutes(Keep(needle), s, t);
  }

  /** Picking records at increasing positions out of a sorted list leaves a sorted list. */
  lemma FilterKeepsSorted(key: SortKey, s: seq<ProcessInfo>, needle: string)
    requires Sorted(key, s)
    ensures Sorted(key, Filter(s, needle))
  {
    if needle != "" {
      var at := FilterKeepsMatches(s, needle);
    }
  }

  /** Filtering first and sorting first give the same list. */
  lemma FilterAndSortCommute(key: SortKey, s: seq<ProcessInfo>, needle: string)
    requires DistinctPids(s)
    ensures Sort(key, Filter(s, needle)) == Filter(Sort(key, s), needle)
  {
    SortSorts(key, s);
    FilterKeepsSorted(key, Sort(key, s), needle);
    FilterPermutes(s, Sort(key, s), needle);
    FilterKeepsDistinct(s, needle);
    QsortIsDeterministic(key, Filter(s, needle), Filter(Sort(key, s), needle));
  }
}
