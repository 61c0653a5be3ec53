/** The name filter and the orders of cpp/src/ProcessModel.cpp, written with library algorithms and
    strict comparisons, against the loops and comparators of C. */
module CppOrder {
  import opened Basics
  import opened ProcessModel
  import opened Ordering
  import opened Joins

  // ---------- Names ----------

  /** foldChar: the value of a folded char, which is a signed type on the usual targets. */
  function FoldChar(c: char): int {
    var byte := ToLower(c) as int;
    if byte < 128 then byte else byte - 256
  }

  /** lessFold: std::lexicographical_compare, from position i on. */
  function LessFold(x: string, y: string, i: nat): bool
    requires i <= |x| && i <= |y|
    decreases |x| - i
  {
    if i == |y| then false
    else if i == |x| then true
    else if FoldChar(x[i]) != FoldChar(y[i]) then FoldChar(x[i]) < FoldChar(y[i])
    else LessFold(x, y, i + 1)
  }

  predicate IsByte(c: char) { c as int < 256 }

  predicate Bytes(x: string) { forall i :: 0 <= i < |x| ==> IsByte(x[i]) }

  /** Both are ASCII or neither is. */
  predicate SameHalf(c: char, d: char) { c as int < 128 <==> d as int < 128 }

  /** The first bytes that differ up to case are both ASCII, or neither is. */
  predicate DifferInOneHalf(x: string, y: string) {
    forall k: nat :: k < |x| && k < |y| && AgreeBefore(x, y, k) && ToLower(x[k]) != ToLower(y[k]) ==>
      SameHalf(x[k], y[k])
  }

  /** The first position from i on where the names differ up to case, or the end of the shorter. */
  lemma {:induction false} LessFoldFrom(x: string, y: string, i: nat) returns (k: nat)
    requires Bytes(x) && Bytes(y) && AgreeBefore(x, y, i)
    ensures AgreeBefore(x, y, k) && (k < |x| && k < |y| ==> ToLower(x[k]) != ToLower(y[k]))
    ensures LessFold(x, y, i) <==> k < |y| && (k == |x| || FoldChar(x[k]) < FoldChar(y[k]))
    ensures CompareNamesFrom(x, y, i) < 0 <==> k < |y| && (k == |x| || ToLower(x[k]) < ToLower(y[k]))
    decreases |x| - i
  {
    if i < |x| && i < |y| && ToLower(x[i]) == ToLower(y[i]) {
      k := LessFoldFrom(x, y, i + 1);
    } else {
      k := i;
    }
  }

  /** C compares the bytes unsigned, C++ signed. They order two names alike if and only if the first
      bytes that differ lie on the same side of 128; between ASCII names they always do. */
  lemma NameOrdersAgreeIff(x: string, y: string)
    requires Bytes(x) && Bytes(y)
    ensures (LessFold(x, y, 0) <==> CompareNamesFrom(x, y, 0) < 0) <==> DifferInOneHalf(x, y)
  {
    var k := LessFoldFrom(x, y, 0);
    forall j: nat | j < |x| && j < |y| && AgreeBefore(x, y, j) && ToLower(x[j]) != ToLower(y[j])
      ensures j == k
    {
    }
  }

  /** The letter e with an acute accent follows "z" in C, and precedes it in C++. */
  lemma AccentsAreOrderedDifferently()
    ensures var accent, z := [0xC3 as char, 0xA9 as char], "z";
            && Bytes(accent) && Bytes(z) && !DifferInOneHalf(accent, z)
            && CompareNamesFrom(z, accent, 0) < 0 && LessFold(accent, z, 0)
  {
    var accent, z := [0xC3 as char, 0xA9 as char], "z";
    assert AgreeBefore(accent, z, 0) && ToLower(accent[0]) != ToLower(z[0]);
  }

  // ---------- The filter ----------

  /** containsFold. The subrange that std::ranges::search finds for an empty needle is empty, so that
      an empty needle is in no name. */
  predicate CppContainsFold(haystack: string, needle: string) {
    needle != "" && ContainsFold(haystack, needle)
  }

  function CppKeep(needle: string): CppInfo -> seq<CppInfo> {
    (info: CppInfo) => if CppContainsFold(info.name, needle) then [info] else []
  }

  /** filterByName: std::erase_if keeps the others in order. */
  function CppFilter(processes: seq<CppInfo>, needle: string): seq<CppInfo> {
    if needle == "" then processes else FlatMap(CppKeep(needle), processes)
  }

  lemma KeepAgrees(x: ProcessInfo, needle: string)
    requires needle != ""
    ensures CppKeep(needle)(ToCpp(x)) == Map(ToCpp, Keep(needle)(x))
  {
  }

  lemma MapConcat<T, U>(f: T -> U, s: seq<T>, t: seq<T>)
    ensures Map(f, s + t) == Map(f, s) + Map(f, t)
  {
  }

  lemma {:induction false} KeepsAgree(s: seq<ProcessInfo>, needle: string)
    requires needle != ""
    ensures FlatMap(CppKeep(needle), Map(ToCpp, s)) == Map(ToCpp, FlatMap(Keep(needle), s))
  {
    if s == [] {
      assert Map(ToCpp, s) == [];
    } else {
      var n := |s| - 1;
      KeepsAgree(s[..n], needle);
      FlatMapLast(Keep(needle), s);
      FlatMapLast(CppKeep(needle), Map(ToCpp, s));
      assert Map(ToCpp, s)[..n] == Map(ToCpp, s[..n]);
      KeepAgrees(s[n], needle);
      MapConcat(ToCpp, FlatMap(Keep(needle), s[..n]), Keep(needle)(s[n]));
    }
  }

  /** Both filters leave the same processes, although they disagree about the empty needle. */
  lemma FiltersAgree(s: seq<ProcessInfo>, needle: string)
    ensures CppFilter(Map(ToCpp, s), needle) == Map(ToCpp, Filter(s, needle))
  {
    if needle != "" {
      KeepsAgree(s, needle);
    }
  }

  // ---------- The sort ----------

  /** The comparisons that sortProcesses hands to std::ranges::sort. */
  function Less(key: SortKey, a: CppInfo, b: CppInfo): bool {
    match key
    case ByCpu => if a.cpuPercent != b.cpuPercent then a.cpuPercent > b.cpuPercent else a.pid < b.pid
    case ByMem =>
      var left, right := ValueOrZero(a.memBytes), ValueOrZero(b.memBytes);
      if left != right then left > right else a.pid < b.pid
    case ByPid => a.pid < b.pid
    case ByName =>
      if LessFold(a.name, b.name, 0) then true
      else if LessFold(b.name, a.name, 0) then false
      else a.pid < b.pid
  }

  function ValueOrZero(x: Option<u64>): u64 { if x.Some? then x.value else 0 }

  /** What std::ranges::sort promises: an arrangement in which nothing is less than what precedes it. */
  ghost predicate CppSorted(key: SortKey, s: seq<CppInfo>, t: seq<CppInfo>) {
    multiset(t) == multiset(s) && NoneBefore(key, t)
  }

  ghost predicate NoneBefore(key: SortKey, s: seq<CppInfo>) {
    forall i, j :: 0 <= i < j < |s| ==> !Less(key, s[j], s[i])
  }

  /** Unknown values are zero, as memset left them. */
  predicate Tidy(info: ProcessInfo) {
    (!info.memKnown ==> info.memBytes == 0) && (!info.cpuKnown ==> info.cpuTimeNs == 0)
  }

  function FromCpp(info: CppInfo): ProcessInfo {
    ProcessInfo(info.pid, info.name, ValueOrZero(info.memBytes), info.threads, ValueOrZero(info.cpuTimeNs),
                info.cpuPercent, info.memBytes.Some?, info.cpuTimeNs.Some?)
  }

  /** Names whose order does not depend on the sign of char. */
  ghost predicate PlainNames(s: seq<ProcessInfo>) {
    && (forall x :: x in s ==> Bytes(x.name))
    && (forall x, y :: x in s && y in s ==> DifferInOneHalf(x.name, y.name))
  }

  lemma LessMeans(key: SortKey, a: ProcessInfo, b: ProcessInfo)
    requires Tidy(a) && Tidy(b)
    requires key == ByName ==> Bytes(a.name) && Bytes(b.name)
    requires key == ByName ==> DifferInOneHalf(a.name, b.name) && DifferInOneHalf(b.name, a.name)
    ensures Less(key, ToCpp(a), ToCpp(b)) <==> Compare(key, a, b) < 0
  {
    if key == ByName {
      NameOrdersAgreeIff(a.name, b.name);
      NameOrdersAgreeIff(b.name, a.name);
      CompareNamesMeans(a.name, b.name);
      CompareNamesMeans(b.name, a.name);
    }
  }

  lemma ArrangementsCarryOver(s: seq<ProcessInfo>, u: seq<CppInfo>)
    requires forall x :: x in s ==> Tidy(x)
    requires multiset(u) == multiset(Map(ToCpp, s))
    ensures multiset(Map(FromCpp, u)) == multiset(s) && Map(ToCpp, Map(FromCpp, u)) == u
  {
    MapPermutes(FromCpp, u, Map(ToCpp, s));
    forall i | 0 <= i < |s| ensures FromCpp(ToCpp(s[i])) == s[i] {
      assert Tidy(s[i]);
    }
    assert Map(FromCpp, Map(ToCpp, s)) == s;
  }

  lemma SortedCarriesOver(key: SortKey, t: seq<ProcessInfo>)
    requires (forall x :: x in t ==> Tidy(x)) && (key == ByName ==> PlainNames(t))
    ensures NoneBefore(key, Map(ToCpp, t)) <==> Sorted(key, t)
  {
    var u := Map(ToCpp, t);
    forall i, j | 0 <= i < j < |t|
      ensures !Less(key, u[j], u[i]) <==> Compare(key, t[i], t[j]) <= 0
    {
      assert t[i] in t && t[j] in t;
      LessMeans(key, t[j], t[i]);
      CompareIsAntisymmetric(key, t[i], t[j]);
    }
  }

  lemma SortedInBoth(key: SortKey, s: seq<ProcessInfo>, t: seq<ProcessInfo>)
    requires DistinctPids(s) && (forall x :: x in s ==> Tidy(x)) && (key == ByName ==> PlainNames(s))
    requires multiset(t) == multiset(s)
    ensures CppSorted(key, Map(ToCpp, s), Map(ToCpp, t)) <==> t == Sort(key, s)
  {
    MapPermutes(ToCpp, s, t);
    assert forall x :: x in t ==> x in multiset(s);
    SortedCarriesOver(key, t);
    QsortIsDeterministic(key, s, t);
  }

  /** The C++ sort has one possible outcome, and it is that of the C sort. */
  lemma SortsAgree(key: SortKey, s: seq<ProcessInfo>, u: seq<CppInfo>)
    requires DistinctPids(s) && (forall x :: x in s ==> Tidy(x)) && (key == ByName ==> PlainNames(s))
    ensures CppSorted(key, Map(ToCpp, s), u) <==> u == Map(ToCpp, Sort(key, s))
  {
    SortSorts(key, s);
    SortedInBoth(key, s, Sort(key, s));
    if CppSorted(key, Map(ToCpp, s), u) {
      ArrangementsCarryOver(s, u);
      SortedInBoth(key, s, Map(FromCpp, u));
    }
  }

  /** Filter and sort together: C++ is left with the list that C is left with. */
  lemma PipelinesAgree(key: SortKey, s: seq<ProcessInfo>, needle: string, u: seq<CppInfo>)
    requires DistinctPids(s) && (forall x :: x in s ==> Tidy(x)) && (key == ByName ==> PlainNames(s))
    ensures CppSorted(key, CppFilter(Map(ToCpp, s), needle), u) <==> u == Map(ToCpp, Sort(key, Filter(s, needle)))
  {
    FiltersAgree(s, needle);
    FilterKeepsDistinct(s, needle);
    FilteredAreMembers(s, needle);
    SortsAgree(key, Filter(s, needle), u);
  }

  lemma FilteredAreMembers(s: seq<ProcessInfo>, needle: string)
    ensures forall x :: x in Filter(s, needle) ==> x in s
  {
    if needle != "" {
      var at := FilterKeepsMatches(s, needle);
    }
  }
}
