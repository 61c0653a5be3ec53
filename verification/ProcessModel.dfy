/** What one sampling round computes, as functions on sequences of process records: the CPU join,
    the name filter and the four orders of c/src/proc_common.c. The methods that update buffers in
    place are proved against these functions. */
module ProcessModel {
  import opened Basics

  datatype ProcessInfo = ProcessInfo(
    pid: u32, name: string, memBytes: u64, threads: u32, cpuTimeNs: u64,
    cpuPercent: real, memKnown: bool, cpuKnown: bool)

  /** A record as memset leaves it, with its pid assigned. */
  function Blank(pid: u32): ProcessInfo { ProcessInfo(pid, "", 0, 0, 0, 0.0, false, false) }

  datatype SortKey = ByCpu | ByMem | ByPid | ByName

  /** What one snapshot measured: the records in the order met, and the monotonic clock. */
  datatype Sample = Sample(items: seq<ProcessInfo>, wallNs: u64)

  ghost predicate DistinctPids(s: seq<ProcessInfo>) {
    forall i, j :: 0 <= i < j < |s| ==> s[i].pid != s[j].pid
  }

  // ---------- The CPU join ----------

  /** The first entry with the given pid, searching from position i. */
  function FindFrom(s: seq<ProcessInfo>, pid: u32, i: nat): (r: Option<nat>)
    requires i <= |s|
    ensures r.Some? ==> i <= r.value < |s| && s[r.value].pid == pid
                        && forall j :: i <= j < r.value ==> s[j].pid != pid
    ensures r.None? ==> forall j :: i <= j < |s| ==> s[j].pid != pid
    decreases |s| - i
  {
    if i == |s| then None
    else if s[i].pid == pid then Some(i)
    else FindFrom(s, pid, i + 1)
  }

  function Find(s: seq<ProcessInfo>, pid: u32): Option<nat> { FindFrom(s, pid, 0) }

  function Cores(cpuCount: nat): nat { if cpuCount == 0 then 1 else cpuCount }

  /** The CPU time an interval offers: its length on every core. */
  function Capacity(wallDelta: nat, cpuCount: nat): (c: nat)
    ensures wallDelta > 0 ==> c > 0
  {
    wallDelta * Cores(cpuCount)
  }

  /** A share of the capacity, in percent, never above 100. */
  function Percent(busy: nat, capacity: nat): real
    requires capacity > 0
  {
    var p := busy as real * 100.0 / capacity as real;
    if p > 100.0 then 100.0 else p
  }

  function JoinItem(prev: seq<ProcessInfo>, capacity: nat, item: ProcessInfo): ProcessInfo
    requires capacity > 0
  {
    match Find(prev, item.pid)
    case None => item
    case Some(k) =>
      if !prev[k].cpuKnown || !item.cpuKnown || item.cpuTimeNs < prev[k].cpuTimeNs then item
      else item.(cpuPercent := Percent(item.cpuTimeNs - prev[k].cpuTimeNs, capacity))
  }

  function Join(prev: seq<ProcessInfo>, capacity: nat): ProcessInfo -> ProcessInfo
    requires capacity > 0
  {
    (item: ProcessInfo) => JoinItem(prev, capacity, item)
  }

  function ApplyCpu(cur: Sample, prev: Sample, cpuCount: nat): seq<ProcessInfo> {
    if prev.items == [] || cur.wallNs <= prev.wallNs then cur.items
    else Map(Join(prev.items, Capacity(cur.wallNs - prev.wallNs, cpuCount)), cur.items)
  }

  // ---------- The name filter ----------

  predicate MatchesAt(haystack: string, needle: string, i: nat) {
    i + |needle| <= |haystack| &&
    forall j :: 0 <= j < |needle| ==> ToLower(haystack[i + j]) == ToLower(needle[j])
  }

  predicate ContainsFold(haystack: string, needle: string) {
    exists i :: 0 <= i <= |haystack| && MatchesAt(haystack, needle, i)
  }

  function Keep(needle: string): ProcessInfo -> seq<ProcessInfo> {
    (info: ProcessInfo) => if ContainsFold(info.name, needle) then [info] else []
  }

  function Filter(s: seq<ProcessInfo>, needle: string): seq<ProcessInfo> {
    if needle == "" then s else FlatMap(Keep(needle), s)
  }

  // ---------- The orders ----------

  function ComparePid(a: ProcessInfo, b: ProcessInfo): int {
    if a.pid < b.pid then -1 else if a.pid > b.pid then 1 else 0
  }

  /** Names byte by byte, ignoring case, from position i on; the shorter of two names that agree
      comes first. */
  function CompareNamesFrom(x: string, y: string, i: nat): int
    requires i <= |x| && i <= |y|
    decreases |x| - i
  {
    if i == |x| && i == |y| then 0
    else if i == |x| then -1
    else if i == |y| then 1
    else if ToLower(x[i]) != ToLower(y[i]) then (if ToLower(x[i]) < ToLower(y[i]) then -1 else 1)
    else CompareNamesFrom(x, y, i + 1)
  }

  function Compare(key: SortKey, a: ProcessInfo, b: ProcessInfo): int {
    match key
    case ByCpu =>
      if a.cpuPercent > b.cpuPercent then -1 else if a.cpuPercent < b.cpuPercent then 1 else ComparePid(a, b)
    case ByMem =>
      if a.memBytes > b.memBytes then -1 else if a.memBytes < b.memBytes then 1 else ComparePid(a, b)
    case ByPid => ComparePid(a, b)
    case ByName =>
      var c := CompareNamesFrom(a.name, b.name, 0);
      if c != 0 then c else ComparePid(a, b)
  }

  ghost predicate Sorted(key: SortKey, s: seq<ProcessInfo>) {
    forall i, j :: 0 <= i < j < |s| ==> Compare(key, s[i], s[j]) <= 0
  }

  /** All that the C standard promises of qsort (section 7.22.5.2 of ISO/IEC 9899:2011): equal
      elements may come out in either order. */
  ghost predicate SortedPermutation(key: SortKey, s: seq<ProcessInfo>, t: seq<ProcessInfo>) {
    Sorted(key, t) && multiset(t) == multiset(s)
  }
}
