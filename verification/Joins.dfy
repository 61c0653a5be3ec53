/** The CPU join three times over: C scans the previous list for every item, C++ builds a hash map
    from pid to CPU time first (cpp/src/ProcessModel.cpp), and C# a dictionary of groups
    (csharp/src/ProcMon/ProcessSampler.cs). */
module Joins {
  import opened Basics
  import opened ProcessModel

  // ---------- The C++ data ----------

  /** A process as C++ holds it: unknown values are absent, not flagged. */
  datatype CppInfo = CppInfo(
    pid: u32, name: string, memBytes: Option<u64>, threads: u32, cpuTimeNs: Option<u64>, cpuPercent: real)

  /** std::unordered_map::emplace: an existing entry stays. */
  function Emplace(m: map<u32, u64>, key: u32, value: u64): map<u32, u64> {
    if key in m then m else m[key := value]
  }

  /** The map that the first loop builds. */
  function Index(prev: seq<CppInfo>): map<u32, u64> {
    if prev == [] then map[]
    else
      var n := |prev| - 1;
      if prev[n].cpuTimeNs.Some? then Emplace(Index(prev[..n]), prev[n].pid, prev[n].cpuTimeNs.value)
      else Index(prev[..n])
  }

  function IndexedItem(before: map<u32, u64>, capacity: nat, info: CppInfo): CppInfo
    requires capacity > 0
  {
    if info.cpuTimeNs.None? || info.pid !in before || info.cpuTimeNs.value < before[info.pid] then info
    else info.(cpuPercent := Percent(info.cpuTimeNs.value - before[info.pid], capacity))
  }

  function IndexedJoin(before: map<u32, u64>, capacity: nat, cur: seq<CppInfo>): seq<CppInfo>
    requires capacity > 0
  {
    seq(|cur|, i requires 0 <= i < |cur| => IndexedItem(before, capacity, cur[i]))
  }

  /** applyCpuPercent as a function of the two lists and their times. */
  function CppJoin(cur: seq<CppInfo>, curAt: int, prev: seq<CppInfo>, prevAt: int, cpuCount: nat): seq<CppInfo> {
    if prev == [] || curAt - prevAt <= 0 then cur
    else IndexedJoin(Index(prev), Capacity(curAt - prevAt, cpuCount), cur)
  }

  class CppSample {
    var processes: seq<CppInfo>
    var takenAt: int

    constructor (processes: seq<CppInfo>, takenAt: int)
      ensures this.processes == processes && this.takenAt == takenAt
    {
      this.processes := processes;
      this.takenAt := takenAt;
    }

    /** applyCpuPercent with `this` as the current sample. */
    method ApplyCpuPercent(previous: CppSample, cpuCount: nat)
      requires previous != this
      modifies this`processes
      ensures processes
           == CppJoin(old(processes), takenAt, previous.processes, previous.takenAt, cpuCount)
    {
      if previous.processes == [] {
        return;
      }
      var wallDelta := takenAt - previous.takenAt;
      if wallDelta <= 0 {
        return;
      }
      var cores := if cpuCount == 0 then 1 else cpuCount;

      var before := IndexOf(previous.processes);
      var capacity := wallDelta * cores;
      for i := 0 to |processes|
        invariant |processes| == |old(processes)|
        invariant forall j :: 0 <= j < i ==> processes[j] == IndexedItem(before, capacity, old(processes)[j])
        invariant forall j :: i <= j < |processes| ==> processes[j] == old(processes)[j]
      {
        var info := processes[i];
        if info.cpuTimeNs.None? {
          continue;
        }
        if info.pid !in before || info.cpuTimeNs.value < before[info.pid] {
          continue;
        }
        var busy := info.cpuTimeNs.value - before[info.pid];
        var share := busy as real * 100.0 / capacity as real;
        processes := processes[i := info.(cpuPercent := if share > 100.0 then 100.0 else share)];
      }
    }
  }

  /** The first loop of applyCpuPercent. */
  method IndexOf(processes: seq<CppInfo>) returns (before: map<u32, u64>)
    ensures before == Index(processes)
  {
    before := map[];
    for i := 0 to |processes|
      invariant before == Index(processes[..i])
    {
      var info := processes[i];
      assert processes[..i + 1][..i] == processes[..i];
      if info.cpuTimeNs.Some? && info.pid !in before {
        before := before[info.pid := info.cpuTimeNs.value];
      }
    }
    assert processes[..|processes|] == processes;
  }

  // ---------- C against C++ ----------

  function ToCpp(info: ProcessInfo): CppInfo {
    CppInfo(info.pid, info.name, if info.memKnown then Some(info.memBytes) else None, info.threads,
            if info.cpuKnown then Some(info.cpuTimeNs) else None, info.cpuPercent)
  }

  /** The first entry of the pid with a known CPU time, from position i on. */
  function FirstKnown(prev: seq<ProcessInfo>, pid: u32, i: nat): (r: Option<nat>)
    requires i <= |prev|
    ensures r.Some? ==> i <= r.value < |prev| && prev[r.value].pid == pid && prev[r.value].cpuKnown
                        && forall j :: i <= j < r.value ==> !(prev[j].pid == pid && prev[j].cpuKnown)
    ensures r.None? ==> forall j :: i <= j < |prev| ==> !(prev[j].pid == pid && prev[j].cpuKnown)
    decreases |prev| - i
  {
    if i == |prev| then None
    else if prev[i].pid == pid && prev[i].cpuKnown then Some(i)
    else FirstKnown(prev, pid, i + 1)
  }

  lemma FirstKnownOfPrefix(prev: seq<ProcessInfo>, pid: u32)
    requires prev != []
    ensures FirstKnown(prev, pid, 0)
         == if FirstKnown(prev[..|prev| - 1], pid, 0).Some? then FirstKnown(prev[..|prev| - 1], pid, 0)
            else if prev[|prev| - 1].pid == pid && prev[|prev| - 1].cpuKnown then Some(|prev| - 1)
            else None
  {
    var n := |prev| - 1;
    var r, q := FirstKnown(prev, pid, 0), FirstKnown(prev[..n], pid, 0);
    assert forall j :: 0 <= j < n ==> prev[..n][j] == prev[j];
    if q.Some? {
      assert prev[q.value].pid == pid && prev[q.value].cpuKnown;
    }
  }

  /** The hash map holds, for each pid, the CPU time of its first entry that has one. */
  lemma {:induction false} IndexIsFirstKnown(prev: seq<ProcessInfo>, pid: u32)
    ensures pid in Index(Map(ToCpp, prev)) <==> FirstKnown(prev, pid, 0).Some?
    ensures pid in Index(Map(ToCpp, prev)) ==>
              Index(Map(ToCpp, prev))[pid] == prev[FirstKnown(prev, pid, 0).value].cpuTimeNs
  {
    if prev != [] {
      var n := |prev| - 1;
      IndexIsFirstKnown(prev[..n], pid);
      FirstKnownOfPrefix(prev, pid);
      assert Map(ToCpp, prev)[..n] == Map(ToCpp, prev[..n]);
      assert Map(ToCpp, prev)[n] == ToCpp(prev[n]);
    } else {
      assert Map(ToCpp, prev) == [];
    }
  }

  /** For the pid, the first entry decides: it has a known CPU time, or no entry has. */
  predicate FirstEntryDecidesFor(prev: seq<ProcessInfo>, pid: u32) {
    var k := Find(prev, pid);
    k.Some? ==> prev[k.value].cpuKnown || FirstKnown(prev, pid, 0).None?
  }

  /** It decides, or the known CPU time of a later entry leaves no room for one more unit of time. */
  predicate DecidedFor(prev: seq<ProcessInfo>, pid: u32, unit: nat) {
    FirstEntryDecidesFor(prev, pid) || prev[FirstKnown(prev, pid, 0).value].cpuTimeNs + unit >= TWO_64
  }

  ghost predicate Decided(prev: seq<ProcessInfo>, unit: nat) {
    forall i :: 0 <= i < |prev| ==> DecidedFor(prev, prev[i].pid, unit)
  }

  lemma DecidedForAll(prev: seq<ProcessInfo>, pid: u32, unit: nat)
    requires Decided(prev, unit)
    ensures DecidedFor(prev, pid, unit)
  {
    if Find(prev, pid).Some? {
      assert DecidedFor(prev, prev[Find(prev, pid).value].pid, unit);
    }
  }

  /** A list as it is before the join: every percentage is zero. */
  ghost predicate Unjoined(s: seq<ProcessInfo>) { forall i :: 0 <= i < |s| ==> s[i].cpuPercent == 0.0 }

  /** The two joins assign the same percentage to every item. */
  ghost predicate JoinsAgree(prev: seq<ProcessInfo>, capacity: nat, cur: seq<ProcessInfo>)
    requires capacity > 0
  {
    IndexedJoin(Index(Map(ToCpp, prev)), capacity, Map(ToCpp, cur)) == Map(ToCpp, Map(Join(prev, capacity), cur))
  }

  lemma ItemJoinsAgree(prev: seq<ProcessInfo>, capacity: nat, item: ProcessInfo)
    requires capacity > 0 && item.cpuPercent == 0.0 && DecidedFor(prev, item.pid, 1)
    ensures IndexedItem(Index(Map(ToCpp, prev)), capacity, ToCpp(item)) == ToCpp(JoinItem(prev, capacity, item))
  {
    IndexIsFirstKnown(prev, item.pid);
    assert Percent(0, capacity) == 0.0;
  }

  /** A record with the given CPU time as a snapshot yields it. */
  function Snapped(pid: u32, cpuTimeNs: u64): ProcessInfo { ProcessInfo(pid, "", 0, 0, cpuTimeNs, 0.0, false, true) }

  lemma PositivePercent(busy: nat, capacity: nat)
    requires busy > 0 && capacity > 0
    ensures Percent(busy, capacity) > 0.0
  {
    assert busy as real * 100.0 / capacity as real > 0.0;
  }

  /** Where that fails, one nanosecond more than the later entry tells the joins apart: C++ finds the
      process busy, while C looks at the first entry only and leaves it at zero. */
  lemma ItemJoinsDiffer(prev: seq<ProcessInfo>, capacity: nat, pid: u32)
    requires capacity > 0 && !DecidedFor(prev, pid, 1)
    ensures !JoinsAgree(prev, capacity, [Snapped(pid, prev[FirstKnown(prev, pid, 0).value].cpuTimeNs + 1)])
  {
    IndexIsFirstKnown(prev, pid);
    var item := Snapped(pid, prev[FirstKnown(prev, pid, 0).value].cpuTimeNs + 1);
    PositivePercent(1, capacity);
    assert IndexedItem(Index(Map(ToCpp, prev)), capacity, ToCpp(item)).cpuPercent > 0.0;
    assert JoinItem(prev, capacity, item) == item;
    assert IndexedJoin(Index(Map(ToCpp, prev)), capacity, Map(ToCpp, [item]))[0]
        != Map(ToCpp, Map(Join(prev, capacity), [item]))[0];
  }

  lemma ListJoinsAgree(prev: seq<ProcessInfo>, capacity: nat, cur: seq<ProcessInfo>)
    requires capacity > 0 && Decided(prev, 1) && Unjoined(cur)
    ensures JoinsAgree(prev, capacity, cur)
  {
    forall i | 0 <= i < |cur|
      ensures IndexedItem(Index(Map(ToCpp, prev)), capacity, ToCpp(cur[i])) == ToCpp(JoinItem(prev, capacity, cur[i]))
    {
      DecidedForAll(prev, cur[i].pid, 1);
      ItemJoinsAgree(prev, capacity, cur[i]);
    }
  }

  /** The indexed join and the linear one agree on every list that a snapshot can yield exactly when, for
      each pid of the previous list, the first entry has a CPU time, or none has, or the first known one
      is the largest there is. */
  lemma JoinsAgreeIff(prev: seq<ProcessInfo>, capacity: nat)
    requires capacity > 0
    ensures Decided(prev, 1) <==> forall cur: seq<ProcessInfo> :: Unjoined(cur) ==> JoinsAgree(prev, capacity, cur)
  {
    if Decided(prev, 1) {
      forall cur: seq<ProcessInfo> | Unjoined(cur)
        ensures JoinsAgree(prev, capacity, cur)
      {
        ListJoinsAgree(prev, capacity, cur);
      }
    } else {
      var i :| 0 <= i < |prev| && !DecidedFor(prev, prev[i].pid, 1);
      ItemJoinsDiffer(prev, capacity, prev[i].pid);
    }
  }

  /** Distinct pids, as the system lists them, meet the condition. */
  lemma DistinctPidsDecide(prev: seq<ProcessInfo>, unit: nat)
    requires DistinctPids(prev)
    ensures Decided(prev, unit)
  {
    forall i | 0 <= i < |prev| ensures FirstEntryDecidesFor(prev, prev[i].pid) {
      var k := FirstKnown(prev, prev[i].pid, 0);
      if k.Some? {
        assert prev[k.value].pid == prev[i].pid;
      }
    }
  }

  /** So do lists in which every CPU time is known, with pids repeated or not. */
  lemma KnownTimesDecide(prev: seq<ProcessInfo>, unit: nat)
    requires forall i :: 0 <= i < |prev| ==> prev[i].cpuKnown
    ensures Decided(prev, unit)
  {
  }

  /** The whole of applyCpuPercent against the whole of proc_apply_cpu. */
  lemma ApplyJoinsAgree(cur: Sample, prev: Sample, cpuCount: nat)
    requires Decided(prev.items, 1) && Unjoined(cur.items)
    ensures CppJoin(Map(ToCpp, cur.items), cur.wallNs, Map(ToCpp, prev.items), prev.wallNs, cpuCount)
         == Map(ToCpp, ApplyCpu(cur, prev, cpuCount))
  {
    if prev.items != [] && cur.wallNs > prev.wallNs {
      ListJoinsAgree(prev.items, Capacity(cur.wallNs - prev.wallNs, cpuCount), cur.items);
    }
  }

  // ---------- C# against C ----------

  /** A process as C# holds it. Times are TimeSpan ticks of 100 nanoseconds. */
  datatype CsInfo = CsInfo(pid: int, name: string, memoryBytes: Option<int>, threads: Option<int>,
                           cpuTime: Option<int>, cpuPercent: real)

  const NS_PER_TICK: nat := 100
  const TICKS_PER_MS: real := 10000.0

  function TotalMilliseconds(ticks: int): real { ticks as real / TICKS_PER_MS }

  /** Where clause of the LINQ query. */
  function WithCpuTime(prev: seq<CsInfo>): seq<CsInfo> {
    FlatMap(HasCpuTime(), prev)
  }

  function HasCpuTime(): CsInfo -> seq<CsInfo> {
    (info: CsInfo) => if info.cpuTime.Some? then [info] else []
  }

  /** GroupBy keeps the order of the source within a group, so First() of the group of a pid is the
      first element with that pid; the dictionary has a key for every group. */
  function GroupFirst(known: seq<CsInfo>, pid: int): Option<CsInfo> {
    if known == [] then None
    else
      var n := |known| - 1;
      match GroupFirst(known[..n], pid)
      case Some(info) => Some(info)
      case None => if known[n].pid == pid then Some(known[n]) else None
  }

  function CsItem(prev: seq<CsInfo>, elapsed: int, cores: nat, info: CsInfo): CsInfo
    requires elapsed > 0 && cores > 0
  {
    var earlier := GroupFirst(WithCpuTime(prev), info.pid);
    if info.cpuTime.None? || earlier.None? || earlier.value.cpuTime.None? then info
    else
      var busy := info.cpuTime.value - earlier.value.cpuTime.value;
      if busy < 0 then info else info.(cpuPercent := CsPercent(busy, elapsed, cores))
  }

  /** ApplyCpuPercent: a new list of records, the arguments untouched. The elapsed time is passed as
      Stopwatch.GetElapsedTime gives it. */
  function CsApplyCpuPercent(cur: seq<CsInfo>, prev: seq<CsInfo>, elapsed: int, cpuCount: int): seq<CsInfo> {
    if prev == [] || elapsed <= 0 then cur
    else
      var cores: nat := if cpuCount <= 0 then 1 else cpuCount;
      seq(|cur|, i requires 0 <= i < |cur| => CsItem(prev, elapsed, cores, cur[i]))
  }

  /** The same process in C, with its CPU time in nanoseconds. */
  ghost predicate SameProcess(c: CsInfo, info: ProcessInfo) {
    && c.pid == info.pid
    && c.cpuPercent == info.cpuPercent
    && (c.cpuTime.Some? <==> info.cpuKnown)
    && (c.cpuTime.Some? ==> c.cpuTime.value * NS_PER_TICK == info.cpuTimeNs)
  }

  ghost predicate SameProcesses(cs: seq<CsInfo>, s: seq<ProcessInfo>) {
    |cs| == |s| && forall i :: 0 <= i < |s| ==> SameProcess(cs[i], s[i])
  }

  lemma {:induction false} GroupFirstIsFirstKnown(cs: seq<CsInfo>, prev: seq<ProcessInfo>, pid: u32)
    requires SameProcesses(cs, prev)
    ensures var g := GroupFirst(WithCpuTime(cs), pid);
            var k := FirstKnown(prev, pid, 0);
            && (g.Some? <==> k.Some?)
            && (g.Some? ==> SameProcess(g.value, prev[k.value]))
  {
    if prev != [] {
      var n := |prev| - 1;
      GroupFirstIsFirstKnown(cs[..n], prev[..n], pid);
      var known := WithCpuTime(cs[..n]);
      FirstKnownOfPrefix(prev, pid);
      FlatMapLast(HasCpuTime(), cs);
      assert SameProcess(cs[n], prev[n]);
      if cs[n].cpuTime.Some? {
        assert WithCpuTime(cs) == known + [cs[n]];
        assert (known + [cs[n]])[..|known|] == known;
      } else {
        assert WithCpuTime(cs) == known;
      }
    }
  }

  /** The percentage of C#, from TimeSpan ticks. */
  function CsPercent(busy: nat, elapsed: nat, cores: nat): real
    requires elapsed > 0 && cores > 0
  {
    assert TotalMilliseconds(elapsed) * cores as real > 0.0;
    var percent := TotalMilliseconds(busy) * 100.0 / (TotalMilliseconds(elapsed) * cores as real);
    if percent > 100.0 then 100.0 else percent
  }

  lemma RatioOfTicks(b: real, e: real, c: real)
    requires e > 0.0 && c > 0.0
    ensures e / TICKS_PER_MS * c > 0.0 && 100.0 * (e * c) > 0.0
    ensures b / TICKS_PER_MS * 100.0 / (e / TICKS_PER_MS * c) == b * 100.0 * 100.0 / (100.0 * (e * c))
  {
    var d := e * c;
    assert d > 0.0;
    assert e / TICKS_PER_MS * c == d / TICKS_PER_MS;
    QuotientScales(b / TICKS_PER_MS * 100.0, d / TICKS_PER_MS, 1000000.0);
    assert b / TICKS_PER_MS * 100.0 * 1000000.0 == b * 100.0 * 100.0;
    assert d / TICKS_PER_MS * 1000000.0 == 100.0 * d;
  }

  lemma CapacityOfTicks(elapsed: nat, cpuCount: nat)
    ensures Capacity(elapsed * NS_PER_TICK, cpuCount) as real == 100.0 * (elapsed as real * Cores(cpuCount) as real)
  {
    var e, c := elapsed, Cores(cpuCount);
    assert e * NS_PER_TICK * c == 100 * (e * c);
    assert (e * c) as real == e as real * c as real;
  }

  /** Milliseconds of 100-nanosecond ticks give the same ratio as nanoseconds. */
  lemma UnitsCancel(busy: nat, elapsed: nat, cpuCount: nat)
    requires elapsed > 0
    ensures CsPercent(busy, elapsed, Cores(cpuCount))
         == Percent(busy * NS_PER_TICK, Capacity(elapsed * NS_PER_TICK, cpuCount))
  {
    RatioOfTicks(busy as real, elapsed as real, Cores(cpuCount) as real);
    CapacityOfTicks(elapsed, cpuCount);
    var num, den := (busy * NS_PER_TICK) as real * 100.0, Capacity(elapsed * NS_PER_TICK, cpuCount) as real;
    assert num == busy as real * 100.0 * 100.0;
    SameQuotient(num, den, busy as real * 100.0 * 100.0, 100.0 * (elapsed as real * Cores(cpuCount) as real));
    assert Percent(busy * NS_PER_TICK, Capacity(elapsed * NS_PER_TICK, cpuCount))
        == if num / den > 100.0 then 100.0 else num / den;
    assert TotalMilliseconds(busy) * 100.0 / (TotalMilliseconds(elapsed) * Cores(cpuCount) as real) == num / den;
  }

  lemma SameQuotient(a: real, b: real, c: real, d: real)
    requires a == c && b == d && b != 0.0
    ensures a / b == c / d
  {
  }

  lemma QuotientScales(a: real, b: real, k: real)
    requires b > 0.0 && k > 0.0
    ensures b * k > 0.0 && a / b == (a * k) / (b * k)
  {
    var q := a / b;
    assert q * b == a;
    assert q * (b * k) == a * k;
  }

  lemma CsItemAgrees(cs': seq<CsInfo>, prev: seq<ProcessInfo>, elapsed: nat, cpuCount: nat,
                     c: CsInfo, item: ProcessInfo)
    requires elapsed > 0 && SameProcesses(cs', prev) && SameProcess(c, item)
    requires item.cpuPercent == 0.0 && DecidedFor(prev, item.pid, NS_PER_TICK)
    ensures SameProcess(CsItem(cs', elapsed, Cores(cpuCount), c),
                        JoinItem(prev, Capacity(elapsed * NS_PER_TICK, cpuCount), item))
  {
    GroupFirstIsFirstKnown(cs', prev, item.pid);
    var earlier := GroupFirst(WithCpuTime(cs'), item.pid);
    if c.cpuTime.Some? && earlier.Some? && c.cpuTime.value >= earlier.value.cpuTime.value {
      var busy := c.cpuTime.value - earlier.value.cpuTime.value;
      UnitsCancel(busy, elapsed, cpuCount);
      assert busy * NS_PER_TICK == item.cpuTimeNs - prev[FirstKnown(prev, item.pid, 0).value].cpuTimeNs;
      if !FirstEntryDecidesFor(prev, item.pid) {
        assert busy == 0;
        assert Percent(0, Capacity(elapsed * NS_PER_TICK, cpuCount)) == 0.0;
      }
    }
  }

  lemma CsElement(cs: seq<CsInfo>, cs': seq<CsInfo>, elapsed: nat, cpuCount: nat, i: nat)
    requires cs' != [] && elapsed > 0 && i < |cs|
    ensures |CsApplyCpuPercent(cs, cs', elapsed, cpuCount)| == |cs|
    ensures CsApplyCpuPercent(cs, cs', elapsed, cpuCount)[i] == CsItem(cs', elapsed, Cores(cpuCount), cs[i])
  {
  }

  lemma JoinedElement(cur: Sample, prev: Sample, elapsed: nat, cpuCount: nat, i: nat)
    requires prev.items != [] && elapsed > 0 && i < |cur.items|
    requires cur.wallNs == prev.wallNs + elapsed * NS_PER_TICK
    ensures |ApplyCpu(cur, prev, cpuCount)| == |cur.items|
    ensures ApplyCpu(cur, prev, cpuCount)[i]
         == JoinItem(prev.items, Capacity(elapsed * NS_PER_TICK, cpuCount), cur.items[i])
  {
  }

  lemma CsElementAgrees(cs: seq<CsInfo>, cs': seq<CsInfo>, cur: Sample, prev: Sample, elapsed: nat, cpuCount: nat,
                        i: nat)
    requires SameProcesses(cs, cur.items) && SameProcesses(cs', prev.items)
    requires prev.items != [] && elapsed > 0 && i < |cs|
    requires cur.wallNs == prev.wallNs + elapsed * NS_PER_TICK
    requires Unjoined(cur.items) && Decided(prev.items, NS_PER_TICK)
    ensures |CsApplyCpuPercent(cs, cs', elapsed, cpuCount)| == |ApplyCpu(cur, prev, cpuCount)| == |cs|
    ensures SameProcess(CsApplyCpuPercent(cs, cs', elapsed, cpuCount)[i], ApplyCpu(cur, prev, cpuCount)[i])
  {
    CsElement(cs, cs', elapsed, cpuCount, i);
    JoinedElement(cur, prev, elapsed, cpuCount, i);
    DecidedForAll(prev.items, cur.items[i].pid, NS_PER_TICK);
    CsItemAgrees(cs', prev.items, elapsed, cpuCount, cs[i], cur.items[i]);
  }

  /** The dictionary join of C# agrees with the linear join of C, although it computes in milliseconds. */
  lemma CsJoinAgrees(cs: seq<CsInfo>, cs': seq<CsInfo>, cur: Sample, prev: Sample, elapsed: int, cpuCount: nat)
    requires SameProcesses(cs, cur.items) && SameProcesses(cs', prev.items)
    requires cur.wallNs == prev.wallNs + elapsed * NS_PER_TICK
    requires Unjoined(cur.items) && Decided(prev.items, NS_PER_TICK)
    ensures SameProcesses(CsApplyCpuPercent(cs, cs', elapsed, cpuCount), ApplyCpu(cur, prev, cpuCount))
  {
    if cs != [] && prev.items != [] && elapsed > 0 {
      var left, right := CsApplyCpuPercent(cs, cs', elapsed, cpuCount), ApplyCpu(cur, prev, cpuCount);
      CsElementAgrees(cs, cs', cur, prev, elapsed, cpuCount, 0);
      forall i | 0 <= i < |cs|
        ensures SameProcess(left[i], right[i])
      {
        CsElementAgrees(cs, cs', cur, prev, elapsed, cpuCount, i);
      }
    }
  }

  /** A record one unit of C#'s time busier than a later entry, in C# and in C. */
  lemma CsJoinDiffers(cs': seq<CsInfo>, prev: Sample, elapsed: nat, cpuCount: nat, pid: u32)
    returns (c: CsInfo, item: ProcessInfo)
    requires SameProcesses(cs', prev.items) && !DecidedFor(prev.items, pid, NS_PER_TICK)
    requires elapsed > 0 && prev.wallNs + elapsed * NS_PER_TICK < TWO_64
    ensures SameProcess(c, item) && item.cpuPercent == 0.0
    ensures !SameProcess(CsItem(cs', elapsed, Cores(cpuCount), c),
                         JoinItem(prev.items, Capacity(elapsed * NS_PER_TICK, cpuCount), item))
  {
    GroupFirstIsFirstKnown(cs', prev.items, pid);
    var earlier := GroupFirst(WithCpuTime(cs'), pid).value;
    item := Snapped(pid, prev.items[FirstKnown(prev.items, pid, 0).value].cpuTimeNs + NS_PER_TICK);
    c := CsInfo(pid, "", None, None, Some(earlier.cpuTime.value + 1), 0.0);
    UnitsCancel(1, elapsed, cpuCount);
    PositivePercent(NS_PER_TICK, Capacity(elapsed * NS_PER_TICK, cpuCount));
    assert JoinItem(prev.items, Capacity(elapsed * NS_PER_TICK, cpuCount), item) == item;
  }

  /** Both joins on one pair of lists, the interval being positive. */
  ghost predicate CsAgrees(cs': seq<CsInfo>, prev: Sample, elapsed: nat, cpuCount: nat,
                           cs: seq<CsInfo>, s: seq<ProcessInfo>)
    requires prev.wallNs + elapsed * NS_PER_TICK < TWO_64
  {
    SameProcesses(CsApplyCpuPercent(cs, cs', elapsed, cpuCount),
                  ApplyCpu(Sample(s, prev.wallNs + elapsed * NS_PER_TICK), prev, cpuCount))
  }

  /** They agree on every list that a snapshot can yield exactly when the first entry decides in the
      previous list, or no later CPU time fits. */
  lemma CsJoinAgreesIff(cs': seq<CsInfo>, prev: Sample, elapsed: nat, cpuCount: nat)
    requires SameProcesses(cs', prev.items)
    requires elapsed > 0 && prev.wallNs + elapsed * NS_PER_TICK < TWO_64
    ensures Decided(prev.items, NS_PER_TICK)
       <==> forall cs, s :: SameProcesses(cs, s) && Unjoined(s) ==> CsAgrees(cs', prev, elapsed, cpuCount, cs, s)
  {
    if Decided(prev.items, NS_PER_TICK) {
      forall cs, s | SameProcesses(cs, s) && Unjoined(s)
        ensures CsAgrees(cs', prev, elapsed, cpuCount, cs, s)
      {
        CsJoinAgrees(cs, cs', Sample(s, prev.wallNs + elapsed * NS_PER_TICK), prev, elapsed, cpuCount);
      }
    } else {
      var cs, s := CsJoinFails(cs', prev, elapsed, cpuCount);
    }
  }

  lemma CsJoinFails(cs': seq<CsInfo>, prev: Sample, elapsed: nat, cpuCount: nat)
    returns (cs: seq<CsInfo>, s: seq<ProcessInfo>)
    requires SameProcesses(cs', prev.items) && !Decided(prev.items, NS_PER_TICK)
    requires elapsed > 0 && prev.wallNs + elapsed * NS_PER_TICK < TWO_64
    ensures SameProcesses(cs, s) && Unjoined(s) && !CsAgrees(cs', prev, elapsed, cpuCount, cs, s)
  {
    var i :| 0 <= i < |prev.items| && !DecidedFor(prev.items, prev.items[i].pid, NS_PER_TICK);
    var c, item := CsJoinDiffers(cs', prev, elapsed, cpuCount, prev.items[i].pid);
    CsSingleDiffers(cs', prev, elapsed, cpuCount, c, item);
    cs, s := [c], [item];
  }

  lemma CsSingleDiffers(cs': seq<CsInfo>, prev: Sample, elapsed: nat, cpuCount: nat, c: CsInfo, item: ProcessInfo)
    requires SameProcesses(cs', prev.items) && prev.items != []
    requires elapsed > 0 && prev.wallNs + elapsed * NS_PER_TICK < TWO_64
    requires !SameProcess(CsItem(cs', elapsed, Cores(cpuCount), c),
                          JoinItem(prev.items, Capacity(elapsed * NS_PER_TICK, cpuCount), item))
    ensures !CsAgrees(cs', prev, elapsed, cpuCount, [c], [item])
  {
    CsElement([c], cs', elapsed, cpuCount, 0);
    JoinedElement(Sample([item], prev.wallNs + elapsed * NS_PER_TICK), prev, elapsed, cpuCount, 0);
  }
}
