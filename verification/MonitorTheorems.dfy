/** What every run of the monitor shows: the screen does not depend on the order in which the system
    lists processes, nor on how the library sorts; its rows are the topmost matching processes, with
    honest percentages. */
module MonitorTheorems {
  import opened Arithmetic
  import opened Basics
  import opened Numbers
  import opened ProcessModel
  import opened Ordering
  import opened StatParser
  import opened Snapshots
  import opened CpuShare
  import opened Render
  import opened Args
  import opened Monitor
  import opened StatAgreement
  import opened StatBuffer
  import Utf8

  // ---------- One frame ----------

  /** The frame as a function of what was measured. */
  function FrameFor(measured: Sample, options: Settings): Frame {
    FrameOf(Sort(options.sort, Filter(measured.items, options.filter)), options.top)
  }

  /** With distinct pids the frame is determined, although qsort is not stable. */
  lemma FrameIsDetermined(frame: Frame, measured: Sample, options: Settings)
    requires DistinctPids(measured.items)
    ensures Shows(frame, measured, options) <==> frame == FrameFor(measured, options)
  {
    var filtered := Filter(measured.items, options.filter);
    FilterKeepsDistinct(measured.items, options.filter);
    forall list
      ensures SortedPermutation(options.sort, filtered, list) <==> list == Sort(options.sort, filtered)
    {
      QsortIsDeterministic(options.sort, filtered, list);
    }
    assert SortedPermutation(options.sort, filtered, Sort(options.sort, filtered));
  }

  /** Sorting before filtering would give the same frame. */
  lemma SortingFirstIsTheSame(measured: Sample, options: Settings)
    requires DistinctPids(measured.items)
    ensures FrameFor(measured, options)
         == FrameOf(Filter(Sort(options.sort, measured.items), options.filter), options.top)
  {
    FilterAndSortCommute(options.sort, measured.items, options.filter);
  }

  lemma FilteredMatches(s: seq<ProcessInfo>, needle: string, x: ProcessInfo)
    requires x in Filter(s, needle)
    ensures x in s && ContainsFold(x.name, needle)
  {
    if needle == "" {
      EverythingMatchesEmpty(x.name);
    } else {
      var at := FilterKeepsMatches(s, needle);
      var i :| 0 <= i < |Filter(s, needle)| && Filter(s, needle)[i] == x;
      assert s[at[i]] == x;
    }
  }

  lemma MatchesAreFiltered(s: seq<ProcessInfo>, needle: string, x: ProcessInfo)
    requires x in s && ContainsFold(x.name, needle)
    ensures x in Filter(s, needle)
  {
    if needle != "" {
      var at := FilterKeepsMatches(s, needle);
      var k: nat :| k < |s| && s[k] == x;
      assert k in at;
      var i :| 0 <= i < |at| && at[i] == k;
      assert Filter(s, needle)[i] == x;
    }
  }

  /** The list behind a frame. */
  lemma ListBehind(frame: Frame, measured: Sample, options: Settings) returns (list: seq<ProcessInfo>)
    requires Shows(frame, measured, options)
    ensures |frame.rows| == Min(frame.total, options.top) && |list| == frame.total
    ensures Sorted(options.sort, list) && multiset(list) == multiset(Filter(measured.items, options.filter))
    ensures forall i :: 0 <= i < |frame.rows| ==>
              && frame.rows[i] == RowOf(list[i])
              && list[i] in measured.items && ContainsFold(list[i].name, options.filter)
    ensures forall x :: x in measured.items && ContainsFold(x.name, options.filter) ==> x in list
    ensures forall i, j :: 0 <= i < |frame.rows| <= j < |list| ==> Compare(options.sort, list[i], list[j]) <= 0
  {
    var filtered := Filter(measured.items, options.filter);
    list :| SortedPermutation(options.sort, filtered, list) && frame == FrameOf(list, options.top);
    forall i | 0 <= i < |list|
      ensures list[i] in measured.items && ContainsFold(list[i].name, options.filter)
    {
      assert list[i] in multiset(filtered);
      FilteredMatches(measured.items, options.filter, list[i]);
    }
    forall x | x in measured.items && ContainsFold(x.name, options.filter)
      ensures x in list
    {
      MatchesAreFiltered(measured.items, options.filter, x);
      assert x in multiset(list);
    }
  }

  /** The columns of a row: pid, the name cut to 30 bytes as far as C cuts it, memory and CPU usage where
      they are known, threads. */
  predicate IsRowOf(row: Row, info: ProcessInfo) {
    && row.pid == info.pid && row.threads == info.threads
    && row.name == info.name[..Utf8.CCut(info.name, 30)]
    && (if info.memKnown then row.mem == Some(info.memBytes) else row.mem == None)
    && (if info.cpuKnown then row.cpu == Some(info.cpuPercent) else row.cpu == None)
  }

  lemma RowIs(info: ProcessInfo)
    ensures IsRowOf(RowOf(info), info)
  {
  }

  /** What a frame means: behind its rows is a sorted list of the measured processes that match the
      filter, each as often as it was measured. The rows are the first of that list, so they are in
      order, and no matching process that was left out belongs before one shown. */
  lemma FrameShowsTopmost(frame: Frame, measured: Sample, options: Settings) returns (list: seq<ProcessInfo>)
    requires Shows(frame, measured, options)
    ensures |frame.rows| == Min(frame.total, options.top) && |list| == frame.total
    ensures Sorted(options.sort, list) && multiset(list) == multiset(Filter(measured.items, options.filter))
    ensures forall i :: 0 <= i < |frame.rows| ==>
              && IsRowOf(frame.rows[i], list[i])
              && list[i] in measured.items && ContainsFold(list[i].name, options.filter)
    ensures forall x :: x in measured.items && ContainsFold(x.name, options.filter) ==> x in list
    ensures forall i, j :: 0 <= i < |frame.rows| <= j < |list| ==> Compare(options.sort, list[i], list[j]) <= 0
  {
    list := ListBehind(frame, measured, options);
    forall i | 0 <= i < |frame.rows| ensures IsRowOf(frame.rows[i], list[i]) {
      RowIs(list[i]);
    }
  }

  // ---------- Percentages ----------

  lemma MeasuredPercentages(env: seq<Scan>, machine: Machine, cpuCount: nat, k: nat)
    requires k < |env|
    ensures forall i :: 0 <= i < |MeasuredIn(env, machine, cpuCount, k).items| ==>
              0.0 <= MeasuredIn(env, machine, cpuCount, k).items[i].cpuPercent <= 100.0
  {
    var samples := SamplesOf(env, machine);
    MeasuredFromRaw(samples, cpuCount, k);
    RecordsAreFresh(env[k].entries, machine);
    if k > 0 {
      JoinTouchesOnlyPercent(samples[k], samples[k - 1], cpuCount);
    }
  }

  /** Every percentage on the screen, in every round of every run, lies between 0 and 100. */
  lemma ShownPercentagesInRange(screen: seq<Frame>, env: seq<Scan>, machine: Machine, cpuCount: nat,
                                options: Settings, k: nat, i: nat)
    requires RunShown(screen, env, machine, cpuCount, options) && k < |screen| && i < |screen[k].rows|
    ensures screen[k].rows[i].cpu.Some? ==> 0.0 <= screen[k].rows[i].cpu.value <= 100.0
  {
    var measured := MeasuredIn(env, machine, cpuCount, k);
    var list := ListBehind(screen[k], measured, options);
    MeasuredPercentages(env, machine, cpuCount, k);
    var j :| 0 <= j < |measured.items| && measured.items[j] == list[i];
  }

  /** The first frame shows no CPU usage at all: a percentage needs two samples. */
  lemma FirstFrameShowsZero(screen: seq<Frame>, env: seq<Scan>, machine: Machine, cpuCount: nat, options: Settings,
                            i: nat)
    requires RunShown(screen, env, machine, cpuCount, options) && screen != [] && i < |screen[0].rows|
    ensures screen[0].rows[i].cpu.Some? ==> screen[0].rows[i].cpu.value == 0.0
  {
    var measured := MeasuredIn(env, machine, cpuCount, 0);
    var list := ListBehind(screen[0], measured, options);
    RecordsAreFresh(env[0].entries, machine);
    var j :| 0 <= j < |measured.items| && measured.items[j] == list[i];
  }

  // ---------- The order of listing ----------

  /** The same processes in another order. */
  ghost predicate SameScan(scan: Scan, scan': Scan) {
    multiset(scan.entries) == multiset(scan'.entries) && scan.wallNs == scan'.wallNs
  }

  /** In every round no pid is listed twice. */
  ghost predicate PidsDistinct(env: seq<Scan>, machine: Machine) {
    forall k :: 0 <= k < |env| ==> DistinctPids(ScanItems(env[k], machine))
  }

  lemma ScansPermute(scan: Scan, scan': Scan, machine: Machine)
    requires SameScan(scan, scan') && DistinctPids(ScanItems(scan, machine))
    ensures Rearranged(SampleOf(scan, machine), SampleOf(scan', machine))
  {
    SnapshotPermutes(scan, scan', machine);
  }

  lemma SamplesPermute(env: seq<Scan>, env': seq<Scan>, machine: Machine)
    requires |env| == |env'| && PidsDistinct(env, machine)
    requires forall j :: 0 <= j < |env| ==> SameScan(env[j], env'[j])
    ensures |SamplesOf(env, machine)| == |SamplesOf(env', machine)|
    ensures forall j :: 0 <= j < |env| ==> Rearranged(SamplesOf(env, machine)[j], SamplesOf(env', machine)[j])
  {
    forall j | 0 <= j < |env|
      ensures Rearranged(SamplesOf(env, machine)[j], SamplesOf(env', machine)[j])
    {
      ScansPermute(env[j], env'[j], machine);
    }
  }

  lemma SameFrame(frame: Frame, frame': Frame, measured: Sample, measured': Sample, options: Settings)
    requires Rearranged(measured, measured')
    requires Shows(frame, measured, options) && Shows(frame', measured', options)
    ensures frame == frame'
  {
    DistinctUnderPermutation(measured.items, measured'.items);
    FrameIsDetermined(frame, measured, options);
    FrameIsDetermined(frame', measured', options);
    FilterPermutes(measured.items, measured'.items, options.filter);
    FilterKeepsDistinct(measured.items, options.filter);
    SortIgnoresArrangement(options.sort, Filter(measured.items, options.filter),
                           Filter(measured'.items, options.filter));
  }

  /** Two runs over the same processes, listed in any two orders in each round and sorted by any two
      qsorts, show the same frame wherever both show one. */
  lemma ScreenIgnoresListing(screen: seq<Frame>, screen': seq<Frame>, env: seq<Scan>, env': seq<Scan>,
                             machine: Machine, cpuCount: nat, options: Settings, k: nat)
    requires |env| == |env'| && PidsDistinct(env, machine)
    requires forall j :: 0 <= j < |env| ==> SameScan(env[j], env'[j])
    requires RunShown(screen, env, machine, cpuCount, options) && RunShown(screen', env', machine, cpuCount, options)
    requires k < |screen| && k < |screen'|
    ensures screen[k] == screen'[k]
  {
    SamplesPermute(env, env', machine);
    MeasuredRearranged(SamplesOf(env, machine), SamplesOf(env', machine), cpuCount, k);
    SameFrame(screen[k], screen'[k], MeasuredIn(env, machine, cpuCount, k), MeasuredIn(env', machine, cpuCount, k),
              options);
  }

  /** What the theorem asks of the pids holds of every run over directories of processes. */
  lemma DirectoriesArePidsDistinct(env: seq<Scan>, machine: Machine)
    requires machine.strtoull == Strtoul
    requires forall k :: 0 <= k < |env| ==> ListsPids(env[k]) && NamesDistinct(env[k].entries)
    ensures PidsDistinct(env, machine)
  {
    forall k | 0 <= k < |env| ensures DistinctPids(ScanItems(env[k], machine)) {
      ListedPidsAreDistinct(env[k], machine);
    }
  }

  /** A run shows no frame from an unlistable /proc on. If it has a round there it is cut short, and exits
      with code 3, though the monitor looks for no target. */
  lemma UnlistableCutsShort(screen: seq<Frame>, env: seq<Scan>, machine: Machine, cpuCount: nat, options: Settings,
                            k: nat)
    requires RunShown(screen, env, machine, cpuCount, options)
    requires k < |env| && !env[k].listable
    ensures |screen| <= k
  {
    var measured := MeasuredIn(env, machine, cpuCount, k);
  }

  // ---------- The CPU column of one frame ----------

  function ColumnOf(frame: Frame): seq<real> {
    seq(|frame.rows|, i requires 0 <= i < |frame.rows| =>
      if frame.rows[i].cpu.Some? then frame.rows[i].cpu.value else 0.0)
  }

  lemma ColumnIsPart(frame: Frame, measured: Sample, options: Settings)
    requires Shows(frame, measured, options) && NoneNegative(measured.items)
    requires AllKnown(measured.items)
    ensures Sum(ColumnOf(frame)) <= TotalShare(measured.items)
  {
    var list := ListBehind(frame, measured, options);
    var filtered := Filter(measured.items, options.filter);
    forall i | 0 <= i < |list| ensures list[i].cpuKnown && list[i].cpuPercent >= 0.0 {
      assert list[i] in multiset(filtered);
      FilteredMatches(measured.items, options.filter, list[i]);
    }
    assert ColumnOf(frame) == Percents(list[..|frame.rows|]);
    TotalOfPrefix(list, |frame.rows|);
    TotalOfPermutation(list, filtered);
    if options.filter != "" {
      TotalOfFiltered(measured.items, options.filter);
    }
  }

  lemma FreshSample(scan: Scan, machine: Machine)
    ensures AllZero(SampleOf(scan, machine).items) && AllKnown(SampleOf(scan, machine).items)
  {
    RecordsAreFresh(scan.entries, machine);
    assert forall i :: 0 <= i < |ScanItems(scan, machine)| ==> IsFresh(ScanItems(scan, machine)[i]);
  }

  lemma FreshSampleOfRun(env: seq<Scan>, machine: Machine, k: nat)
    requires k < |env|
    ensures AllZero(SamplesOf(env, machine)[k].items) && AllKnown(SamplesOf(env, machine)[k].items)
  {
    FreshSample(env[k], machine);
  }

  lemma FreshOfRun(env: seq<Scan>, machine: Machine, cpuCount: nat, k: nat)
    requires k < |env|
    ensures AllKnown(MeasuredIn(env, machine, cpuCount, k).items)
    ensures NoneNegative(MeasuredIn(env, machine, cpuCount, k).items)
  {
    FreshSampleOfRun(env, machine, k);
    MeasuredPercentages(env, machine, cpuCount, k);
    MeasuredFromRaw(SamplesOf(env, machine), cpuCount, k);
    KnownCarriesOver(MeasuredIn(env, machine, cpuCount, k).items, SamplesOf(env, machine)[k].items);
  }

  lemma KnownCarriesOver(s: seq<ProcessInfo>, t: seq<ProcessInfo>)
    requires SameButPercent(s, t) && AllKnown(t)
    ensures AllKnown(s)
  {
    forall i | 0 <= i < |s| ensures s[i].cpuKnown {
      assert s[i].(cpuPercent := 0.0).cpuKnown == t[i].(cpuPercent := 0.0).cpuKnown;
    }
  }

  lemma RoundFitsMachine(env: seq<Scan>, machine: Machine, cpuCount: nat, k: nat)
    requires 0 < k < |env| && AllFit(SamplesOf(env, machine)[k], SamplesOf(env, machine)[k - 1], cpuCount)
    ensures TotalShare(MeasuredIn(env, machine, cpuCount, k).items) <= 100.0
  {
    FreshSampleOfRun(env, machine, k);
    MeasuredFits(SamplesOf(env, machine), cpuCount, k);
  }

  /** In every round after the first in which the processes together used no more CPU time than the
      machine has, the CPU column adds up to at most 100. */
  lemma ColumnFits(screen: seq<Frame>, env: seq<Scan>, machine: Machine, cpuCount: nat, options: Settings, k: nat)
    requires RunShown(screen, env, machine, cpuCount, options) && 0 < k < |screen|
    requires AllFit(SamplesOf(env, machine)[k], SamplesOf(env, machine)[k - 1], cpuCount)
    ensures Sum(ColumnOf(screen[k])) <= 100.0
  {
    var measured := MeasuredIn(env, machine, cpuCount, k);
    FreshOfRun(env, machine, cpuCount, k);
    RoundFitsMachine(env, machine, cpuCount, k);
    ColumnIsPart(screen[k], measured, options);
  }

  // ---------- The CPU column over a run ----------

  /** The frame has a row for the pid with this percentage. */
  ghost predicate ShowsShare(frame: Frame, pid: u32, share: real) {
    exists i :: 0 <= i < |frame.rows| && frame.rows[i].pid == pid && frame.rows[i].cpu == Some(share)
  }

  lemma ShownShareIsMeasured(frame: Frame, measured: Sample, options: Settings, pid: u32, share: real)
    requires Shows(frame, measured, options) && DistinctPids(measured.items) && ShowsShare(frame, pid, share)
    ensures TrackedIn(measured.items, pid)
    ensures measured.items[Find(measured.items, pid).value].cpuPercent == share
  {
    var list := ListBehind(frame, measured, options);
    var i :| 0 <= i < |frame.rows| && frame.rows[i].pid == pid && frame.rows[i].cpu == Some(share);
    var j :| 0 <= j < |measured.items| && measured.items[j] == list[i];
    assert RowOf(list[i]) == frame.rows[i];
    assert measured.items[j].pid == pid;
    var at := Find(measured.items, pid);
    assert at.Some? && measured.items[at.value].pid == pid;
    assert at.value == j;
  }

  /** The wall clock advances from round to round, and the CPU time of the process does not fall. */
  ghost predicate Advances(samples: seq<Sample>, pid: u32) {
    forall k :: 0 < k < |samples| ==>
      samples[k - 1].wallNs < samples[k].wallNs && CpuTime(samples[k - 1].items, pid) <= CpuTime(samples[k].items, pid)
  }

  /** The CPU column of a process, read as time: each percentage times what the interval offered. */
  function ColumnCharges(samples: seq<Sample>, cpuCount: nat, column: seq<real>): seq<real>
    requires samples != [] && |column| == |samples|
  {
    seq(|samples| - 1, k requires 0 <= k < |samples| - 1 =>
      if samples[k + 1].wallNs <= samples[k].wallNs then 0.0
      else Charge(column[k + 1], Capacity(samples[k + 1].wallNs - samples[k].wallNs, cpuCount)))
  }

  /** Frame k of the run has a row for the pid, whose percentage is column[k]. */
  ghost predicate InColumn(screen: seq<Frame>, pid: u32, column: seq<real>) {
    |column| == |screen| && forall k :: 0 <= k < |screen| ==> ShowsShare(screen[k], pid, column[k])
  }

  /** In round k the process is listed with a known CPU time, and measured with the given share. */
  ghost predicate MeasuredShare(samples: seq<Sample>, cpuCount: nat, pid: u32, share: real, k: nat)
    requires k < |samples|
  {
    var items := Measured(samples, cpuCount, k).items;
    && TrackedIn(samples[k].items, pid)
    && Find(items, pid).Some? && items[Find(items, pid).value].cpuPercent == share
  }

  lemma ShownShareOfRun(screen: seq<Frame>, env: seq<Scan>, machine: Machine, cpuCount: nat, options: Settings,
                        k: nat, pid: u32, share: real)
    requires RunShown(screen, env, machine, cpuCount, options) && k < |screen|
    requires DistinctPids(SamplesOf(env, machine)[k].items) && ShowsShare(screen[k], pid, share)
    ensures MeasuredShare(SamplesOf(env, machine), cpuCount, pid, share, k)
  {
    var samples, measured := SamplesOf(env, machine), MeasuredIn(env, machine, cpuCount, k);
    MeasuredFromRaw(samples, cpuCount, k);
    DistinctButPercent(measured.items, samples[k].items);
    ShownShareIsMeasured(screen[k], measured, options, pid, share);
    TrackedIgnoresPercent(measured.items, samples[k].items, pid);
  }

  lemma ColumnIsMeasured(screen: seq<Frame>, env: seq<Scan>, machine: Machine, cpuCount: nat, options: Settings,
                         pid: u32, column: seq<real>, k: nat)
    requires RunShown(screen, env, machine, cpuCount, options) && k < |screen|
    requires DistinctPids(ScanItems(env[k], machine)) && InColumn(screen, pid, column)
    ensures MeasuredShare(SamplesOf(env, machine), cpuCount, pid, column[k], k)
  {
    assert ShowsShare(screen[k], pid, column[k]);
    ShownShareOfRun(screen, env, machine, cpuCount, options, k, pid, column[k]);
  }

  lemma TrackedIgnoresPercent(s: seq<ProcessInfo>, t: seq<ProcessInfo>, pid: u32)
    requires SameButPercent(s, t) && TrackedIn(s, pid)
    ensures TrackedIn(t, pid)
  {
    FindIgnoresPercent(s, t, pid);
    var k := Find(s, pid).value;
    assert s[k].(cpuPercent := 0.0).cpuKnown == t[k].(cpuPercent := 0.0).cpuKnown;
  }

  /** The percentage in a row of a round after the first is right if and only if the process used
      nothing since the round before, or it was listed in that round too and what it used is not negative
      and fits the interval. A process that is new shows zero, whatever it has used. */
  lemma ShownShareIsRightIff(screen: seq<Frame>, env: seq<Scan>, machine: Machine, cpuCount: nat, options: Settings,
                             k: nat, pid: u32, share: real)
    requires RunShown(screen, env, machine, cpuCount, options) && 0 < k < |screen|
    requires SamplesOf(env, machine)[k - 1].wallNs < SamplesOf(env, machine)[k].wallNs
    requires DistinctPids(SamplesOf(env, machine)[k].items) && ShowsShare(screen[k], pid, share)
    ensures IsRight(share, SamplesOf(env, machine)[k], SamplesOf(env, machine)[k - 1], cpuCount, pid)
       <==> Measurable(SamplesOf(env, machine)[k], SamplesOf(env, machine)[k - 1], cpuCount, pid)
    ensures Find(SamplesOf(env, machine)[k - 1].items, pid).None? ==> share == 0.0
  {
    FreshSampleOfRun(env, machine, k);
    FreshSampleOfRun(env, machine, k - 1);
    ShownShareOfRun(screen, env, machine, cpuCount, options, k, pid, share);
    ShareIsRightInRound(SamplesOf(env, machine), cpuCount, k, pid, share);
  }

  lemma ShareIsRightInRound(samples: seq<Sample>, cpuCount: nat, k: nat, pid: u32, share: real)
    requires 0 < k < |samples| && samples[k - 1].wallNs < samples[k].wallNs
    requires AllZero(samples[k].items) && AllKnown(samples[k].items) && AllKnown(samples[k - 1].items)
    requires MeasuredShare(samples, cpuCount, pid, share, k)
    ensures IsRight(share, samples[k], samples[k - 1], cpuCount, pid)
       <==> Measurable(samples[k], samples[k - 1], cpuCount, pid)
    ensures Find(samples[k - 1].items, pid).None? ==> share == 0.0
  {
    MeasuredShareIsRightIff(samples, cpuCount, k, pid);
  }

  lemma MeasuredIsTracked(samples: seq<Sample>, cpuCount: nat, pid: u32, column: seq<real>)
    requires |column| == |samples| && Advances(samples, pid)
    requires forall k :: 0 <= k < |samples| ==> MeasuredShare(samples, cpuCount, pid, column[k], k)
    ensures Tracked(samples, pid)
  {
    forall k | 0 < k < |samples| ensures TrackedRound(samples[k], samples[k - 1], pid) {
      assert MeasuredShare(samples, cpuCount, pid, column[k], k);
      assert MeasuredShare(samples, cpuCount, pid, column[k - 1], k - 1);
    }
  }

  lemma ColumnCharge(samples: seq<Sample>, cpuCount: nat, pid: u32, column: seq<real>, k: nat)
    requires |column| == |samples| && k < |samples| - 1
    requires MeasuredShare(samples, cpuCount, pid, column[k + 1], k + 1)
    ensures ColumnCharges(samples, cpuCount, column)[k] == Charges(samples, cpuCount, pid)[k]
  {
    assert Measured(samples, cpuCount, k + 1).wallNs == samples[k + 1].wallNs;
  }

  lemma ColumnChargesAreCharges(samples: seq<Sample>, cpuCount: nat, pid: u32, column: seq<real>)
    requires samples != [] && |column| == |samples|
    requires forall k :: 0 <= k < |samples| ==> MeasuredShare(samples, cpuCount, pid, column[k], k)
    ensures ColumnCharges(samples, cpuCount, column) == Charges(samples, cpuCount, pid)
  {
    forall k | 0 <= k < |samples| - 1
      ensures ColumnCharges(samples, cpuCount, column)[k] == Charges(samples, cpuCount, pid)[k]
    {
      assert MeasuredShare(samples, cpuCount, pid, column[k + 1], k + 1);
      ColumnCharge(samples, cpuCount, pid, column, k);
    }
  }

  /** What a user reads off the screen adds up: for a process that is in every frame, the percentages
      times the time on all cores sum to at most the CPU time it used from the first round to the last,
      and to exactly that if and only if no round was capped. */
  lemma ColumnTelescopes(screen: seq<Frame>, env: seq<Scan>, machine: Machine, cpuCount: nat, options: Settings,
                         pid: u32, column: seq<real>)
    requires RunShown(screen, env, machine, cpuCount, options) && PidsDistinct(env, machine)
    requires screen != [] && InColumn(screen, pid, column)
    requires Advances(SamplesOf(env, machine)[..|screen|], pid)
    ensures var samples := SamplesOf(env, machine)[..|screen|];
            var first, last := CpuTime(samples[0].items, pid), CpuTime(samples[|samples| - 1].items, pid);
            && first <= last
            && Accounts(Sum(ColumnCharges(samples, cpuCount, column)), last - first,
                        AllTrue(Fits(samples, cpuCount, pid)))
  {
    var all := SamplesOf(env, machine);
    var samples := all[..|screen|];
    forall k | 0 <= k < |samples|
      ensures MeasuredShare(samples, cpuCount, pid, column[k], k)
    {
      assert DistinctPids(ScanItems(env[k], machine));
      ColumnIsMeasured(screen, env, machine, cpuCount, options, pid, column, k);
      MeasuredOfPrefix(all, |screen|, cpuCount, k);
    }
    MeasuredIsTracked(samples, cpuCount, pid, column);
    ColumnChargesAreCharges(samples, cpuCount, pid, column);
    RunTelescopes(samples, cpuCount, pid);
  }

  // ---------- From the kernel's text to the record ----------

  /** The record that a line printed for a process spells. */
  function SpelledRecord(pid: u32, comm: string, fields: seq<string>, machine: Machine): seq<ProcessInfo> {
    var record := CRecord(PrintedLine(comm, fields), pid, machine);
    if record.None? then [] else [record.value]
  }

  /** A process whose stat file fits the buffer contributes exactly the record its line spells, under
      the pid of its directory; one with a short line contributes nothing. */
  lemma PrintedProcessIsListed(pid: u32, comm: string, fields: seq<string>, ticks: int, page: int)
    requires StreamFields(fields)
    requires '\0' !in StatFile(pid, comm, fields) && |StatFile(pid, comm, fields)| < STAT_BUFFER
    ensures Records(StandardMachine(ticks, page))(Entry(Decimal(pid), Some(StatFile(pid, comm, fields))))
         == SpelledRecord(pid, comm, fields, StandardMachine(ticks, page))
  {
    var file, machine := StatFile(pid, comm, fields), StandardMachine(ticks, page);
    CReadsFile(pid, comm, fields, ticks, page);
    DecimalIsAllDigits(pid);
    PidOfDirectory(pid, machine);
    PlainFileInBuffer(file);
    assert file[..Min(|file|, STAT_BUFFER - 1)] == file;
    if ScanStat(file, machine).Some? {
      NamedThenFilled(file, machine, Blank(pid));
    }
  }

  /** The record of a process, number by number: what the line says of the pid, the name, user and system
      time in ticks, threads and resident pages, on a machine of 100 ticks and pages of 4096 bytes where
      sysconf does not say otherwise. */
  predicate IsRecordOf(x: ProcessInfo, pid: u32, comm: string, utime: nat, stime: nat, threads: int, pages: int,
                       ticks: int, page: int) {
    var pageSize := if page <= 0 then 4096 else page;
    && x.pid == pid
    && x.name == (if |comm| < 256 then comm else comm[..255])
    && x.cpuKnown && x.cpuPercent == 0.0
    && ((utime + stime) * 1_000_000_000 < 0x1_0000_0000_0000_0000 ==>
          x.cpuTimeNs == (utime + stime) * 1_000_000_000 / (if ticks <= 0 then 100 else ticks))
    && x.threads == (if threads > 0 then threads % 0x1_0000_0000 else 0)
    && (x.memKnown <==> pages > 0)
    && (pages <= 0 ==> x.memBytes == 0)
    && (pages > 0 && pages * pageSize < 0x1_0000_0000_0000_0000 ==> x.memBytes == pages * pageSize)
  }

  /** A printed process is listed with exactly the numbers printed in fields 14, 15, 20 and 24. */
  lemma PrintedRecordIs(pid: u32, comm: string, fields: seq<string>, utime: u64, stime: u64, threads: int, pages: int,
                        ticks: int, page: int)
    requires StreamFields(fields) && |fields| >= 22
    requires '\0' !in StatFile(pid, comm, fields) && |StatFile(pid, comm, fields)| < 4096
    requires fields[11] == Decimal(utime) && fields[12] == Decimal(stime)
    requires fields[17] == Signed(threads) && fields[21] == Signed(pages)
    requires -TWO_63 <= threads < TWO_63 && -TWO_63 <= pages < TWO_63
    ensures var entry := Entry(Decimal(pid), Some(StatFile(pid, comm, fields)));
            var records := Records(StandardMachine(ticks, page))(entry);
            |records| == 1 && IsRecordOf(records[0], pid, comm, utime, stime, threads, pages, ticks, page)
  {
    PrintedProcessIsListed(pid, comm, fields, ticks, page);
    UnsignedNumberConverts(utime);
    UnsignedNumberConverts(stime);
    SignedNumberConverts(threads);
    SignedNumberConverts(pages);
    FilledIs(StatLine(ClipName(comm), utime, stime, threads, pages), pid, comm, ticks, page);
  }

  lemma FilledIs(line: StatLine, pid: u32, comm: string, ticks: int, page: int)
    requires line.name == ClipName(comm)
    ensures IsRecordOf(Fill(line, StandardMachine(ticks, page), Blank(pid)), pid, comm,
                       line.utime, line.stime, line.threads, line.rssPages, ticks, page)
  {
    var total := line.utime + line.stime;
    if total * 1_000_000_000 < TWO_64 {
      SmallRemainder(total, TWO_64);
      SmallRemainder(total * 1_000_000_000, TWO_64);
    }
    var size := if page <= 0 then 4096 else page;
    if line.rssPages > 0 && line.rssPages * size < TWO_64 {
      SmallRemainder(line.rssPages * size, TWO_64);
    }
  }

  /** What the row of such a process shows of its name: the whole characters that fill the column, no
      matter how long the name is and where C's 255 bytes end in it. */
  lemma ShownNameIsWhole(line: StatLine, machine: Machine, info: ProcessInfo, comm: string)
    requires line.name == ClipName(comm)
    ensures var shown := RowOf(Fill(line, machine, info)).name;
            && shown == comm[..Utf8.CCut(comm, 30)] && |shown| <= 33
            && (Utf8.ValidUtf8(comm) ==> Utf8.ValidUtf8(shown))
  {
    if |comm| >= PROC_NAME_MAX {
      Utf8.CutIgnoresFarTail(comm, PROC_NAME_MAX - 1, NAME_COLUMN);
    }
    Utf8.CCutIsNextBoundary(comm, NAME_COLUMN);
    if Utf8.ValidUtf8(comm) {
      Utf8.NoCharacterIsSplit(comm, NAME_COLUMN);
    }
  }
}
