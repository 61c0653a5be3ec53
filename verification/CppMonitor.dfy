/** The snapshots of C++ (`LinuxProcessSource::sample`) and its refresh loop (`runMonitor` in
    cpp/src/main.cpp): both programs show the same list in every round. */
module CppMonitor {
  import opened Basics
  import opened ProcessModel
  import opened Numbers
  import opened Ordering
  import opened StatParser
  import opened CppStatReader
  import opened StatBuffer
  import opened Snapshots
  import opened CpuShare
  import opened Joins
  import opened CppOrder
  import opened Args
  import opened Monitor
  import opened Render

  // ---------- One snapshot ----------

  /** What C++ makes of an entry: std::from_chars must take the whole name as a 32-bit number. */
  function CppEntry(e: Entry, machine: Machine, std: Conversions): CppStatReader.Outcome {
    if !(IsNumeral(e.name) && Value(e.name) < TWO_32) || e.stat.None? then Absent
    else ReadLine(Line(e.stat.value), Value(e.name), machine, std)
  }

  /** C++ reads the entries whose names are 32-bit decimals, and no others. */
  lemma CppEntryIs(n: nat, stat: Option<string>, name: string, machine: Machine, std: Conversions)
    ensures CppEntry(Entry(Decimal(n), stat), machine, std)
         == if n > 0xFFFF_FFFF || stat.None? then Absent else ReadLine(Line(stat.value), n, machine, std)
    ensures !AllDigits(name) ==> CppEntry(Entry(name, stat), machine, std) == Absent
  {
    DecimalRoundTrip(n);
    NumeralsAreAllDigits(name);
  }

  function CppReader(machine: Machine, std: Conversions): Entry -> CppStatReader.Outcome {
    (e: Entry) => CppEntry(e, machine, std)
  }

  /** The list of the first n entries; None once a reader has thrown, which ends the program. */
  function CppList(read: Entry -> CppStatReader.Outcome, entries: seq<Entry>, n: nat): Option<seq<CppInfo>>
    requires n <= |entries|
  {
    if n == 0 then Some([])
    else
      var init := CppList(read, entries, n - 1);
      if init.None? then None
      else
        match read(entries[n - 1])
        case Absent => init
        case Thrown => None
        case Read(info) => Some(init.value + [info])
  }

  /** LinuxProcessSource::sample, when the directory can be opened. */
  method SampleEntries(entries: seq<Entry>, machine: Machine, std: Conversions) returns (r: Option<seq<CppInfo>>)
    ensures r == CppList(CppReader(machine, std), entries, |entries|)
  {
    var processes: seq<CppInfo> := [];
    for i := 0 to |entries|
      invariant CppList(CppReader(machine, std), entries, i) == Some(processes)
    {
      var info := SampleEntry(entries[i], machine, std);
      if info.Thrown? {
        CppListThrown(CppReader(machine, std), entries, i + 1, |entries|);
        return None;
      }
      if info.Read? {
        processes := processes + [info.info];
      }
    }
    r := Some(processes);
  }

  /** The body of the loop, up to the push. */
  method SampleEntry(e: Entry, machine: Machine, std: Conversions) returns (info: CppStatReader.Outcome)
    ensures info == CppReader(machine, std)(e)
  {
    if !(IsNumeral(e.name) && Value(e.name) < TWO_32) {
      return Absent;
    }
    info := ReadStat(e.stat, Value(e.name), machine, std);
  }

  lemma {:induction false} CppListThrown(read: Entry -> CppStatReader.Outcome, entries: seq<Entry>, i: nat, n: nat)
    requires i <= n <= |entries| && CppList(read, entries, i).None?
    ensures CppList(read, entries, n).None?
    decreases n
  {
    if i < n {
      CppListThrown(read, entries, i, n - 1);
    }
  }

  /** The entry is no process, or one whose stat file, if it can be opened, both readers read alike. */
  predicate ReadAlike(e: Entry, machine: Machine) {
    AllDigits(e.name) && e.stat.Some? && IsNumeral(e.name) && Value(e.name) < TWO_32 ==>
      ReadersAgree(e.stat.value, Value(e.name), machine)
  }

  lemma {:induction false} NumeralsAreAllDigits(name: string)
    ensures IsNumeral(name) <==> AllDigits(name)
  {
    if name != "" {
      DigitsAreDigits(name, 0);
      if AllDigits(name) {
        DigitsEndAt(name, 0, |name|);
      }
    }
  }

  lemma NamedPid(name: string, machine: Machine)
    requires machine.strtoull == Strtoul && NamesPid(name)
    ensures IsNumeral(name) && Value(name) < TWO_32 && Prepared(machine, name) == Blank(Value(name))
  {
    var p: u32 :| p < TWO_32 / 2 && name == Decimal(p);
    DecimalRoundTrip(p);
    PidOfDirectory(p, machine);
  }

  /** What C adds for an entry, in terms of its reading of the file. */
  lemma RecordsOfReading(e: Entry, machine: Machine, pid: u32)
    requires AllDigits(e.name) && Prepared(machine, e.name) == Blank(pid)
    ensures Records(machine)(e)
         == if e.stat.None? || CReading(e.stat.value, pid, machine).None? then []
            else [CReading(e.stat.value, pid, machine).value]
  {
    var text := BufferText(e.stat);
    if text.Some? && ScanStat(text.value, machine).Some? {
      NamedThenFilled(text.value, machine, Blank(pid));
    }
  }

  /** C adds the record that C++ has read, or both add none. */
  predicate SameEntry(cpp: CppStatReader.Outcome, records: seq<ProcessInfo>) {
    match cpp
    case Absent => records == []
    case Thrown => false
    case Read(info) => |records| == 1 && ToCpp(records[0]) == info
  }

  lemma EntriesAgree(e: Entry, machine: Machine)
    requires machine.strtoull == Strtoul && ReadAlike(e, machine) && (AllDigits(e.name) ==> NamesPid(e.name))
    ensures SameEntry(CppReader(machine, StandardConversions())(e), Records(machine)(e))
  {
    NumeralsAreAllDigits(e.name);
    if AllDigits(e.name) {
      NamedPid(e.name, machine);
      RecordsOfReading(e, machine, Value(e.name));
    }
  }

  lemma {:induction false} ListsAgree(read: Entry -> CppStatReader.Outcome, f: Entry -> seq<ProcessInfo>,
                                      entries: seq<Entry>, n: nat)
    requires n <= |entries| && forall k :: 0 <= k < |entries| ==> SameEntry(read(entries[k]), f(entries[k]))
    ensures CppList(read, entries, n) == Some(Map(ToCpp, FlatMapTo(f, entries, n)))
  {
    if n == 0 {
      assert Map(ToCpp, FlatMapTo(f, entries, n)) == [];
    } else {
      ListsAgree(read, f, entries, n - 1);
      var s, t := FlatMapTo(f, entries, n - 1), f(entries[n - 1]);
      MapConcat(ToCpp, s, t);
      assert SameEntry(read(entries[n - 1]), t);
      assert Map(ToCpp, t) == if t == [] then [] else [ToCpp(t[0])];
      assert Map(ToCpp, s) + [] == Map(ToCpp, s);
      assert FlatMapTo(f, entries, n) == s + t;
    }
  }

  /** Where /proc lists printed pids and both readers agree on every stat file, C++ takes the snapshot
      that C takes. */
  lemma SnapshotsAgree(scan: Scan, machine: Machine)
    requires machine.strtoull == Strtoul && ListsPids(scan)
    requires forall e :: e in scan.entries ==> ReadAlike(e, machine)
    ensures CppList(CppReader(machine, StandardConversions()), scan.entries, |scan.entries|)
         == Some(Map(ToCpp, ScanItems(scan, machine)))
  {
    var entries := scan.entries;
    forall k | 0 <= k < |entries|
      ensures SameEntry(CppReader(machine, StandardConversions())(entries[k]), Records(machine)(entries[k]))
    {
      assert entries[k] in entries;
      EntriesAgree(entries[k], machine);
    }
    ListsAgree(CppReader(machine, StandardConversions()), Records(machine), entries, |entries|);
  }

  // ---------- A whole run ----------

  /** A snapshot of C++: the list, and the clock. */
  datatype CppTaken = CppTaken(processes: seq<CppInfo>, takenAt: int)

  /** The list of round k after applyCpuPercent, joined against the list of the round before, which was
      moved there. */
  function CppMeasured(taken: seq<CppTaken>, cpuCount: nat, k: nat): seq<CppInfo>
    requires k < |taken|
  {
    if k == 0 then taken[0].processes
    else CppJoin(taken[k].processes, taken[k].takenAt, CppMeasured(taken, cpuCount, k - 1), taken[k - 1].takenAt,
                 cpuCount)
  }

  /** C++ has taken the snapshots of the run, each without an exception. */
  ghost predicate CppTakes(taken: seq<CppTaken>, env: seq<Scan>, machine: Machine) {
    && |taken| == |env|
    && forall j {:trigger taken[j]} :: 0 <= j < |env| ==>
         && taken[j].takenAt == env[j].wallNs
         && CppList(CppReader(machine, StandardConversions()), env[j].entries, |env[j].entries|)
            == Some(taken[j].processes)
  }

  /** The snapshots that C++ takes are those of C. */
  ghost predicate SameSnapshots(taken: seq<CppTaken>, samples: seq<Sample>) {
    && |taken| == |samples|
    && forall j {:trigger taken[j]} :: 0 <= j < |samples| ==>
         taken[j] == CppTaken(Map(ToCpp, samples[j].items), samples[j].wallNs)
  }

  /** Every round lists printed pids, and both readers agree on every file. */
  ghost predicate ReadableAlike(env: seq<Scan>, machine: Machine) {
    forall j :: 0 <= j < |env| ==> ListsPids(env[j]) && forall e :: e in env[j].entries ==> ReadAlike(e, machine)
  }

  lemma RunsTakeTheSame(taken: seq<CppTaken>, env: seq<Scan>, machine: Machine)
    requires machine.strtoull == Strtoul && CppTakes(taken, env, machine) && ReadableAlike(env, machine)
    ensures SameSnapshots(taken, SamplesOf(env, machine))
  {
    forall j | 0 <= j < |env|
      ensures taken[j] == CppTaken(Map(ToCpp, SamplesOf(env, machine)[j].items), SamplesOf(env, machine)[j].wallNs)
    {
      SnapshotsAgree(env[j], machine);
    }
  }

  ghost predicate AllFresh(s: seq<ProcessInfo>) { forall i :: 0 <= i < |s| ==> IsFresh(s[i]) }

  lemma MeasuredKnowsTimes(samples: seq<Sample>, cpuCount: nat, k: nat)
    requires k < |samples| && AllFresh(samples[k].items)
    ensures var s := Measured(samples, cpuCount, k).items;
            forall i :: 0 <= i < |s| ==> s[i].cpuKnown && Tidy(s[i])
  {
    MeasuredFromRaw(samples, cpuCount, k);
    var s, t := Measured(samples, cpuCount, k).items, samples[k].items;
    forall i | 0 <= i < |s| ensures s[i].cpuKnown && Tidy(s[i]) {
      assert IsFresh(t[i]) && s[i].(cpuPercent := 0.0) == t[i].(cpuPercent := 0.0);
      assert s[i].(cpuPercent := 0.0).cpuKnown == s[i].cpuKnown;
    }
  }

  /** Both joins, each on its own lists from round to round, measure the same. */
  lemma {:induction false} CppMeasuresTheSame(taken: seq<CppTaken>, samples: seq<Sample>, cpuCount: nat, k: nat)
    requires SameSnapshots(taken, samples) && k < |samples|
    requires forall j :: 0 <= j < |samples| ==> AllFresh(samples[j].items)
    ensures CppMeasured(taken, cpuCount, k) == Map(ToCpp, Measured(samples, cpuCount, k).items)
  {
    assert taken[k] == CppTaken(Map(ToCpp, samples[k].items), samples[k].wallNs);
    if k > 0 {
      var previous := Measured(samples, cpuCount, k - 1);
      assert taken[k - 1].takenAt == samples[k - 1].wallNs;
      CppMeasuresTheSame(taken, samples, cpuCount, k - 1);
      MeasuredKnowsTimes(samples, cpuCount, k - 1);
      KnownTimesDecide(previous.items, 1);
      ApplyJoinsAgree(samples[k], previous, cpuCount);
    }
  }

  lemma PlainNamesCarryOver(s: seq<ProcessInfo>, t: seq<ProcessInfo>)
    requires SameButPercent(s, t) && PlainNames(t)
    ensures PlainNames(s)
  {
    forall i | 0 <= i < |s| ensures s[i].name == t[i].name && t[i] in t {
      assert s[i].(cpuPercent := 0.0).name == t[i].(cpuPercent := 0.0).name;
    }
  }

  lemma ScansAreFresh(env: seq<Scan>, machine: Machine)
    ensures forall j :: 0 <= j < |env| ==> AllFresh(SamplesOf(env, machine)[j].items)
  {
    forall j | 0 <= j < |env| ensures AllFresh(SamplesOf(env, machine)[j].items) {
      RecordsAreFresh(env[j].entries, machine);
    }
  }

  /** In every snapshot of Linux the first entry of a pid decides, even if the pid is listed twice: every
      CPU time is known. */
  lemma SnapshotsDecide(scan: Scan, machine: Machine, unit: nat)
    ensures Decided(ScanItems(scan, machine), unit) && Unjoined(ScanItems(scan, machine))
  {
    RecordsAreFresh(scan.entries, machine);
    KnownTimesDecide(ScanItems(scan, machine), unit);
  }

  /** Whatever arrangement std::ranges::sort leaves, the frame of C shows the list that C++ has read,
      joined, filtered and sorted: the rows are its first, and the total is its length. */
  lemma MonitorsAgree(frame: Frame, env: seq<Scan>, machine: Machine, cpuCount: nat, options: Settings, k: nat,
                      taken: seq<CppTaken>, visible: seq<CppInfo>)
    returns (list: seq<ProcessInfo>)
    requires machine.strtoull == Strtoul && ReadableAlike(env, machine) && CppTakes(taken, env, machine)
    requires k < |env| && Shows(frame, MeasuredIn(env, machine, cpuCount, k), options)
    requires NamesDistinct(env[k].entries)
    requires options.sort == ByName ==> PlainNames(ScanItems(env[k], machine))
    requires CppSorted(options.sort, CppFilter(CppMeasured(taken, cpuCount, k), options.filter), visible)
    ensures visible == Map(ToCpp, list) && frame == FrameOf(list, options.top)
  {
    RunsTakeTheSame(taken, env, machine);
    ScansAreFresh(env, machine);
    CppMeasuresTheSame(taken, SamplesOf(env, machine), cpuCount, k);
    ListedPidsAreDistinct(env[k], machine);
    list := ListsShownAgree(frame, env, machine, cpuCount, options, k, visible);
  }

  lemma ListsShownAgree(frame: Frame, env: seq<Scan>, machine: Machine, cpuCount: nat, options: Settings, k: nat,
                        visible: seq<CppInfo>)
    returns (list: seq<ProcessInfo>)
    requires k < |env| && Shows(frame, MeasuredIn(env, machine, cpuCount, k), options)
    requires DistinctPids(ScanItems(env[k], machine))
    requires options.sort == ByName ==> PlainNames(ScanItems(env[k], machine))
    requires CppSorted(options.sort,
                       CppFilter(Map(ToCpp, MeasuredIn(env, machine, cpuCount, k).items), options.filter), visible)
    ensures visible == Map(ToCpp, list) && frame == FrameOf(list, options.top)
  {
    var samples, measured := SamplesOf(env, machine), MeasuredIn(env, machine, cpuCount, k);
    ScansAreFresh(env, machine);
    MeasuredKnowsTimes(samples, cpuCount, k);
    MeasuredFromRaw(samples, cpuCount, k);
    DistinctButPercent(measured.items, samples[k].items);
    if options.sort == ByName {
      PlainNamesCarryOver(measured.items, samples[k].items);
    }
    PipelinesAgree(options.sort, measured.items, options.filter, visible);
    var filtered := Filter(measured.items, options.filter);
    FilterKeepsDistinct(measured.items, options.filter);
    list :| SortedPermutation(options.sort, filtered, list) && frame == FrameOf(list, options.top);
    QsortIsDeterministic(options.sort, filtered, list);
  }
}
