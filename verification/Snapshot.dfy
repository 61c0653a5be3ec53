/** Taking one snapshot (`proc_snapshot` in c/src/proc_linux.c): scan the entries of /proc, parse the
    stat file of each numeric one, collect the records. */
module Snapshots {
  import opened Basics
  import opened Numbers
  import opened ProcessModel
  import opened StatParser
  import opened ProcessLists

  const STAT_BUFFER: nat := 4096

  /** A directory entry, with the contents of its stat file if that can be opened and read. */
  datatype Entry = Entry(name: string, stat: Option<string>)

  /** What the system shows when a snapshot is taken: whether /proc opens, the clock, the entries in
      the order readdir yields them. */
  datatype Scan = Scan(listable: bool, wallNs: u64, entries: seq<Entry>)

  /** is_numeric as a predicate. */
  predicate AllDigits(text: string) { text != "" && forall i :: 0 <= i < |text| ==> IsDigit(text[i]) }

  method IsNumeric(text: string) returns (r: bool)
    ensures r == AllDigits(text)
  {
    var i := 0;
    while i < |text|
      invariant 0 <= i <= |text| && forall j :: 0 <= j < i ==> IsDigit(text[j])
    {
      if !IsDigit(text[i]) {
        return false;
      }
      i := i + 1;
    }
    return i > 0;
  }

  /** The text that read_file leaves in the buffer: at most 4095 bytes, and as a C string it ends at
      the first NUL. An empty file counts as unreadable. */
  function BufferText(content: Option<string>): Option<string> {
    if content.None? || content.value == "" then None
    else
      var bytes := content.value[..Min(|content.value|, STAT_BUFFER - 1)];
      match FirstOf(bytes, '\0', 0)
      case None => Some(bytes)
      case Some(n) => Some(bytes[..n])
  }

  /** A file that cannot be read, or is empty, leaves no text; one with a NUL leaves what is before it. */
  lemma BufferEndsAtNul(a: string, b: string)
    requires '\0' !in a && |a| < 4095
    ensures BufferText(None) == None && BufferText(Some("")) == None
    ensures BufferText(Some(a + "\0" + b)) == Some(a)
  {
    var file := a + "\0" + b;
    var bytes := file[..Min(|file|, 4095)];
    assert bytes[|a|] == '\0';
    forall j | 0 <= j < |a| ensures bytes[j] != '\0' {
      assert bytes[j] == a[j];
    }
    FirstOfIs(bytes, '\0', 0, |a|);
    assert bytes[..|a|] == a;
  }

  lemma PlainFileInBuffer(file: string)
    requires '\0' !in file && file != ""
    ensures BufferText(Some(file)) == Some(file[..Min(|file|, 4095)])
  {
  }

  /** The record that memset and the pid assignment prepare. */
  function Prepared(machine: Machine, name: string): ProcessInfo {
    Blank(machine.strtoull(name, 0) % TWO_32)
  }

  lemma DecimalIsAllDigits(n: nat)
    ensures AllDigits(Decimal(n))
  {
    DecimalRoundTrip(n);
  }

  /** The directory of a process names its pid. */
  lemma PidOfDirectory(pid: u32, machine: Machine)
    requires machine.strtoull == Strtoul
    ensures Prepared(machine, Decimal(pid)) == Blank(pid)
  {
    PrintedNumberConverts(pid);
    PreparedAs(machine, Decimal(pid), pid);
  }

  /** C reduces any other number to 32 bits. */
  lemma PidOfNumber(n: nat, machine: Machine)
    requires machine.strtoull == Strtoul
    ensures Prepared(machine, Decimal(n)).pid
         == (if n <= 0xFFFF_FFFF_FFFF_FFFF then n else 0xFFFF_FFFF_FFFF_FFFF) % 0x1_0000_0000
  {
    UnsignedNumberConverts(n);
  }

  lemma PreparedAs(machine: Machine, name: string, pid: u32)
    requires machine.strtoull(name, 0) == pid
    ensures Prepared(machine, name) == Blank(pid)
  {
  }

  /** What one entry adds to the list: one record, or nothing. */
  function Records(machine: Machine): Entry -> seq<ProcessInfo> {
    (e: Entry) =>
      if !AllDigits(e.name) then []
      else
        var text := BufferText(e.stat);
        if text.None? || ScanStat(text.value, machine).None? then []
        else [ParsedInfo(text.value, machine, Prepared(machine, e.name))]
  }

  function ScanItems(scan: Scan, machine: Machine): seq<ProcessInfo> { FlatMap(Records(machine), scan.entries) }

  function SampleOf(scan: Scan, machine: Machine): Sample { Sample(ScanItems(scan, machine), scan.wallNs) }

  datatype SnapshotStatus = SnapshotOk | SnapshotFailed | OutOfMemory

  /** A record before the first join: its percentage is zero and its CPU time known, and an unknown
      memory size is zero. */
  predicate IsFresh(info: ProcessInfo) {
    info.cpuPercent == 0.0 && info.cpuKnown && (!info.memKnown ==> info.memBytes == 0)
  }

  lemma EntryIsFresh(e: Entry, machine: Machine)
    ensures forall i :: 0 <= i < |Records(machine)(e)| ==> IsFresh(Records(machine)(e)[i])
  {
  }

  /** On Linux every record of a snapshot is of that kind. */
  lemma {:induction false} RecordsAreFresh(entries: seq<Entry>, machine: Machine)
    ensures forall i :: 0 <= i < |FlatMap(Records(machine), entries)| ==> IsFresh(FlatMap(Records(machine), entries)[i])
  {
    if entries != [] {
      RecordsAreFresh(entries[..|entries| - 1], machine);
      FlatMapLast(Records(machine), entries);
      EntryIsFresh(entries[|entries| - 1], machine);
    }
  }

  /** Every record bears the pid of one of the directories. */
  lemma {:induction false} RecordComesFromEntry(entries: seq<Entry>, machine: Machine, x: ProcessInfo)
    returns (e: Entry)
    requires x in FlatMap(Records(machine), entries)
    ensures e in entries && x in Records(machine)(e)
    ensures AllDigits(e.name) && x.pid == Prepared(machine, e.name).pid
  {
    FlatMapLast(Records(machine), entries);
    e := entries[|entries| - 1];
    if x !in Records(machine)(e) {
      e := RecordComesFromEntry(entries[..|entries| - 1], machine, x);
    }
  }

  /** Every numeric entry of /proc is the decimal id of a process that pid_t can hold. */
  ghost predicate ListsPids(scan: Scan) {
    forall e :: e in scan.entries && AllDigits(e.name) ==> NamesPid(e.name)
  }

  ghost predicate NamesPid(name: string) { exists p: u32 :: p < TWO_32 / 2 && name == Decimal(p) }

  /** No two entries have the same name. */
  ghost predicate NamesDistinct(entries: seq<Entry>) {
    forall i, j :: 0 <= i < j < |entries| ==> entries[i].name != entries[j].name
  }

  lemma SamePidSameName(machine: Machine, x: string, y: string)
    requires machine.strtoull == Strtoul && NamesPid(x) && NamesPid(y)
    requires Prepared(machine, x).pid == Prepared(machine, y).pid
    ensures x == y
  {
    var p: u32 :| p < TWO_32 / 2 && x == Decimal(p);
    var q: u32 :| q < TWO_32 / 2 && y == Decimal(q);
    PidOfDirectory(p, machine);
    PidOfDirectory(q, machine);
  }

  /** /proc has a directory for the pid. */
  ghost predicate Listed(scan: Scan, pid: u32) {
    exists k :: 0 <= k < |scan.entries| && scan.entries[k].name == Decimal(pid)
  }

  /** ... from which a record can be read. */
  ghost predicate Readable(scan: Scan, machine: Machine, pid: u32) {
    exists k :: 0 <= k < |scan.entries| && scan.entries[k].name == Decimal(pid)
                && Records(machine)(scan.entries[k]) != []
  }

  lemma ReadableIsFound(scan: Scan, machine: Machine, pid: u32)
    requires machine.strtoull == Strtoul && Readable(scan, machine, pid)
    ensures Find(ScanItems(scan, machine), pid).Some?
  {
    var k :| 0 <= k < |scan.entries| && scan.entries[k].name == Decimal(pid)
             && Records(machine)(scan.entries[k]) != [];
    RecordOfEntry(scan.entries[k], machine);
    PidOfDirectory(pid, machine);
    var x := Records(machine)(scan.entries[k])[0];
    InFlatMap(Records(machine), scan.entries, k, x);
  }

  /** A snapshot finds a pid if and only if /proc has a directory of that name from which a record can be
      read: being listed is not enough. */
  lemma FoundIffReadable(scan: Scan, machine: Machine, pid: u32)
    requires machine.strtoull == Strtoul && ListsPids(scan)
    ensures Find(ScanItems(scan, machine), pid).Some? <==> Readable(scan, machine, pid)
  {
    var at := Find(ScanItems(scan, machine), pid);
    if at.Some? {
      var e := RecordComesFromEntry(scan.entries, machine, ScanItems(scan, machine)[at.value]);
      var p: u32 :| p < TWO_32 / 2 && e.name == Decimal(p);
      PidOfDirectory(p, machine);
      var k :| 0 <= k < |scan.entries| && scan.entries[k] == e;
      assert scan.entries[k].name == Decimal(pid);
    } else if Readable(scan, machine, pid) {
      ReadableIsFound(scan, machine, pid);
    }
  }

  lemma AddedIsDistinct(s: seq<ProcessInfo>, t: seq<ProcessInfo>)
    requires DistinctPids(s) && |t| <= 1
    requires forall i, j :: 0 <= i < |s| && 0 <= j < |t| ==> s[i].pid != t[j].pid
    ensures DistinctPids(s + t)
  {
  }

  lemma RecordOfEntry(e: Entry, machine: Machine)
    ensures |Records(machine)(e)| <= 1
    ensures Records(machine)(e) != [] ==>
              AllDigits(e.name) && Records(machine)(e)[0].pid == Prepared(machine, e.name).pid
  {
  }

  lemma {:induction false} DirectoriesGiveDistinctPids(entries: seq<Entry>, machine: Machine)
    requires machine.strtoull == Strtoul && NamesDistinct(entries)
    requires forall e :: e in entries && AllDigits(e.name) ==> NamesPid(e.name)
    ensures DistinctPids(FlatMap(Records(machine), entries))
  {
    if entries != [] {
      var init, last := entries[..|entries| - 1], entries[|entries| - 1];
      var s, t := FlatMap(Records(machine), init), Records(machine)(last);
      DirectoriesGiveDistinctPids(init, machine);
      FlatMapLast(Records(machine), entries);
      RecordOfEntry(last, machine);
      forall i, j | 0 <= i < |s| && 0 <= j < |t|
        ensures s[i].pid != t[j].pid
      {
        var e := RecordComesFromEntry(init, machine, s[i]);
        assert e in entries && last in entries;
        if s[i].pid == t[j].pid {
          SamePidSameName(machine, e.name, last.name);
        }
      }
      AddedIsDistinct(s, t);
    }
  }

  /** Since a directory has no two entries of one name, no pid is listed twice. */
  lemma ListedPidsAreDistinct(scan: Scan, machine: Machine)
    requires machine.strtoull == Strtoul && ListsPids(scan) && NamesDistinct(scan.entries)
    ensures DistinctPids(ScanItems(scan, machine))
  {
    DirectoriesGiveDistinctPids(scan.entries, machine);
  }

  /** Listing the entries in another order only rearranges the snapshot. */
  lemma SnapshotPermutes(scan: Scan, scan': Scan, machine: Machine)
    requires multiset(scan.entries) == multiset(scan'.entries)
    ensures multiset(ScanItems(scan, machine)) == multiset(ScanItems(scan', machine))
  {
    FlatMapPermutes(Records(machine), scan.entries, scan'.entries);
  }

  method ProcSnapshot(out: ProcessList, scan: Scan, machine: Machine, heap: Heap) returns (status: SnapshotStatus)
    requires out.Ready(heap)
    modifies out, heap, Blocks(out.items)
    ensures out.Ready(heap)
    ensures status == SnapshotOk ==> scan.listable && out.AsSample() == SampleOf(scan, machine)
    ensures status == SnapshotFailed <==> !scan.listable
    ensures status == OutOfMemory <==> scan.listable && status != SnapshotOk
    ensures status == OutOfMemory ==> heap.refusals > old(heap.refusals)
    ensures status != OutOfMemory ==> heap.refusals == old(heap.refusals)
    ensures out.OwnsItsChanges(heap)
  {
    out.count := 0;
    out.wallNs := scan.wallNs;
    if !scan.listable {
      return SnapshotFailed;
    }
    var collected := Collect(out, scan.entries, machine, heap, Records(machine));
    status := if collected then SnapshotOk else OutOfMemory;
  }

  /** The function f gives what each entry adds. The loop below needs no more than that. */
  ghost predicate Reads(f: Entry -> seq<ProcessInfo>, machine: Machine) {
    forall e {:trigger Records(machine)(e)} :: f(e) == Records(machine)(e)
  }

  /** The readdir loop. */
  method Collect(out: ProcessList, entries: seq<Entry>, machine: Machine, heap: Heap,
                 ghost f: Entry -> seq<ProcessInfo>) returns (ok: bool)
    requires out.Ready(heap) && out.count == 0 && Reads(f, machine)
    modifies out, heap, Blocks(out.items)
    ensures out.Ready(heap)
    ensures ok ==> out.Contents() == FlatMap(f, entries)
    ensures out.wallNs == old(out.wallNs)
    ensures ok ==> heap.refusals == old(heap.refusals)
    ensures !ok ==> heap.refusals > old(heap.refusals)
    ensures out.OwnsItsChanges(heap)
  {
    var i := 0;
    while i < |entries|
      invariant i <= |entries|
      invariant out.Ready(heap) && out.OwnsItsChanges(heap) && out.wallNs == old(out.wallNs)
      invariant out.Contents() == FlatMapTo(f, entries, i)
      invariant heap.refusals == old(heap.refusals)
    {
      ok := CollectEntry(out, entries[i], machine, heap, f);
      if !ok {
        return;
      }
      i := i + 1;
    }
    ok := true;
  }

  /** The body of the loop. */
  method CollectEntry(out: ProcessList, entry: Entry, machine: Machine, heap: Heap,
                      ghost f: Entry -> seq<ProcessInfo>) returns (ok: bool)
    requires out.Ready(heap) && Reads(f, machine)
    modifies out, heap, Blocks(out.items)
    ensures out.Ready(heap)
    ensures ok ==> out.Contents() == old(out.Contents()) + f(entry)
    ensures out.wallNs == old(out.wallNs)
    ensures ok ==> heap.refusals == old(heap.refusals)
    ensures !ok ==> heap.refusals > old(heap.refusals)
    ensures out.OwnsItsChanges(heap)
  {
    var found, info := ReadEntry(entry, machine);
    ok := true;
    if found {
      ok := out.Push(heap, info);
    }
  }

  /** The body of the loop, up to the push. */
  method ReadEntry(entry: Entry, machine: Machine) returns (found: bool, info: ProcessInfo)
    ensures Records(machine)(entry) == if found then [info] else []
  {
    info := Blank(0);
    var numeric := IsNumeric(entry.name);
    if !numeric {
      return false, info;
    }
    info := info.(pid := machine.strtoull(entry.name, 0) % TWO_32);
    var text := BufferText(entry.stat);
    if text.None? {
      return false, info;
    }
    found, info := ParseStat(text.value, machine, info);
  }
}
