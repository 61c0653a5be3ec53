/** Ending a process: the signals of `proc_kill` in c/src/proc_linux.c and the guards around them in
    `run_kill` of c/src/main.c. Between any two steps processes may exit and permissions may change. */
module Kill {
  import opened Basics
  import opened Numbers
  import opened ProcessModel
  import opened StatParser
  import opened ProcessLists
  import opened Snapshots
  import opened Monitor

  datatype Signal = Terminate | Probe | Destroy

  /** Success, EPERM, ESRCH. */
  datatype Reply = Done | Denied | Gone

  /** The processes that exist and those that may be signalled, by pid_t. */
  datatype World = World(alive: set<int>, allowed: set<int>)

  /** A call of kill(), in the world it met, and the processes there when it returned. */
  datatype Call = Call(target: int, signal: Signal, world: World, left: set<int>) {
    function Reply(): Reply {
      if target !in world.alive then Gone else if target !in world.allowed then Denied else Done
    }

    /** A call that delivers no signal changes nothing. One that does may end processes, but it returns
        without waiting: even SIGKILL may leave its target, as a zombie or in uninterruptible sleep. */
    predicate Lawful() {
      left <= world.alive && (signal == Probe || Reply() != Done ==> left == world.alive)
    }
  }

  /** The system as far as kill() can tell, and the calls made to it. */
  class Kernel {
    var world: World
    var calls: seq<Call>

    constructor (world: World)
      ensures this.world == world && calls == []
    {
      this.world, calls := world, [];
    }

    /** kill(). Some processes may have exited before it, and any permission may have changed; the id of
        an exited process is not given out anew. */
    method Send(target: int, signal: Signal) returns (reply: Reply)
      modifies this
      ensures |calls| == |old(calls)| + 1 && calls[..|old(calls)|] == old(calls)
      ensures var call := calls[|old(calls)|];
              && call.target == target && call.signal == signal && call.Reply() == reply
              && call.world.alive <= old(world.alive) && call.Lawful() && world.alive == call.left
    {
      var drifted: World := *;
      world := drifted.(alive := drifted.alive * world.alive);
      var delivered := target in world.alive * world.allowed && signal != Probe;
      var spared: set<int> := *;
      var call := Call(target, signal, world, if delivered then spared * world.alive else world.alive);
      calls := calls + [call];
      world := world.(alive := call.left);
      reply := call.Reply();
    }
  }

  datatype KillStatus = KillOk | KillDenied | KillNotFound | KillProtected

  /** The conversion of a 32-bit pid to pid_t. */
  function PidT(pid: u32): int { if pid < TWO_32 / 2 then pid else pid - TWO_32 }

  /** The conversion wraps into the signed 32-bit range. */
  lemma PidTWraps(pid: u32)
    ensures -0x8000_0000 <= PidT(pid) < 0x8000_0000 && (PidT(pid) - pid) % 0x1_0000_0000 == 0
  {
  }

  predicate IsProtected(pid: u32) { pid == 0 || pid == 1 }

  /** The calls that proc_kill may make: SIGTERM, then the probe, then SIGKILL, each only if the one
      before succeeded, and all to one process. */
  predicate KillTrace(target: int, calls: seq<Call>) {
    && 1 <= |calls| <= 3
    && (forall i :: 0 <= i < |calls| ==> calls[i].target == target && calls[i].signal == [Terminate, Probe, Destroy][i])
    && (forall i :: 0 <= i < |calls| ==> (i + 1 < |calls| <==> i < 2 && calls[i].Reply() == Done))
  }

  /** Nobody returns from the dead between the calls. */
  predicate Mortal(calls: seq<Call>) {
    && (forall i :: 0 <= i < |calls| ==> calls[i].Lawful())
    && (forall i :: 0 < i < |calls| ==> calls[i].world.alive <= calls[i - 1].left)
  }

  /** What proc_kill reports, from the replies. */
  function StatusOf(calls: seq<Call>): KillStatus
    requires calls != []
  {
    if calls[0].Reply() == Denied then KillDenied
    else if calls[0].Reply() == Gone then KillNotFound
    else if |calls| == 3 && calls[2].Reply() == Denied then KillDenied
    else KillOk
  }

  /** The calls made since there were n. */
  function Since(calls: seq<Call>, n: nat): seq<Call>
    requires n <= |calls|
  {
    calls[n..]
  }

  /** proc_kill. */
  method ProcKill(kernel: Kernel, pid: u32) returns (status: KillStatus)
    modifies kernel
    ensures |kernel.calls| >= |old(kernel.calls)| && kernel.calls[..|old(kernel.calls)|] == old(kernel.calls)
    ensures pid == 0 || pid == 1 ==> status == KillProtected && kernel.calls == old(kernel.calls)
    ensures pid != 0 && pid != 1 ==>
              var trace := Since(kernel.calls, |old(kernel.calls)|);
              && KillTrace(PidT(pid), trace) && Mortal(trace) && status == StatusOf(trace)
              && trace[0].world.alive <= old(kernel.world.alive)
              && kernel.world.alive == trace[|trace| - 1].left
  {
    if IsProtected(pid) {
      return KillProtected;
    }
    var terminated := kernel.Send(PidT(pid), Terminate);
    if terminated != Done {
      return if terminated == Denied then KillDenied else KillNotFound;
    }
    var probed := kernel.Send(PidT(pid), Probe);
    if probed == Done {
      var destroyed := kernel.Send(PidT(pid), Destroy);
      if destroyed == Denied {
        return KillDenied;
      }
    }
    status := KillOk;
  }

  // ---------- What a trace of calls means ----------

  function AliveAfter(calls: seq<Call>): set<int>
    requires calls != []
  {
    calls[|calls| - 1].left
  }

  /** SIGKILL was accepted, and its target is still there. */
  predicate Unkilled(target: int, calls: seq<Call>) {
    |calls| == 3 && calls[2].Reply() == Done && target in calls[2].left
  }

  /** Success is reported although the process is still there if and only if the probe was refused, or
      SIGKILL was accepted and has not ended the process yet, for which the program does not wait. */
  lemma SuccessMeansGoneIff(target: int, calls: seq<Call>)
    requires KillTrace(target, calls) && Mortal(calls) && StatusOf(calls) == KillOk
    ensures target in AliveAfter(calls) <==> (|calls| > 1 && calls[1].Reply() == Denied) || Unkilled(target, calls)
  {
  }

  /** Every report, by what the calls met. */
  lemma StatusMeans(target: int, calls: seq<Call>)
    requires KillTrace(target, calls) && Mortal(calls)
    ensures StatusOf(calls) == KillNotFound <==> target !in calls[0].world.alive
    ensures StatusOf(calls) == KillDenied <==>
              exists i {:trigger calls[i]} :: 0 <= i < |calls| && i != 1
                && target in calls[i].world.alive && target !in calls[i].world.allowed
    ensures StatusOf(calls) == KillDenied ==> target in AliveAfter(calls)
  {
  }

  /** The permission to signal the process does not change from call to call. */
  predicate Steady(target: int, calls: seq<Call>) {
    forall i, j :: 0 <= i < j < |calls| ==> (target in calls[i].world.allowed <==> target in calls[j].world.allowed)
  }

  /** With steady permissions success means gone, or not ended by SIGKILL yet; denial means refused at
      once and still there; and the report was settled by the first call. */
  lemma SteadyKill(target: int, calls: seq<Call>)
    requires KillTrace(target, calls) && Mortal(calls) && Steady(target, calls)
    ensures StatusOf(calls) == KillOk <==> target in calls[0].world.alive && target in calls[0].world.allowed
    ensures StatusOf(calls) == KillOk ==> (target in AliveAfter(calls) <==> Unkilled(target, calls))
    ensures StatusOf(calls) == KillDenied ==> |calls| == 1 && target in AliveAfter(calls)
  {
  }

  /** Survivors of a reported success: a process that changes its owner after SIGTERM, so that the probe
      is refused; and one that SIGKILL does not end at once. */
  lemma SurvivorsOfSuccess() returns (changed: seq<Call>, unkilled: seq<Call>)
    ensures forall calls :: calls in {changed, unkilled} ==>
              KillTrace(500, calls) && Mortal(calls) && StatusOf(calls) == KillOk && 500 in AliveAfter(calls)
    ensures |changed| == 2 && changed[1].Reply() == Denied
    ensures Steady(500, unkilled) && Unkilled(500, unkilled)
  {
    var free, other := World({500}, {500}), World({500}, {});
    changed := [Call(500, Terminate, free, {500}), Call(500, Probe, other, {500})];
    unkilled := [Call(500, Terminate, free, {500}), Call(500, Probe, free, {500}), Call(500, Destroy, free, {500})];
    assert changed[0].Reply() == Done && changed[1].Reply() == Denied;
    assert unkilled[0].Reply() == unkilled[1].Reply() == unkilled[2].Reply() == Done;
  }

  // ---------- The command ----------

  /** confirm_kill: the first character of the answer, none at the end of input. */
  function Confirmed(answer: Option<char>): bool { answer == Some('y') || answer == Some('Y') }

  function KillExitCode(status: KillStatus): int {
    match status
    case KillOk => EXIT_OK
    case KillDenied | KillProtected => EXIT_DENIED
    case KillNotFound => EXIT_NOT_FOUND
  }

  /** How the command went, up to the signals. */
  datatype Course =
    | Refused              // its own process, or a protected one
    | NoSnapshot
    | Unlisted
    | Asked(name: string)  // the user was asked about the process of this name

  /** The course that the command takes, and the calls it may make on it. The flag says whether a request
      for memory was refused. */
  ghost predicate Follows(pid: u32, self: u32, scan: Scan, answer: Option<char>, machine: Machine, starved: bool,
                          course: Course, trace: seq<Call>) {
    && (course == Refused <==> pid in {self, 0, 1})
    && (course == NoSnapshot <==> course != Refused && (!scan.listable || starved))
    && (course == Unlisted ==> Find(ScanItems(scan, machine), pid) == None)
    && (course.Asked? ==>
          var at := Find(ScanItems(scan, machine), pid);
          at.Some? && course.name == ScanItems(scan, machine)[at.value].name)
    && (trace != [] <==> course.Asked? && answer in {Some('y'), Some('Y')})
    && (trace != [] ==> KillTrace(PidT(pid), trace) && Mortal(trace))
  }

  /** The exit code at the end of a course. */
  function CommandCode(course: Course, trace: seq<Call>): int {
    match course
    case Refused => EXIT_DENIED
    case NoSnapshot | Unlisted => EXIT_NOT_FOUND
    case Asked(_) => if trace == [] then EXIT_OK else KillExitCode(StatusOf(trace))
  }

  /** run_kill. */
  method RunKill(pid: u32, self: u32, scan: Scan, answer: Option<char>, machine: Machine, heap: Heap, kernel: Kernel)
    returns (code: int, course: Course)
    requires heap.Valid()
    modifies heap, kernel
    ensures heap.Valid() && heap.live == old(heap.live)
    ensures |kernel.calls| >= |old(kernel.calls)| && kernel.calls[..|old(kernel.calls)|] == old(kernel.calls)
    ensures var trace := Since(kernel.calls, |old(kernel.calls)|);
            && Follows(pid, self, scan, answer, machine, heap.refusals > old(heap.refusals), course, trace)
            && code == CommandCode(course, trace)
            && (trace != [] ==> kernel.world.alive == AliveAfter(trace))
  {
    var list := new ProcessList();
    if pid == self || IsProtected(pid) {
      return EXIT_DENIED, Refused;
    }
    var status := ProcSnapshot(list, scan, machine, heap);
    if status != SnapshotOk {
      list.Free(heap);
      return EXIT_NOT_FOUND, NoSnapshot;
    }
    code, course := KillListed(list, pid, answer, kernel, heap);
    list.Free(heap);
  }

  /** run_kill from the search on. */
  method KillListed(list: ProcessList, pid: u32, answer: Option<char>, kernel: Kernel, ghost heap: Heap)
    returns (code: int, course: Course)
    requires list.Valid() && list.OwnedIn(heap) && pid !in {0, 1}
    modifies kernel
    ensures |kernel.calls| >= |old(kernel.calls)| && kernel.calls[..|old(kernel.calls)|] == old(kernel.calls)
    ensures course == match Find(list.Contents(), pid)
                      case None => Unlisted
                      case Some(at) => Asked(list.Contents()[at].name)
    ensures var trace := Since(kernel.calls, |old(kernel.calls)|);
            && (trace != [] <==> course.Asked? && answer in {Some('y'), Some('Y')})
            && (trace != [] ==> KillTrace(PidT(pid), trace) && Mortal(trace) && kernel.world.alive == AliveAfter(trace))
            && code == CommandCode(course, trace)
  {
    var target := list.FindPid(pid, heap);
    if target.None? {
      return EXIT_NOT_FOUND, Unlisted;
    }
    course := Asked(list.items[target.value].name);
    if !Confirmed(answer) {
      return EXIT_OK, course;
    }
    var status := ProcKill(kernel, pid);
    code := KillExitCode(status);
  }

  /** After the user has confirmed, exit code 0 exactly when the process met by SIGTERM was there and
      could be signalled, and SIGKILL was not refused. */
  lemma ExitZeroIff(target: int, calls: seq<Call>)
    requires KillTrace(target, calls)
    ensures KillExitCode(StatusOf(calls)) == 0 <==>
              && target in calls[0].world.alive * calls[0].world.allowed
              && !(|calls| == 3 && calls[2].Reply() == Denied)
  {
  }

  /** The target is missing: /proc has no directory for it, or it was gone when SIGTERM was sent. */
  ghost predicate TargetMissing(pid: u32, scan: Scan, trace: seq<Call>) {
    !Listed(scan, pid) || (trace != [] && PidT(pid) !in trace[0].world.alive)
  }

  /** A signal that ends a process was sent and refused. */
  predicate SignalRefused(trace: seq<Call>) {
    exists i {:trigger trace[i]} :: 0 <= i < |trace| && i != 1 && trace[i].Reply() == Denied
  }

  /** Every exit code of the command, and when it is returned. */
  lemma ExitCodesMean(pid: u32, self: u32, scan: Scan, answer: Option<char>, machine: Machine, starved: bool,
                      course: Course, trace: seq<Call>)
    requires machine.strtoull == Strtoul && ListsPids(scan)
    requires Follows(pid, self, scan, answer, machine, starved, course, trace)
    ensures CommandCode(course, trace) == 3 <==>
              && pid !in {self, 0, 1}
              && (!scan.listable || starved || !Readable(scan, machine, pid) || TargetMissing(pid, scan, trace))
    ensures CommandCode(course, trace) == 2 <==> pid in {self, 0, 1} || SignalRefused(trace)
    ensures CommandCode(course, trace) in {0, 2, 3}
    ensures course.Asked? && answer !in {Some('y'), Some('Y')} ==> CommandCode(course, trace) == 0 && trace == []
  {
    FoundIffReadable(scan, machine, pid);
    if trace != [] {
      StatusMeans(PidT(pid), trace);
      assert StatusOf(trace) == KillDenied <==> SignalRefused(trace);
      FoundIsListed(scan, machine, pid);
    }
  }

  /** Code 3 is documented to mean a missing target. For a pid that may be ended it does if and only if
      the target is not listed, or the snapshot can be taken and a record of the target can be read: a
      listed process that cannot be read, and a snapshot that fails, give code 3 as well. */
  lemma ExitThreeMeansMissingIff(pid: u32, self: u32, scan: Scan, answer: Option<char>, machine: Machine, starved: bool,
                                 course: Course, trace: seq<Call>)
    requires machine.strtoull == Strtoul && ListsPids(scan)
    requires Follows(pid, self, scan, answer, machine, starved, course, trace)
    requires pid !in {self, 0, 1}
    ensures (CommandCode(course, trace) == 3 <==> TargetMissing(pid, scan, trace))
       <==> !Listed(scan, pid) || (scan.listable && !starved && Readable(scan, machine, pid))
  {
    ExitCodesMean(pid, self, scan, answer, machine, starved, course, trace);
    FoundIffReadable(scan, machine, pid);
  }

  /** When /proc cannot be listed, or memory runs out, the code is 3 whether or not there is a target. */
  lemma FailedSnapshotExitsThree(pid: u32, self: u32, scan: Scan, answer: Option<char>, machine: Machine, starved: bool,
                                 course: Course, trace: seq<Call>)
    requires Follows(pid, self, scan, answer, machine, starved, course, trace)
    requires (!scan.listable || starved) && pid !in {self, 0, 1}
    ensures CommandCode(course, trace) == 3
    ensures Listed(scan, pid) ==> !TargetMissing(pid, scan, trace)
  {
  }

  lemma DecimalOf500()
    ensures Decimal(500) == "500"
  {
    assert Decimal(5) == "5";
    assert Decimal(50) == "5" + "0";
    assert Decimal(500) == "50" + "0";
  }

  /** Process 500 is listed, but its stat file cannot be read: code 3, without a missing target. */
  lemma UnreadableExitsThree(answer: Option<char>, machine: Machine)
    requires machine.strtoull == Strtoul
    ensures var scan := Scan(true, 0, [Entry("500", None)]);
            && ListsPids(scan) && Listed(scan, 500)
            && Follows(500, 7, scan, answer, machine, false, Unlisted, [])
            && CommandCode(Unlisted, []) == 3 && !TargetMissing(500, scan, [])
  {
    var e := Entry("500", None);
    var scan := Scan(true, 0, [e]);
    DecimalOf500();
    assert scan.entries[0].name == Decimal(500);
    assert NamesPid("500");
    assert Records(machine)(e) == [];
    FoundIffReadable(scan, machine, 500);
  }

  // ---------- The process that is signalled ----------

  /** A process that is found, and so may be signalled, is the one whose directory was listed: neither
      the reduction of the directory name to 32 bits nor pid_t makes it another one. */
  lemma FoundIsListed(scan: Scan, machine: Machine, pid: u32)
    requires machine.strtoull == Strtoul && ListsPids(scan)
    requires Find(ScanItems(scan, machine), pid).Some?
    ensures PidT(pid) == pid && exists e :: e in scan.entries && e.name == Decimal(pid)
  {
    var at := Find(ScanItems(scan, machine), pid).value;
    var e := RecordComesFromEntry(scan.entries, machine, ScanItems(scan, machine)[at]);
    var p: u32 :| p < TWO_32 / 2 && e.name == Decimal(p);
    PidOfDirectory(p, machine);
  }
}
