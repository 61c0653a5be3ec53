/** The refresh loop (`run_monitor` in c/src/main.c): three lists whose buffers change hands every
    round, and the frames that appear on the screen. */
module Monitor {
  import opened Basics
  import opened ProcessModel
  import opened StatParser
  import opened ProcessLists
  import opened Snapshots
  import opened CpuShare
  import opened Render
  import opened Args

  const EXIT_OK: int := 0
  const EXIT_USAGE: int := 1
  const EXIT_DENIED: int := 2
  const EXIT_NOT_FOUND: int := 3

  function SamplesOf(env: seq<Scan>, machine: Machine): seq<Sample> {
    seq(|env|, i requires 0 <= i < |env| => SampleOf(env[i], machine))
  }

  /** The list of round k after the CPU join. */
  function MeasuredIn(env: seq<Scan>, machine: Machine, cpuCount: nat, k: nat): Sample
    requires k < |env|
  {
    Measured(SamplesOf(env, machine), cpuCount, k)
  }

  /** What a round measures, from what the round before measured. */
  function NextSample(scan: Scan, machine: Machine, cpuCount: nat, previous: Sample): Sample {
    SampleOf(scan, machine).(items := ApplyCpu(SampleOf(scan, machine), previous, cpuCount))
  }

  /** The measured lists of all rounds, by round. */
  ghost predicate IsHistory(history: seq<Sample>, env: seq<Scan>, machine: Machine, cpuCount: nat) {
    && |history| == |env|
    && forall k {:trigger MeasuredIn(env, machine, cpuCount, k)} :: 0 <= k < |env| ==>
         history[k] == MeasuredIn(env, machine, cpuCount, k)
  }

  /** The list that round k joins against. */
  function Before(history: seq<Sample>, k: nat): Sample
    requires k <= |history|
  {
    if k == 0 then Sample([], 0) else history[k - 1]
  }

  lemma HistoryExists(env: seq<Scan>, machine: Machine, cpuCount: nat) returns (history: seq<Sample>)
    ensures IsHistory(history, env, machine, cpuCount)
  {
    history := seq(|env|, k requires 0 <= k < |env| => MeasuredIn(env, machine, cpuCount, k));
  }

  lemma HistoryStep(history: seq<Sample>, env: seq<Scan>, machine: Machine, cpuCount: nat, k: nat)
    requires IsHistory(history, env, machine, cpuCount) && k < |env|
    ensures history[k] == NextSample(env[k], machine, cpuCount, Before(history, k))
  {
    assert history[k] == MeasuredIn(env, machine, cpuCount, k);
    if k > 0 {
      assert history[k - 1] == MeasuredIn(env, machine, cpuCount, k - 1);
    }
  }

  /** The frame shows the measured processes: filtered, in some sorted order, cut to the top rows. */
  ghost predicate Shows(frame: Frame, measured: Sample, options: Settings) {
    exists list :: SortedPermutation(options.sort, Filter(measured.items, options.filter), list)
                   && frame == FrameOf(list, options.top)
  }

  /** Every round so far could take a snapshot, and its frame shows what it measured. */
  ghost predicate AllShown(screen: seq<Frame>, env: seq<Scan>, history: seq<Sample>, options: Settings) {
    |screen| <= |env| && |screen| <= |history| &&
    forall k {:trigger Shows(screen[k], history[k], options)} :: 0 <= k < |screen| ==>
      env[k].listable && Shows(screen[k], history[k], options)
  }

  lemma AllShownExtends(screen: seq<Frame>, frame: Frame, env: seq<Scan>, history: seq<Sample>, options: Settings)
    requires AllShown(screen, env, history, options) && |screen| < |env| == |history| && env[|screen|].listable
    requires Shows(frame, history[|screen|], options)
    ensures AllShown(screen + [frame], env, history, options)
  {
    forall k | 0 <= k < |screen| + 1
      ensures env[k].listable && Shows((screen + [frame])[k], history[k], options)
    {
      assert k < |screen| ==> Shows(screen[k], history[k], options);
    }
  }

  /** The same, stated for the run. */
  ghost predicate RunShown(screen: seq<Frame>, env: seq<Scan>, machine: Machine, cpuCount: nat, options: Settings) {
    |screen| <= |env| &&
    forall k {:trigger MeasuredIn(env, machine, cpuCount, k)} :: 0 <= k < |screen| ==>
      env[k].listable && Shows(screen[k], MeasuredIn(env, machine, cpuCount, k), options)
  }

  lemma AllShownIsRunShown(screen: seq<Frame>, env: seq<Scan>, history: seq<Sample>, machine: Machine,
                           cpuCount: nat, options: Settings)
    requires IsHistory(history, env, machine, cpuCount) && AllShown(screen, env, history, options)
    ensures RunShown(screen, env, machine, cpuCount, options)
  {
    forall k | 0 <= k < |screen|
      ensures env[k].listable && Shows(screen[k], MeasuredIn(env, machine, cpuCount, k), options)
    {
      assert Shows(screen[k], history[k], options);
    }
  }

  // ---------- Ownership ----------

  /** Three different lists whose buffers are separate, live, and all that is live beside `base`. */
  ghost predicate Owners(current: ProcessList, previous: ProcessList, shown: ProcessList, heap: Heap, base: set<Buffer>)
    reads current, previous, shown, heap
  {
    && current != previous && current != shown && previous != shown
    && current.Ready(heap) && previous.Ready(heap) && shown.Ready(heap)
    && Blocks(current.items) !! Blocks(previous.items) !! Blocks(shown.items) !! base
    && heap.live == base + Blocks(current.items) + Blocks(previous.items) + Blocks(shown.items)
  }

  /** At the head of the loop `current` owns nothing. */
  ghost predicate LoopHead(current: ProcessList, previous: ProcessList, shown: ProcessList, heap: Heap,
                           base: set<Buffer>)
    reads current, previous, shown, heap
  {
    Owners(current, previous, shown, heap, base) && current.items == null
  }

  ghost function Owned(current: ProcessList, previous: ProcessList, shown: ProcessList): set<object>
    reads current, previous, shown
  {
    {current, previous, shown} + Blocks(current.items) + Blocks(previous.items) + Blocks(shown.items)
  }

  // ---------- One round ----------

  datatype RoundResult = Refreshed(frame: Frame) | Failed

  /** Snapshot and CPU join into `current`. */
  method Measure(current: ProcessList, previous: ProcessList, shown: ProcessList, env: seq<Scan>, round: nat,
                 machine: Machine, cpuCount: nat, heap: Heap, ghost base: set<Buffer>, ghost history: seq<Sample>)
    returns (ok: bool)
    requires LoopHead(current, previous, shown, heap, base)
    requires round < |env| && IsHistory(history, env, machine, cpuCount)
    requires previous.AsSample() == Before(history, round)
    modifies current, heap
    ensures Owners(current, previous, shown, heap, base)
    ensures current.items == null || fresh(current.items)
    ensures ok ==> env[round].listable && current.AsSample() == history[round]
    ensures ok ==> heap.refusals == old(heap.refusals)
    ensures !ok ==> !env[round].listable || heap.refusals > old(heap.refusals)
  {
    var status := ProcSnapshot(current, env[round], machine, heap);
    if status != SnapshotOk {
      return false;
    }
    current.JoinCpu(previous, cpuCount, heap);
    HistoryStep(history, env, machine, cpuCount, round);
    ok := true;
  }

  lemma ShowsList(list: seq<ProcessInfo>, measured: Sample, options: Settings)
    requires SortedPermutation(options.sort, Filter(measured.items, options.filter), list)
    ensures Shows(FrameOf(list, options.top), measured, options)
  {
  }

  /** Copy, filter, sort and render, as far as the list that is shown is concerned. */
  method Arrange(shown: ProcessList, current: ProcessList, options: Settings, heap: Heap, ghost measured: Sample)
    returns (r: RoundResult)
    requires shown != current && shown.Ready(heap) && current.Ready(heap)
    requires current.items != null ==> current.items != shown.items
    requires current.AsSample() == measured
    modifies shown, heap, Blocks(shown.items)
    ensures shown.Ready(heap) && shown.OwnsItsChanges(heap)
    ensures r.Refreshed? ==> Shows(r.frame, measured, options) && heap.refusals == old(heap.refusals)
    ensures r.Failed? ==> heap.refusals > old(heap.refusals)
  {
    var copied := shown.CopyFrom(current, heap);
    if !copied {
      return Failed;
    }
    var frame := ArrangeCopy(shown, options, heap, measured);
    r := Refreshed(frame);
  }

  /** Filter, sort and render the copy. */
  method ArrangeCopy(shown: ProcessList, options: Settings, ghost heap: Heap, ghost measured: Sample)
    returns (frame: Frame)
    requires shown.Valid() && shown.OwnedIn(heap) && shown.Contents() == measured.items
    modifies shown`count, Blocks(shown.items)
    ensures shown.Valid()
    ensures Shows(frame, measured, options)
  {
    shown.FilterByName(options.filter, heap);
    shown.SortBy(options.sort, heap);
    ghost var list := shown.Contents();
    frame := RenderTable(shown, options.top, heap);
    ShowsList(list, measured, options);
  }

  method Display(current: ProcessList, previous: ProcessList, shown: ProcessList, options: Settings,
                 heap: Heap, ghost base: set<Buffer>, ghost measured: Sample) returns (r: RoundResult)
    requires Owners(current, previous, shown, heap, base) && current.AsSample() == measured
    modifies shown, heap, Blocks(shown.items)
    ensures Owners(current, previous, shown, heap, base)
    ensures shown.items == old(shown.items) || fresh(shown.items)
    ensures r.Refreshed? ==> Shows(r.frame, measured, options) && heap.refusals == old(heap.refusals)
    ensures r.Failed? ==> heap.refusals > old(heap.refusals)
  {
    r := Arrange(shown, current, options, heap, measured);
  }

  /** previous = current, after releasing what previous held. */
  method HandOver(current: ProcessList, previous: ProcessList, shown: ProcessList, heap: Heap, ghost base: set<Buffer>)
    requires Owners(current, previous, shown, heap, base)
    modifies current, previous, heap, Blocks(previous.items)
    ensures LoopHead(current, previous, shown, heap, base)
    ensures previous.AsSample() == old(current.AsSample()) && previous.items == old(current.items)
    ensures heap.refusals == old(heap.refusals)
  {
    previous.Free(heap);
    previous.TakeOver(current);
  }

  /** Display what was measured, then hand it over for the next round. */
  method Refresh(current: ProcessList, previous: ProcessList, shown: ProcessList, options: Settings,
                 heap: Heap, ghost base: set<Buffer>, ghost measured: Sample) returns (r: RoundResult)
    requires Owners(current, previous, shown, heap, base) && current.AsSample() == measured
    modifies current, previous, shown, heap, Blocks(previous.items), Blocks(shown.items)
    ensures Owners(current, previous, shown, heap, base)
    ensures shown.items == old(shown.items) || fresh(shown.items)
    ensures r.Refreshed? ==>
              && current.items == null && previous.items == old(current.items) && previous.AsSample() == measured
              && Shows(r.frame, measured, options) && heap.refusals == old(heap.refusals)
    ensures r.Failed? ==>
              && heap.refusals > old(heap.refusals)
              && current.items == old(current.items) && previous.items == old(previous.items)
  {
    r := Display(current, previous, shown, options, heap, base, measured);
    if r.Refreshed? {
      HandOver(current, previous, shown, heap, base);
    }
  }

  /** The body of the loop: one more frame, or failure. */
  method RunRound(current: ProcessList, previous: ProcessList, shown: ProcessList, options: Settings, cpuCount: nat,
                  machine: Machine, env: seq<Scan>, screen: seq<Frame>, heap: Heap,
                  ghost base: set<Buffer>, ghost history: seq<Sample>)
    returns (ok: bool, screen': seq<Frame>)
    requires |screen| < |env| && IsHistory(history, env, machine, cpuCount) && AllShown(screen, env, history, options)
    requires previous.AsSample() == Before(history, |screen|)
    requires LoopHead(current, previous, shown, heap, base)
    modifies Owned(current, previous, shown), heap
    ensures Owners(current, previous, shown, heap, base)
    ensures fresh(Owned(current, previous, shown) - old(Owned(current, previous, shown)))
    ensures ok ==> current.items == null && heap.refusals == old(heap.refusals)
    ensures ok ==> |screen'| == |screen| + 1 && AllShown(screen', env, history, options)
    ensures ok ==> previous.AsSample() == Before(history, |screen'|)
    ensures !ok ==> screen' == screen && (!env[|screen|].listable || heap.refusals > old(heap.refusals))
  {
    ok := Measure(current, previous, shown, env, |screen|, machine, cpuCount, heap, base, history);
    if !ok {
      return false, screen;
    }
    var r := Refresh(current, previous, shown, options, heap, base, history[|screen|]);
    if r.Failed? {
      return false, screen;
    }
    AllShownExtends(screen, r.frame, env, history, options);
    return true, screen + [r.frame];
  }

  /** The three releases that end every run. */
  method ReleaseAll(current: ProcessList, previous: ProcessList, shown: ProcessList, heap: Heap,
                    ghost base: set<Buffer>)
    requires Owners(current, previous, shown, heap, base)
    modifies Owned(current, previous, shown), heap
    ensures heap.Valid() && heap.live == base
    ensures heap.refusals == old(heap.refusals)
  {
    shown.Free(heap);
    current.Free(heap);
    previous.Free(heap);
  }

  // ---------- The run ----------

  /** The loop, from three empty lists. At its head `current` owns nothing. */
  method RunLoop(current: ProcessList, previous: ProcessList, shown: ProcessList, options: Settings, cpuCount: nat,
                 machine: Machine, env: seq<Scan>, heap: Heap, ghost base: set<Buffer>, ghost history: seq<Sample>)
    returns (code: int, screen: seq<Frame>)
    requires LoopHead(current, previous, shown, heap, base)
    requires previous.AsSample() == Sample([], 0) && IsHistory(history, env, machine, cpuCount)
    modifies Owned(current, previous, shown), heap
    ensures Owners(current, previous, shown, heap, base)
    ensures fresh(Owned(current, previous, shown) - old(Owned(current, previous, shown)))
    ensures AllShown(screen, env, history, options)
    ensures options.once && env != [] ==> |screen| <= 1 && (code == 0 <==> |screen| == 1)
    ensures !options.once || env == [] ==> |screen| <= |env| && (code == 0 <==> |screen| == |env|)
    ensures code != 0 ==> code == 3 && (!env[|screen|].listable || heap.refusals > old(heap.refusals))
    ensures code == 0 ==> heap.refusals == old(heap.refusals)
    ensures code == 0 ==> current.items == null
  {
    code, screen := EXIT_OK, [];
    while |screen| < |env|
      invariant |screen| <= |env|
      invariant fresh(Owned(current, previous, shown) - old(Owned(current, previous, shown)))
      invariant LoopHead(current, previous, shown, heap, base)
      invariant previous.AsSample() == Before(history, |screen|)
      invariant AllShown(screen, env, history, options)
      invariant options.once ==> screen == []
      invariant heap.refusals == old(heap.refusals) && code == EXIT_OK
      decreases |env| - |screen|
    {
      var ok;
      ok, screen := RunRound(current, previous, shown, options, cpuCount, machine, env, screen, heap, base, history);
      assert fresh(Owned(current, previous, shown) - old(Owned(current, previous, shown)));
      if !ok {
        code := EXIT_NOT_FOUND;
        break;
      }
      if options.once {
        break;
      }
    }
  }

  /** A run until it is interrupted, ends by itself or fails. The environment is what the system shows
      in each round; the run is interrupted when it is used up. However it ends, every block it
      allocated has been released. The frames are right, in order and complete, and the exit code says
      whether the run failed. */
  method RunMonitor(options: Settings, cpuCount: nat, machine: Machine, env: seq<Scan>, heap: Heap)
    returns (code: int, screen: seq<Frame>)
    requires heap.Valid()
    modifies heap
    ensures heap.Valid() && heap.live == old(heap.live)
    ensures RunShown(screen, env, machine, cpuCount, options)
    ensures options.once && env != [] ==> |screen| <= 1 && (code == 0 <==> |screen| == 1)
    ensures !options.once || env == [] ==> |screen| <= |env| && (code == 0 <==> |screen| == |env|)
    ensures code != 0 ==> code == 3 && (!env[|screen|].listable || heap.refusals > old(heap.refusals))
    ensures code == 0 ==> heap.refusals == old(heap.refusals)
  {
    var current := new ProcessList();
    var previous := new ProcessList();
    var shown := new ProcessList();
    ghost var base := heap.live;
    ghost var history := HistoryExists(env, machine, cpuCount);
    code, screen := RunLoop(current, previous, shown, options, cpuCount, machine, env, heap, base, history);
    AllShownIsRunShown(screen, env, history, machine, cpuCount, options);
    ReleaseAll(current, previous, shown, heap, base);
  }
}
