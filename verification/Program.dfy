/** The program as a whole (`main` in c/src/main.c). */
module Program {
  import opened Basics
  import opened StatParser
  import opened ProcessLists
  import opened Snapshots
  import opened Render
  import opened Args
  import opened Monitor
  import opened Kill

  /** What the settings make the program do, and with which exit code. */
  ghost predicate Performed(s: Settings, self: u32, cpuCount: nat, scan: Scan, env: seq<Scan>, answer: Option<char>,
                            machine: Machine, starved: bool, code: int, screen: seq<Frame>,
                            course: Option<Course>, trace: seq<Call>) {
    if s.killPid.Some? then
      && screen == [] && course.Some?
      && Follows(s.killPid.value, self, scan, answer, machine, starved, course.value, trace)
      && code == CommandCode(course.value, trace)
    else
      && course == None && trace == []
      && RunShown(screen, env, machine, cpuCount, s)
      && (s.once && env != [] ==> |screen| <= 1 && code == if |screen| == 1 then 0 else 3)
      && (!s.once || env == [] ==> |screen| <= |env| && code == if |screen| == |env| then 0 else 3)
      && (code != 0 ==> !env[|screen|].listable || starved)
  }

  /** Runs the command line. The kill command finds `scan` in /proc; the monitor finds `env`, round by
      round, and is interrupted when that is used up, perhaps at once. Whatever happens, no memory stays
      allocated, and the outcome of the parser decides what is done and how the program exits. */
  method Run(argv: seq<string>, self: u32, cpuCount: nat, scan: Scan, env: seq<Scan>, answer: Option<char>,
             machine: Machine, heap: Heap, kernel: Kernel)
    returns (code: int, screen: seq<Frame>, course: Option<Course>)
    requires heap.Valid()
    modifies heap, kernel
    ensures heap.Valid() && heap.live == old(heap.live)
    ensures |kernel.calls| >= |old(kernel.calls)| && kernel.calls[..|old(kernel.calls)|] == old(kernel.calls)
    ensures var trace := Since(kernel.calls, |old(kernel.calls)|);
            match Parse(C, if argv == [] then [] else argv[1..])
            case Parsed(s) =>
              Performed(s, self, cpuCount, scan, env, answer, machine, heap.refusals > old(heap.refusals),
                        code, screen, course, trace)
            case Help => code == 0 && screen == [] && course == None && trace == []
            case UsageError => code == 1 && screen == [] && course == None && trace == []
  {
    var options := new Options();
    screen, course := [], None;
    var status := options.ParseArgs(argv);
    if status == ArgsHelp {
      code := EXIT_OK;
    } else if status == ArgsError {
      code := EXIT_USAGE;
    } else if options.hasKill {
      var c;
      code, c := RunKill(options.killPid, self, scan, answer, machine, heap, kernel);
      course := Some(c);
    } else {
      var settings := Settings(options.intervalMs, options.filter, options.sort, options.top, None, options.once);
      code, screen := RunMonitor(settings, cpuCount, machine, env, heap);
    }
  }
}
