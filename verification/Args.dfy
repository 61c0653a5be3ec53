/** The command line, parsed three times: the index loop of c/src/args.c, the span loop of
    cpp/src/Args.cpp and the iterator loop of rust/src/cli.rs. All three walk the arguments alike; they
    differ in how they read a number and in whether a filter has a maximal length. */
module Args {
  import opened Basics
  import opened Numbers
  import opened ProcessModel

  const DEFAULT_INTERVAL_MS: nat := 1000
  const DEFAULT_TOP: nat := 25
  const MIN_INTERVAL_MS: nat := 50
  const MAX_INTERVAL_MS: nat := 60000
  const MAX_TOP: nat := 500
  const FILTER_MAX: nat := 128

  datatype Settings = Settings(
    intervalMs: nat, filter: string, sort: SortKey, top: nat, killPid: Option<u32>, once: bool)

  datatype Outcome = Parsed(settings: Settings) | Help | UsageError

  function Defaults(): Settings { Settings(DEFAULT_INTERVAL_MS, "", ByCpu, DEFAULT_TOP, None, false) }

  /** Settings that the command line contract allows. */
  predicate ValidSettings(o: Settings) {
    MIN_INTERVAL_MS <= o.intervalMs <= MAX_INTERVAL_MS && 1 <= o.top <= MAX_TOP && |o.filter| < FILTER_MAX
  }

  // ---------- Operands ----------

  datatype Dialect = C | Cpp | Rust

  /** parse_ulong: everything strtoul takes, provided it takes the whole text without overflow. */
  function CNumber(text: string): Option<u64> {
    var n := ReadNumeral(text, 0);
    if n.NotANumber? || n.end != |text| || n.magnitude >= TWO_64 then None else Some(UlongOf(n))
  }

  /** toNumber: std::from_chars for an unsigned type takes digits only. */
  function CppNumber(text: string): Option<u64> {
    if IsNumeral(text) && Value(text) < TWO_64 then Some(Value(text)) else None
  }

  /** parse_number: str::parse::<u64> also takes one leading plus. */
  function RustNumber(text: string): Option<u64> {
    CppNumber(if text != "" && text[0] == '+' then text[1..] else text)
  }

  function Number(d: Dialect, text: string): Option<u64> {
    match d
    case C => CNumber(text)
    case Cpp => CppNumber(text)
    case Rust => RustNumber(text)
  }

  function SortOf(text: string): Option<SortKey> {
    if text == "cpu" then Some(ByCpu)
    else if text == "mem" then Some(ByMem)
    else if text == "pid" then Some(ByPid)
    else if text == "name" then Some(ByName)
    else None
  }

  function SortWord(key: SortKey): string {
    match key
    case ByCpu => "cpu"
    case ByMem => "mem"
    case ByPid => "pid"
    case ByName => "name"
  }

  // ---------- The walk ----------

  datatype Flag = IntervalFlag | FilterFlag | SortFlag | TopFlag | KillFlag

  function FlagWord(f: Flag): string {
    match f
    case IntervalFlag => "--interval"
    case FilterFlag => "--filter"
    case SortFlag => "--sort"
    case TopFlag => "--top"
    case KillFlag => "--kill"
  }

  function FlagOf(arg: string): (r: Option<Flag>)
    ensures r.Some? ==> FlagWord(r.value) == arg
  {
    if arg == "--interval" then Some(IntervalFlag)
    else if arg == "--filter" then Some(FilterFlag)
    else if arg == "--sort" then Some(SortFlag)
    else if arg == "--top" then Some(TopFlag)
    else if arg == "--kill" then Some(KillFlag)
    else None
  }

  /** Whether a numeric flag takes the number. */
  predicate Accepts(f: Flag, n: u64) {
    match f
    case IntervalFlag => MIN_INTERVAL_MS <= n <= MAX_INTERVAL_MS
    case TopFlag => 1 <= n <= MAX_TOP
    case _ => n < TWO_32
  }

  function StoreNumber(f: Flag, n: u64, s: Settings): Settings
    requires Accepts(f, n)
  {
    match f
    case IntervalFlag => s.(intervalMs := n)
    case TopFlag => s.(top := n)
    case _ => s.(killPid := Some(n))
  }

  /** The settings after a flag and its operand; nothing if the operand is refused. */
  function Store(d: Dialect, f: Flag, value: string, s: Settings): Option<Settings> {
    match f
    case FilterFlag => if d == C && |value| >= FILTER_MAX then None else Some(s.(filter := value))
    case SortFlag => if SortOf(value).None? then None else Some(s.(sort := SortOf(value).value))
    case _ =>
      var n := Number(d, value);
      if n.None? || !Accepts(f, n.value) then None else Some(StoreNumber(f, n.value, s))
  }

  /** The outcome from position i on. */
  function Walk(d: Dialect, args: seq<string>, i: nat, s: Settings): Outcome
    requires i <= |args|
    decreases |args| - i
  {
    if i == |args| then Parsed(s)
    else if args[i] == "--help" || args[i] == "-h" then Help
    else if args[i] == "--once" then Walk(d, args, i + 1, s.(once := true))
    else if FlagOf(args[i]).None? || i + 1 == |args| then UsageError
    else
      match Store(d, FlagOf(args[i]).value, args[i + 1], s)
      case None => UsageError
      case Some(s') => Walk(d, args, i + 2, s')
  }

  function Parse(d: Dialect, args: seq<string>): Outcome { Walk(d, args, 0, Defaults()) }

  /** What has been stored when the walk ends, with whatever outcome. */
  function StoredBy(d: Dialect, args: seq<string>, i: nat, s: Settings): Settings
    requires i <= |args|
    decreases |args| - i
  {
    if i == |args| || args[i] == "--help" || args[i] == "-h" then s
    else if args[i] == "--once" then StoredBy(d, args, i + 1, s.(once := true))
    else if FlagOf(args[i]).None? || i + 1 == |args| then s
    else
      match Store(d, FlagOf(args[i]).value, args[i + 1], s)
      case None => s
      case Some(s') => StoredBy(d, args, i + 2, s')
  }

  lemma {:induction false} ParsedIsStored(d: Dialect, args: seq<string>, i: nat, s: Settings)
    requires i <= |args|
    ensures Walk(d, args, i, s).Parsed? ==> Walk(d, args, i, s).settings == StoredBy(d, args, i, s)
    decreases |args| - i
  {
    if i < |args| && args[i] != "--help" && args[i] != "-h" {
      if args[i] == "--once" {
        ParsedIsStored(d, args, i + 1, s.(once := true));
      } else if FlagOf(args[i]).Some? && i + 1 < |args| {
        var r := Store(d, FlagOf(args[i]).value, args[i + 1], s);
        if r.Some? {
          ParsedIsStored(d, args, i + 2, r.value);
        }
      }
    }
  }

  // ---------- C ----------

  datatype ArgsStatus = ArgsOk | ArgsError | ArgsHelp

  function OutcomeOf(status: ArgsStatus, s: Settings): Outcome {
    match status
    case ArgsOk => Parsed(s)
    case ArgsError => UsageError
    case ArgsHelp => Help
  }

  /** The Options structure of C, filled in place. */
  class Options {
    var intervalMs: nat
    var filter: string
    var sort: SortKey
    var top: nat
    var killPid: u32
    var hasKill: bool
    var once: bool

    ghost function View(): Settings
      reads this
    {
      Settings(intervalMs, filter, sort, top, if hasKill then Some(killPid) else None, once)
    }

    constructor ()
      ensures View() == Defaults()
    {
      new;
      SetDefaults();
    }

    method SetDefaults()
      modifies this
      ensures View() == Defaults()
    {
      intervalMs, filter, sort, top := DEFAULT_INTERVAL_MS, "", ByCpu, DEFAULT_TOP;
      killPid, hasKill, once := 0, false, false;
    }

    /** args_parse; argv[0] is the name of the program, when there is one. */
    method ParseArgs(argv: seq<string>) returns (status: ArgsStatus)
      modifies this
      ensures var args := if argv == [] then [] else argv[1..];
              && OutcomeOf(status, View()) == Parse(C, args)
              && View() == StoredBy(C, args, 0, Defaults())
    {
      SetDefaults();
      ghost var args := if argv == [] then [] else argv[1..];
      ParsedIsStored(C, args, 0, Defaults());
      var i := 1;
      while i < |argv|
        invariant 1 <= i <= |argv| + 1 && i - 1 <= |args|
        invariant Walk(C, args, 0, Defaults()) == Walk(C, args, i - 1, View())
        invariant StoredBy(C, args, 0, Defaults()) == StoredBy(C, args, i - 1, View())
        decreases |argv| - i
      {
        var arg := argv[i];
        assert arg == args[i - 1];
        var needsValue := arg == "--interval" || arg == "--filter" || arg == "--sort" || arg == "--top"
                          || arg == "--kill";

        if arg == "--help" || arg == "-h" {
          return ArgsHelp;
        }
        if arg == "--once" {
          once := true;
          i := i + 1;
          continue;
        }
        if !needsValue {
          return ArgsError;
        }
        if i + 1 >= |argv| {
          return ArgsError;
        }
        i := i + 1;
        var value := argv[i];
        assert value == args[i - 1];
        var stored := StoreOperand(arg, value);
        if !stored {
          return ArgsError;
        }
        i := i + 1;
      }
      status := ArgsOk;
    }

    /** The branches of args_parse that check an operand and assign a field. */
    method StoreOperand(arg: string, value: string) returns (stored: bool)
      requires FlagOf(arg).Some?
      modifies this
      ensures var r := Store(C, FlagOf(arg).value, value, old(View()));
              && stored == r.Some?
              && View() == (if stored then r.value else old(View()))
    {
      if arg == "--interval" {
        var number := CNumber(value);
        if number.None? || number.value < MIN_INTERVAL_MS || number.value > MAX_INTERVAL_MS {
          return false;
        }
        intervalMs := number.value;
      } else if arg == "--top" {
        var number := CNumber(value);
        if number.None? || number.value == 0 || number.value > MAX_TOP {
          return false;
        }
        top := number.value;
      } else if arg == "--kill" {
        var number := CNumber(value);
        if number.None? || number.value > TWO_32 - 1 {
          return false;
        }
        killPid := number.value;
        hasKill := true;
      } else if arg == "--sort" {
        var key := SortOf(value);
        if key.None? {
          return false;
        }
        sort := key.value;
      } else {
        if |value| >= FILTER_MAX {
          return false;
        }
        filter := value;
      }
      stored := true;
    }
  }

  // ---------- C++ ----------

  method ParseArgsCpp(args: seq<string>) returns (r: Outcome)
    ensures r == Parse(Cpp, args)
  {
    var options := Defaults();
    var i := 0;
    while i < |args|
      invariant i <= |args| && Parse(Cpp, args) == Walk(Cpp, args, i, options)
      decreases |args| - i
    {
      var arg := args[i];
      if arg == "--help" || arg == "-h" {
        return Help;
      }
      if arg == "--once" {
        options := options.(once := true);
        i := i + 1;
        continue;
      }
      if arg != "--interval" && arg != "--filter" && arg != "--sort" && arg != "--top" && arg != "--kill" {
        return UsageError;
      }
      if i + 1 >= |args| {
        return UsageError;
      }
      i := i + 1;
      var value := args[i];
      i := i + 1;
      var stored := StoreOperandCpp(arg, value, options);
      if stored.None? {
        return UsageError;
      }
      options := stored.value;
    }
    r := Parsed(options);
  }

  /** The branches of parseArgs that check an operand and assign a field. */
  method StoreOperandCpp(arg: string, value: string, initial: Settings) returns (r: Option<Settings>)
    requires FlagOf(arg).Some?
    ensures r == Store(Cpp, FlagOf(arg).value, value, initial)
  {
    if arg == "--filter" {
      return Some(initial.(filter := value));
    }
    if arg == "--sort" {
      var key := SortOf(value);
      return if key.None? then None else Some(initial.(sort := key.value));
    }
    var number := CppNumber(value);
    if number.None? {
      return None;
    }
    if arg == "--interval" {
      if number.value < MIN_INTERVAL_MS || number.value > MAX_INTERVAL_MS {
        return None;
      }
      return Some(initial.(intervalMs := number.value));
    } else if arg == "--top" {
      if number.value == 0 || number.value > MAX_TOP {
        return None;
      }
      return Some(initial.(top := number.value));
    } else {
      if number.value > 0xFFFF_FFFF {
        return None;
      }
      return Some(initial.(killPid := Some(number.value)));
    }
  }

  // ---------- Rust ----------

  /** The iterator is the list of arguments not yet pulled. */
  method ParseArgsRust(arguments: seq<string>) returns (r: Outcome)
    ensures r == Parse(Rust, arguments)
  {
    var options := Defaults();
    var pending := arguments;
    while pending != []
      invariant |pending| <= |arguments| && pending == arguments[|arguments| - |pending|..]
      invariant Parse(Rust, arguments) == Walk(Rust, arguments, |arguments| - |pending|, options)
      decreases |pending|
    {
      var argument := pending[0];
      pending := pending[1..];
      match argument {
        case "--help" => return Help;
        case "-h" => return Help;
        case "--once" =>
          options := options.(once := true);
          continue;
        case "--interval" =>
        case "--filter" =>
        case "--sort" =>
        case "--top" =>
        case "--kill" =>
        case _ => return UsageError;
      }
      if pending == [] {
        return UsageError;
      }
      var stored := StoreOperandRust(argument, pending[0], options);
      pending := pending[1..];
      if stored.None? {
        return UsageError;
      }
      options := stored.value;
    }
    r := Parsed(options);
  }

  /** The second match of the loop: checks the operand and assigns a field. */
  method StoreOperandRust(argument: string, value: string, initial: Settings) returns (r: Option<Settings>)
    requires FlagOf(argument).Some?
    ensures r == Store(Rust, FlagOf(argument).value, value, initial)
  {
    var options := initial;
    match argument {
      case "--filter" => options := options.(filter := value);
      case "--sort" =>
        var key := SortOf(value);
        if key.None? { return None; }
        options := options.(sort := key.value);
      case "--interval" =>
        var millis := RustNumber(value);
        if millis.None? || !(MIN_INTERVAL_MS <= millis.value <= MAX_INTERVAL_MS) { return None; }
        options := options.(intervalMs := millis.value);
      case "--top" =>
        var top := RustNumber(value);
        if top.None? || top.value == 0 || top.value > MAX_TOP { return None; }
        options := options.(top := top.value);
      case _ =>
        var pid := RustNumber(value);
        if pid.None? || pid.value > TWO_32 - 1 { return None; }
        options := options.(killPid := Some(pid.value));
    }
    return Some(options);
  }
}
