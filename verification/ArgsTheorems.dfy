/** What the three parsers promise: printing settings as flags and parsing them is the identity in
    every order, and the parsers agree with each other as long as operands are written plainly. */
module ArgsTheorems {
  import opened Basics
  import opened Numbers
  import opened ProcessModel
  import opened Args

  // ---------- Round trip ----------

  /** One flag on the command line, with its operand. */
  datatype Setting =
    | SetInterval(ms: nat)
    | SetFilter(text: string)
    | SetSort(key: SortKey)
    | SetTop(n: nat)
    | SetKill(pid: u32)
    | SetOnce

  function Words(x: Setting): seq<string> {
    match x
    case SetInterval(ms) => ["--interval", Decimal(ms)]
    case SetFilter(text) => ["--filter", text]
    case SetSort(key) => ["--sort", SortWord(key)]
    case SetTop(n) => ["--top", Decimal(n)]
    case SetKill(pid) => ["--kill", Decimal(pid)]
    case SetOnce => ["--once"]
  }

  function Print(list: seq<Setting>): seq<string> {
    if list == [] then [] else Words(list[0]) + Print(list[1..])
  }

  predicate ValidSetting(d: Dialect, x: Setting) {
    match x
    case SetInterval(ms) => MIN_INTERVAL_MS <= ms <= MAX_INTERVAL_MS
    case SetFilter(text) => d == C ==> |text| < FILTER_MAX
    case SetTop(n) => 1 <= n <= MAX_TOP
    case _ => true
  }

  function Apply(s: Settings, x: Setting): Settings {
    match x
    case SetInterval(ms) => s.(intervalMs := ms)
    case SetFilter(text) => s.(filter := text)
    case SetSort(key) => s.(sort := key)
    case SetTop(n) => s.(top := n)
    case SetKill(pid) => s.(killPid := Some(pid))
    case SetOnce => s.(once := true)
  }

  /** Later flags override earlier ones. */
  function ApplyAll(s: Settings, list: seq<Setting>): Settings
    decreases |list|
  {
    if list == [] then s else ApplyAll(Apply(s, list[0]), list[1..])
  }

  lemma NumeralReads(text: string)
    requires IsNumeral(text)
    ensures ReadNumeral(text, 0) == Numeral(false, Value(text), |text|)
    ensures text[0] != '+'
  {
    DigitsAreDigits(text, 0);
    ReadPlainNumeral(text, 0);
  }

  /** Every dialect reads a printed number back. */
  lemma NumberRoundTrip(d: Dialect, n: u64)
    ensures Number(d, Decimal(n)) == Some(n)
  {
    NumberIsRead(d, n);
  }

  /** The flag that a setting other than SetOnce is printed with. */
  function FlagIn(x: Setting): Flag {
    match x
    case SetInterval(_) => IntervalFlag
    case SetFilter(_) => FilterFlag
    case SetSort(_) => SortFlag
    case SetTop(_) => TopFlag
    case SetKill(_) | SetOnce => KillFlag
  }

  lemma FlagIsFound(f: Flag)
    ensures FlagOf(FlagWord(f)) == Some(f)
    ensures FlagWord(f) != "--help" && FlagWord(f) != "-h" && FlagWord(f) != "--once"
  {
  }

  lemma NumberIsStored(d: Dialect, f: Flag, n: u64, s: Settings)
    requires !f.FilterFlag? && !f.SortFlag? && Accepts(f, n)
    ensures Store(d, f, Decimal(n), s) == Some(StoreNumber(f, n, s))
  {
    NumberRoundTrip(d, n);
  }

  lemma SortIsStored(d: Dialect, key: SortKey, s: Settings)
    ensures Store(d, SortFlag, SortWord(key), s) == Some(s.(sort := key))
  {
  }

  lemma OperandRoundTrip(d: Dialect, x: Setting, s: Settings)
    requires ValidSetting(d, x) && !x.SetOnce?
    ensures Store(d, FlagIn(x), Words(x)[1], s) == Some(Apply(s, x))
  {
    match x
    case SetInterval(ms) => NumberIsStored(d, IntervalFlag, ms, s);
    case SetTop(n) => NumberIsStored(d, TopFlag, n, s);
    case SetKill(pid) => NumberIsStored(d, KillFlag, pid, s);
    case SetSort(key) => SortIsStored(d, key, s);
    case SetFilter(_) =>
  }

  lemma WalkFlag(d: Dialect, args: seq<string>, i: nat, f: Flag, s: Settings)
    requires i + 1 < |args| && args[i] == FlagWord(f)
    ensures var r := Store(d, f, args[i + 1], s);
            Walk(d, args, i, s) == if r.None? then UsageError else Walk(d, args, i + 2, r.value)
  {
    FlagIsFound(f);
  }

  lemma StoreFlag(d: Dialect, args: seq<string>, i: nat, f: Flag, s: Settings)
    requires i + 1 < |args| && args[i] == FlagWord(f)
    ensures var r := Store(d, f, args[i + 1], s);
            StoredBy(d, args, i, s) == if r.None? then s else StoredBy(d, args, i + 2, r.value)
  {
    FlagIsFound(f);
  }

  /** The words of the setting stand in the arguments at position i. */
  predicate StandsIn(args: seq<string>, i: nat, x: Setting) {
    i + |Words(x)| <= |args| && args[i] == Words(x)[0] && (!x.SetOnce? ==> args[i + 1] == Words(x)[1])
  }

  /** One flag on the command line, with its operand, is one step of the walk. */
  lemma WalkStep(d: Dialect, args: seq<string>, i: nat, x: Setting, s: Settings)
    requires ValidSetting(d, x) && StandsIn(args, i, x)
    ensures Walk(d, args, i, s) == Walk(d, args, i + |Words(x)|, Apply(s, x))
  {
    if !x.SetOnce? {
      assert Words(x)[0] == FlagWord(FlagIn(x));
      OperandRoundTrip(d, x, s);
      WalkFlag(d, args, i, FlagIn(x), s);
    }
  }

  lemma StoreStep(d: Dialect, args: seq<string>, i: nat, x: Setting, s: Settings)
    requires ValidSetting(d, x) && StandsIn(args, i, x)
    ensures StoredBy(d, args, i, s) == StoredBy(d, args, i + |Words(x)|, Apply(s, x))
  {
    if !x.SetOnce? {
      assert Words(x)[0] == FlagWord(FlagIn(x));
      OperandRoundTrip(d, x, s);
      StoreFlag(d, args, i, FlagIn(x), s);
    }
  }

  lemma SplitAt<T>(args: seq<T>, i: nat, words: seq<T>, rest: seq<T>)
    requires i <= |args| && args[i..] == words + rest
    ensures i + |words| <= |args| && args[i + |words|..] == rest
    ensures forall k :: 0 <= k < |words| ==> args[i + k] == words[k]
  {
    assert |args[i..]| == |args| - i;
    forall k | 0 <= k < |words| ensures args[i + k] == words[k] {
      assert args[i + k] == args[i..][k];
    }
    assert args[i + |words|..] == args[i..][|words|..];
  }

  lemma FirstStands(args: seq<string>, i: nat, x: Setting, rest: seq<string>)
    requires i <= |args| && args[i..] == Words(x) + rest
    ensures StandsIn(args, i, x) && args[i + |Words(x)|..] == rest
  {
    SplitAt(args, i, Words(x), rest);
    assert args[i + 0] == Words(x)[0];
  }

  lemma PrintSplits(list: seq<Setting>, rest: seq<string>)
    requires list != []
    ensures Print(list) + rest == Words(list[0]) + (Print(list[1..]) + rest)
    ensures |Print(list)| == |Words(list[0])| + |Print(list[1..])|
  {
    var words, more := Words(list[0]), Print(list[1..]);
    assert (words + more) + rest == words + (more + rest);
  }

  lemma NothingPrinted(args: seq<string>, i: nat, rest: seq<string>)
    requires i <= |args| && args[i..] == Print([]) + rest
    ensures args[i..] == rest
  {
    assert [] + rest == rest;
  }

  /** The function w steps over the flags that stand in the arguments, applying each. The induction below
      needs no more than that. */
  ghost predicate StepsOver<T(!new)>(w: (nat, Settings) -> T, d: Dialect, args: seq<string>) {
    forall i: nat, x: Setting, s: Settings {:trigger StandsIn(args, i, x), Apply(s, x)} ::
      ValidSetting(d, x) && StandsIn(args, i, x) ==> w(i, s) == w(i + |Words(x)|, Apply(s, x))
  }

  /** After the flags of a list the walk goes on with the settings they spell. */
  lemma {:induction false} WalkRoundTrip<T(!new)>(w: (nat, Settings) -> T, d: Dialect, args: seq<string>, i: nat,
                                                  list: seq<Setting>, rest: seq<string>, s: Settings)
    requires StepsOver(w, d, args) && i <= |args| && args[i..] == Print(list) + rest
    requires forall k :: 0 <= k < |list| ==> ValidSetting(d, list[k])
    ensures i + |Print(list)| <= |args| && args[i + |Print(list)|..] == rest
    ensures w(i, s) == w(i + |Print(list)|, ApplyAll(s, list))
    decreases |list|
  {
    if list == [] {
      NothingPrinted(args, i, rest);
    } else {
      PrintSplits(list, rest);
      FirstStands(args, i, list[0], Print(list[1..]) + rest);
      WalkRoundTrip(w, d, args, i + |Words(list[0])|, list[1..], rest, Apply(s, list[0]));
    }
  }

  function WalkOver(d: Dialect, args: seq<string>): (nat, Settings) -> Outcome {
    (i: nat, s: Settings) => if i <= |args| then Walk(d, args, i, s) else UsageError
  }

  function StoreOver(d: Dialect, args: seq<string>): (nat, Settings) -> Settings {
    (i: nat, s: Settings) => if i <= |args| then StoredBy(d, args, i, s) else s
  }

  lemma WalkStepsOver(d: Dialect, args: seq<string>)
    ensures StepsOver(WalkOver(d, args), d, args)
  {
    forall i: nat, x: Setting, s: Settings {:trigger StandsIn(args, i, x), Apply(s, x)}
      | ValidSetting(d, x) && StandsIn(args, i, x)
      ensures WalkOver(d, args)(i, s) == WalkOver(d, args)(i + |Words(x)|, Apply(s, x))
    {
      WalkStep(d, args, i, x, s);
    }
  }

  lemma StoreStepsOver(d: Dialect, args: seq<string>)
    ensures StepsOver(StoreOver(d, args), d, args)
  {
    forall i: nat, x: Setting, s: Settings {:trigger StandsIn(args, i, x), Apply(s, x)}
      | ValidSetting(d, x) && StandsIn(args, i, x)
      ensures StoreOver(d, args)(i, s) == StoreOver(d, args)(i + |Words(x)|, Apply(s, x))
    {
      StoreStep(d, args, i, x, s);
    }
  }

  /** The setting says what o says. */
  predicate Says(x: Setting, o: Settings) { Apply(o, x) == o }

  datatype Kind = OfInterval | OfFilter | OfSort | OfTop | OfKill | OfOnce

  predicate SameAt(k: Kind, s: Settings, o: Settings) {
    match k
    case OfInterval => s.intervalMs == o.intervalMs
    case OfFilter => s.filter == o.filter
    case OfSort => s.sort == o.sort
    case OfTop => s.top == o.top
    case OfKill => s.killPid == o.killPid
    case OfOnce => s.once == o.once
  }

  /** The flag that sets a field to its value in o; there is none for no pid and for not once. */
  function FlagFor(k: Kind, o: Settings): Option<Setting> {
    match k
    case OfInterval => Some(SetInterval(o.intervalMs))
    case OfFilter => Some(SetFilter(o.filter))
    case OfSort => Some(SetSort(o.sort))
    case OfTop => Some(SetTop(o.top))
    case OfKill => if o.killPid.Some? then Some(SetKill(o.killPid.value)) else None
    case OfOnce => if o.once then Some(SetOnce) else None
  }

  /** o differs from s only where the list speaks. */
  ghost predicate Covers(list: seq<Setting>, s: Settings, o: Settings) {
    forall k: Kind :: SameAt(k, s, o) || (FlagFor(k, o).Some? && FlagFor(k, o).value in list)
  }

  lemma ApplySays(k: Kind, s: Settings, x: Setting, o: Settings)
    requires Says(x, o)
    ensures SameAt(k, s, o) ==> SameAt(k, Apply(s, x), o)
    ensures FlagFor(k, o) == Some(x) ==> SameAt(k, Apply(s, x), o)
  {
  }

  lemma CoversRest(list: seq<Setting>, s: Settings, o: Settings)
    requires list != [] && Says(list[0], o) && Covers(list, s, o)
    ensures Covers(list[1..], Apply(s, list[0]), o)
  {
    forall k: Kind
      ensures SameAt(k, Apply(s, list[0]), o) || (FlagFor(k, o).Some? && FlagFor(k, o).value in list[1..])
    {
      ApplySays(k, s, list[0], o);
    }
  }

  lemma CoversNothing(s: Settings, o: Settings)
    requires Covers([], s, o)
    ensures s == o
  {
    assert SameAt(OfInterval, s, o) && SameAt(OfFilter, s, o) && SameAt(OfSort, s, o);
    assert SameAt(OfTop, s, o) && SameAt(OfKill, s, o) && SameAt(OfOnce, s, o);
  }

  lemma {:induction false} ApplyAllReaches(list: seq<Setting>, s: Settings, o: Settings)
    requires forall k :: 0 <= k < |list| ==> Says(list[k], o)
    requires Covers(list, s, o)
    ensures ApplyAll(s, list) == o
    decreases |list|
  {
    if list == [] {
      CoversNothing(s, o);
    } else {
      CoversRest(list, s, o);
      ApplyAllReaches(list[1..], Apply(s, list[0]), o);
    }
  }

  /** The flags that spell settings out. */
  function FlagsOf(o: Settings): seq<Setting> {
    [SetInterval(o.intervalMs), SetFilter(o.filter), SetSort(o.sort), SetTop(o.top)]
    + (if o.killPid.Some? then [SetKill(o.killPid.value)] else [])
    + (if o.once then [SetOnce] else [])
  }

  lemma FlagsSay(d: Dialect, o: Settings, x: Setting)
    requires ValidSettings(o) && x in FlagsOf(o)
    ensures ValidSetting(d, x) && Says(x, o)
  {
  }

  lemma FlagsCover(o: Settings)
    ensures Covers(FlagsOf(o), Defaults(), o)
  {
    var flags := FlagsOf(o);
    assert flags[0] in flags && flags[1] in flags && flags[2] in flags && flags[3] in flags;
    assert o.killPid.Some? ==> flags[4] == SetKill(o.killPid.value);
    assert o.once ==> flags[|flags| - 1] == SetOnce;
  }

  /** Printing any valid settings as flags, in any order, and parsing them gives the settings back, in
      each of the three programs. The filter may itself look like a flag. */
  lemma ArgsRoundTrip(d: Dialect, o: Settings, list: seq<Setting>)
    requires ValidSettings(o) && multiset(list) == multiset(FlagsOf(o))
    ensures Parse(d, Print(list)) == Parsed(o)
  {
    SameMembers(list, FlagsOf(o));
    forall k | 0 <= k < |list|
      ensures ValidSetting(d, list[k]) && Says(list[k], o)
    {
      FlagsSay(d, o, list[k]);
    }
    FlagsCover(o);
    CoversIgnoresOrder(FlagsOf(o), list, Defaults(), o);
    ApplyAllReaches(list, Defaults(), o);
    FlagListParses(d, list);
  }

  lemma SameMembers(s: seq<Setting>, t: seq<Setting>)
    requires multiset(s) == multiset(t)
    ensures forall x :: x in s <==> x in t
  {
    assert forall x :: x in s <==> x in multiset(s);
    assert forall x :: x in t <==> x in multiset(t);
  }

  lemma CoversIgnoresOrder(s: seq<Setting>, t: seq<Setting>, from: Settings, o: Settings)
    requires (forall x :: x in s <==> x in t) && Covers(s, from, o)
    ensures Covers(t, from, o)
  {
  }

  /** Any list of valid flags, with repetitions, parses to the settings it spells: the last flag of
      each kind wins. */
  lemma FlagListParses(d: Dialect, list: seq<Setting>)
    requires forall k :: 0 <= k < |list| ==> ValidSetting(d, list[k])
    ensures Parse(d, Print(list)) == Parsed(ApplyAll(Defaults(), list))
  {
    AfterFlags(d, list, []);
    assert Print(list) + [] == Print(list);
  }

  // ---------- What the documentation says of each flag ----------

  lemma AfterFlags(d: Dialect, list: seq<Setting>, rest: seq<string>)
    requires forall k :: 0 <= k < |list| ==> ValidSetting(d, list[k])
    ensures var args, n := Print(list) + rest, |Print(list)|;
            && args[n..] == rest
            && Parse(d, args) == Walk(d, args, n, ApplyAll(Defaults(), list))
            && StoredBy(d, args, 0, Defaults()) == StoredBy(d, args, n, ApplyAll(Defaults(), list))
  {
    var args := Print(list) + rest;
    assert args[0..] == Print(list) + rest;
    WalkStepsOver(d, args);
    StoreStepsOver(d, args);
    WalkRoundTrip(WalkOver(d, args), d, args, 0, list, rest, Defaults());
    WalkRoundTrip(StoreOver(d, args), d, args, 0, list, rest, Defaults());
  }

  /** What C has stored when a word ends the walk: the settings of the flags before it. */
  lemma WordKeepsStored(list: seq<Setting>, word: string, rest: seq<string>)
    requires forall k :: 0 <= k < |list| ==> ValidSetting(C, list[k])
    requires word != "--once"
    requires word in {"--interval", "--filter", "--sort", "--top", "--kill"} ==> rest == []
    ensures StoredBy(C, Print(list) + ([word] + rest), 0, Defaults()) == ApplyAll(Defaults(), list)
  {
    AfterFlags(C, list, [word] + rest);
    StoredWord(C, Print(list) + ([word] + rest), |Print(list)|, word, rest, ApplyAll(Defaults(), list));
  }

  lemma StoredWord(d: Dialect, args: seq<string>, i: nat, word: string, rest: seq<string>, s: Settings)
    requires i <= |args| && args[i..] == [word] + rest
    requires word != "--once"
    requires word in {"--interval", "--filter", "--sort", "--top", "--kill"} ==> rest == []
    ensures StoredBy(d, args, i, s) == s
  {
    assert |args| - i == 1 + |rest|;
    assert args[i] == args[i..][0];
  }

  /** After any valid flags: help is given whatever follows, an unknown word is an error whatever follows,
      and so is a flag without its operand. */
  lemma WordEndsParse(d: Dialect, list: seq<Setting>, word: string, rest: seq<string>)
    requires forall k :: 0 <= k < |list| ==> ValidSetting(d, list[k])
    ensures word in {"--help", "-h"} ==> Parse(d, Print(list) + ([word] + rest)) == Help
    ensures word !in {"--help", "-h", "--once", "--interval", "--filter", "--sort", "--top", "--kill"} ==>
              Parse(d, Print(list) + ([word] + rest)) == UsageError
    ensures word in {"--interval", "--filter", "--sort", "--top", "--kill"} && rest == [] ==>
              Parse(d, Print(list) + ([word] + rest)) == UsageError
  {
    AfterFlags(d, list, [word] + rest);
    WalkWord(d, Print(list) + ([word] + rest), |Print(list)|, word, rest, ApplyAll(Defaults(), list));
  }

  lemma WalkWord(d: Dialect, args: seq<string>, i: nat, word: string, rest: seq<string>, s: Settings)
    requires i <= |args| && args[i..] == [word] + rest
    ensures word in {"--help", "-h"} ==> Walk(d, args, i, s) == Help
    ensures word !in {"--help", "-h", "--once", "--interval", "--filter", "--sort", "--top", "--kill"} ==>
              Walk(d, args, i, s) == UsageError
    ensures word in {"--interval", "--filter", "--sort", "--top", "--kill"} && rest == [] ==>
              Walk(d, args, i, s) == UsageError
  {
    assert |args| - i == 1 + |rest|;
    assert args[i] == args[i..][0];
  }

  /** Without flags the documented defaults apply, and --once changes one of them. */
  lemma DefaultsAre(d: Dialect)
    ensures Parse(d, []) == Parsed(Settings(1000, "", ByCpu, 25, None, false))
    ensures Parse(d, ["--once"]) == Parsed(Settings(1000, "", ByCpu, 25, None, true))
  {
    assert Walk(d, ["--once"], 1, Defaults().(once := true)) == Parsed(Defaults().(once := true));
  }

  /** The ranges of the three numbers, for every number that can be written. */
  lemma RangesAre(d: Dialect, n: nat)
    ensures Parse(d, ["--interval", Decimal(n)])
         == if 50 <= n <= 60000 then Parsed(Settings(n, "", ByCpu, 25, None, false)) else UsageError
    ensures Parse(d, ["--top", Decimal(n)])
         == if 1 <= n <= 500 then Parsed(Settings(1000, "", ByCpu, n, None, false)) else UsageError
    ensures Parse(d, ["--kill", Decimal(n)])
         == if n <= 0xFFFF_FFFF then Parsed(Settings(1000, "", ByCpu, 25, Some(n), false)) else UsageError
  {
    NumberIsRead(d, n);
    assert FlagWord(IntervalFlag) == "--interval" && FlagWord(TopFlag) == "--top" && FlagWord(KillFlag) == "--kill";
    OneFlagParses(d, IntervalFlag, Decimal(n));
    OneFlagParses(d, TopFlag, Decimal(n));
    OneFlagParses(d, KillFlag, Decimal(n));
  }

  lemma NumberIsRead(d: Dialect, n: nat)
    ensures Number(d, Decimal(n)) == if n < TWO_64 then Some(n) else None
  {
    DecimalRoundTrip(n);
    NumeralReads(Decimal(n));
  }

  /** The four sort words, and no other. */
  lemma SortWordsAre(d: Dialect, word: string)
    ensures Parse(d, ["--sort", word]) == UsageError <==> word !in {"cpu", "mem", "pid", "name"}
    ensures Parse(d, ["--sort", "cpu"]) == Parsed(Settings(1000, "", ByCpu, 25, None, false))
    ensures Parse(d, ["--sort", "mem"]) == Parsed(Settings(1000, "", ByMem, 25, None, false))
    ensures Parse(d, ["--sort", "pid"]) == Parsed(Settings(1000, "", ByPid, 25, None, false))
    ensures Parse(d, ["--sort", "name"]) == Parsed(Settings(1000, "", ByName, 25, None, false))
  {
    assert FlagWord(SortFlag) == "--sort";
    OneFlagParses(d, SortFlag, word);
    OneFlagParses(d, SortFlag, "cpu");
    OneFlagParses(d, SortFlag, "mem");
    OneFlagParses(d, SortFlag, "pid");
    OneFlagParses(d, SortFlag, "name");
  }

  /** Every filter is taken, in C if it has fewer than 128 bytes. */
  lemma FiltersAre(d: Dialect, text: string)
    ensures Parse(d, ["--filter", text])
         == if d == C && |text| >= 128 then UsageError else Parsed(Settings(1000, text, ByCpu, 25, None, false))
  {
    assert FlagWord(FilterFlag) == "--filter";
    OneFlagParses(d, FilterFlag, text);
  }

  // ---------- What a successful parse guarantees ----------

  lemma {:induction false} WalkKeepsContract(d: Dialect, args: seq<string>, i: nat, s: Settings)
    requires i <= |args|
    requires MIN_INTERVAL_MS <= s.intervalMs <= MAX_INTERVAL_MS && 1 <= s.top <= MAX_TOP
    requires d == C ==> |s.filter| < FILTER_MAX
    ensures var o := StoredBy(d, args, i, s);
            && MIN_INTERVAL_MS <= o.intervalMs <= MAX_INTERVAL_MS && 1 <= o.top <= MAX_TOP
            && (d == C ==> |o.filter| < FILTER_MAX)
    decreases |args| - i
  {
    if i < |args| && args[i] != "--help" && args[i] != "-h" {
      if args[i] == "--once" {
        WalkKeepsContract(d, args, i + 1, s.(once := true));
      } else if FlagOf(args[i]).Some? && i + 1 < |args| {
        var r := Store(d, FlagOf(args[i]).value, args[i + 1], s);
        if r.Some? {
          WalkKeepsContract(d, args, i + 2, r.value);
        }
      }
    }
  }

  /** C's parser leaves settings within the contract on every command line, accepted or not. */
  lemma CStaysInContract(args: seq<string>)
    ensures var o := StoredBy(C, args, 0, Defaults());
            50 <= o.intervalMs <= 60000 && 1 <= o.top <= 500 && |o.filter| < 128
  {
    WalkKeepsContract(C, args, 0, Defaults());
  }

  // ---------- Agreement ----------

  /** The operand starts with something only some of the parsers skip. */
  predicate Decorated(text: string) {
    text != "" && (IsSpace(text[0]) || text[0] == '+' || text[0] == '-')
  }

  lemma UndecoratedReads(text: string)
    requires !Decorated(text)
    ensures CNumber(text) == CppNumber(text) == RustNumber(text)
  {
    var n := DigitsEnd(text, 0);
    assert SpaceEnd(text, 0) == 0;
    if n > 0 {
      DigitsAreDigits(text, 0);
    }
  }

  /** C and C++ read an operand differently exactly when it is decorated and C takes it all the same;
      Rust and C++ exactly when it is a number after a plus sign. */
  lemma NumbersAgreeIff(text: string)
    ensures CNumber(text) == CppNumber(text) <==> !(Decorated(text) && CNumber(text).Some?)
    ensures RustNumber(text) == CppNumber(text)
       <==> !(text != "" && text[0] == '+' && CppNumber(text[1..]).Some?)
  {
    if !Decorated(text) {
      UndecoratedReads(text);
    } else {
      assert DigitsEnd(text, 0) == 0;
      assert !IsNumeral(text);
    }
  }

  /** The operand starts with something that C skips and the dialect does not. */
  predicate Odd(d: Dialect, text: string) { Decorated(text) && !(d == Rust && text[0] == '+') }

  /** An odd operand is no number to C++ and Rust; any other they read as C does. */
  lemma OperandReads(d: Dialect, text: string)
    requires d != C
    ensures if Odd(d, text) then Number(d, text).None? else Number(d, text) == Number(C, text)
  {
    NumbersAgreeIff(text);
    if !Decorated(text) {
      UndecoratedReads(text);
    } else {
      assert DigitsEnd(text, 0) == 0;
      assert !IsNumeral(text);
      if d == Rust && text[0] == '+' {
        PlusIsSkipped(text);
      }
    }
  }

  /** strtoul and str::parse agree on a text that starts with a plus sign. */
  lemma PlusIsSkipped(text: string)
    requires text != "" && text[0] == '+'
    ensures CNumber(text) == CppNumber(text[1..])
  {
    var digits := text[1..];
    assert SpaceEnd(text, 0) == 0;
    DigitsEndOfRest(text, 1);
    if IsNumeral(digits) {
      ValueOfCopy(text, 1, digits, 0, |digits|);
    }
  }

  lemma {:induction false} DigitsEndOfRest(text: string, i: nat)
    requires 1 <= i <= |text|
    ensures DigitsEnd(text, i) == DigitsEnd(text[1..], i - 1) + 1
    decreases |text| - i
  {
    if i < |text| && IsDigit(text[i]) {
      DigitsEndOfRest(text, i + 1);
    }
  }

  /** Along the walk, no numeric operand is odd. */
  predicate PlainFrom(d: Dialect, args: seq<string>, i: nat)
    requires i <= |args|
    decreases |args| - i
  {
    if i == |args| || args[i] == "--help" || args[i] == "-h" then true
    else if args[i] == "--once" then PlainFrom(d, args, i + 1)
    else if FlagOf(args[i]).None? || i + 1 == |args| then true
    else
      && (FlagOf(args[i]).value.FilterFlag? || FlagOf(args[i]).value.SortFlag? || !Odd(d, args[i + 1]))
      && PlainFrom(d, args, i + 2)
  }

  /** Along the walk, every filter fits C's buffer. */
  predicate FiltersFit(args: seq<string>, i: nat)
    requires i <= |args|
    decreases |args| - i
  {
    if i == |args| || args[i] == "--help" || args[i] == "-h" then true
    else if args[i] == "--once" then FiltersFit(args, i + 1)
    else if FlagOf(args[i]).None? || i + 1 == |args| then true
    else (FlagOf(args[i]).value.FilterFlag? ==> |args[i + 1]| < FILTER_MAX) && FiltersFit(args, i + 2)
  }

  lemma StoresCompared(d: Dialect, f: Flag, value: string, s: Settings)
    requires d != C && (f.FilterFlag? ==> |value| < FILTER_MAX)
    ensures if !f.FilterFlag? && !f.SortFlag? && Odd(d, value) then Store(d, f, value, s).None?
            else Store(d, f, value, s) == Store(C, f, value, s)
  {
    if !f.FilterFlag? && !f.SortFlag? {
      OperandReads(d, value);
    }
  }

  lemma {:induction false} WalksAgreeIff(d: Dialect, args: seq<string>, i: nat, s: Settings)
    requires d != C && i <= |args| && FiltersFit(args, i)
    ensures Walk(C, args, i, s) == Walk(d, args, i, s) <==> Walk(C, args, i, s) == UsageError || PlainFrom(d, args, i)
    ensures Walk(C, args, i, s) == UsageError ==> Walk(d, args, i, s) == UsageError
    decreases |args| - i
  {
    if i < |args| && args[i] != "--help" && args[i] != "-h" {
      if args[i] == "--once" {
        WalksAgreeIff(d, args, i + 1, s.(once := true));
      } else if FlagOf(args[i]).Some? && i + 1 < |args| {
        StoresCompared(d, FlagOf(args[i]).value, args[i + 1], s);
        var r := Store(C, FlagOf(args[i]).value, args[i + 1], s);
        if r.Some? {
          WalksAgreeIff(d, args, i + 2, r.value);
        }
      }
    }
  }

  lemma {:induction false} LongFilterStopsWalk(args: seq<string>, i: nat, s: Settings)
    requires i <= |args| && !FiltersFit(args, i)
    ensures Walk(C, args, i, s) == UsageError
    decreases |args| - i
  {
    if args[i] == "--once" {
      LongFilterStopsWalk(args, i + 1, s.(once := true));
    } else {
      var r := Store(C, FlagOf(args[i]).value, args[i + 1], s);
      if r.Some? {
        LongFilterStopsWalk(args, i + 2, r.value);
      }
    }
  }

  /** C refuses every command line on which a filter of 128 bytes or more is met. */
  lemma LongFilterIsRefusedByC(args: seq<string>)
    requires !FiltersFit(args, 0)
    ensures Parse(C, args) == UsageError
  {
    LongFilterStopsWalk(args, 0, Defaults());
  }

  /** The program takes the operand of the flag. */
  predicate Takes(d: Dialect, f: Flag, value: string) {
    match f
    case FilterFlag => d != C || |value| < 128
    case SortFlag => value in {"cpu", "mem", "pid", "name"}
    case IntervalFlag => Number(d, value).Some? && 50 <= Number(d, value).value <= 60000
    case TopFlag => Number(d, value).Some? && 1 <= Number(d, value).value <= 500
    case KillFlag => Number(d, value).Some? && Number(d, value).value <= 0xFFFF_FFFF
  }

  /** Along the walk every flag is known, has an operand, and that is taken. */
  predicate TakenFrom(d: Dialect, args: seq<string>, i: nat)
    requires i <= |args|
    decreases |args| - i
  {
    if i == |args| || args[i] == "--help" || args[i] == "-h" then true
    else if args[i] == "--once" then TakenFrom(d, args, i + 1)
    else
      && FlagOf(args[i]).Some? && i + 1 < |args|
      && Takes(d, FlagOf(args[i]).value, args[i + 1])
      && TakenFrom(d, args, i + 2)
  }

  lemma {:induction false} RefusedIff(d: Dialect, args: seq<string>, i: nat, s: Settings)
    requires i <= |args|
    ensures Walk(d, args, i, s) == UsageError <==> !TakenFrom(d, args, i)
    decreases |args| - i
  {
    if i < |args| && args[i] != "--help" && args[i] != "-h" {
      if args[i] == "--once" {
        RefusedIff(d, args, i + 1, s.(once := true));
      } else if FlagOf(args[i]).Some? && i + 1 < |args| {
        var r := Store(d, FlagOf(args[i]).value, args[i + 1], s);
        assert r.Some? <==> Takes(d, FlagOf(args[i]).value, args[i + 1]);
        if r.Some? {
          RefusedIff(d, args, i + 2, r.value);
        }
      }
    }
  }

  /** On every command line, another program gives the same outcome as C, settings included, if and only
      if: with filters under 128 bytes, some operand is not taken by C or no numeric operand is odd, that
      is, starts with white space or a minus sign, nor, for C++, with a plus sign; with a longer filter,
      some operand is not taken by the other program either. */
  lemma ParsersAgreeIff(d: Dialect, args: seq<string>)
    requires d != C
    ensures Parse(d, args) == Parse(C, args)
       <==> if FiltersFit(args, 0) then TakenFrom(C, args, 0) ==> PlainFrom(d, args, 0)
            else !TakenFrom(d, args, 0)
  {
    RefusedIff(C, args, 0, Defaults());
    RefusedIff(d, args, 0, Defaults());
    if FiltersFit(args, 0) {
      WalksAgreeIff(d, args, 0, Defaults());
    } else {
      LongFilterIsRefusedByC(args);
    }
  }

  lemma {:induction false} PlainForBoth(args: seq<string>, i: nat)
    requires i <= |args| && PlainFrom(Cpp, args, i)
    ensures PlainFrom(Rust, args, i)
    decreases |args| - i
  {
    if i < |args| && args[i] != "--help" && args[i] != "-h" {
      if args[i] == "--once" {
        PlainForBoth(args, i + 1);
      } else if FlagOf(args[i]).Some? && i + 1 < |args| {
        PlainForBoth(args, i + 2);
      }
    }
  }

  /** The three programs give the same outcome on every command line whose numeric operands start with
      neither sign nor white space and whose filters have fewer than 128 bytes. */
  lemma ParsersAgree(args: seq<string>)
    requires PlainFrom(Cpp, args, 0) && FiltersFit(args, 0)
    ensures Parse(C, args) == Parse(Cpp, args) == Parse(Rust, args)
  {
    PlainForBoth(args, 0);
    ParsersAgreeIff(Cpp, args);
    ParsersAgreeIff(Rust, args);
  }

  /** The outcome of one flag alone. */
  lemma OneFlagParses(d: Dialect, f: Flag, value: string)
    ensures Parse(d, [FlagWord(f), value])
         == match Store(d, f, value, Defaults())
            case None => UsageError
            case Some(s) => Parsed(s)
  {
    var args := [FlagWord(f), value];
    assert FlagOf(args[0]) == Some(f);
    assert args[0] != "--help" && args[0] != "-h" && args[0] != "--once";
    var r := Store(d, f, value, Defaults());
    if r.Some? {
      assert Walk(d, args, 2, r.value) == Parsed(r.value);
    }
  }

  lemma NegativeNumberIs(n: nat)
    requires 1 <= n <= MAX_TOP
    ensures var text := "-" + Decimal(TWO_64 - n);
            CNumber(text) == Some(n) && CppNumber(text) == None && RustNumber(text) == None
  {
    var text := "-" + Decimal(TWO_64 - n);
    DecimalRoundTrip(TWO_64 - n);
    MinusIsRead(Decimal(TWO_64 - n));
    assert DigitsEnd(text, 0) == 0;
  }

  /** The condition is not idle. strtoul takes a minus sign and wraps, so for every row count n the
      program in C accepts `--top -(2^64 - n)` as n rows; the other two refuse it. */
  lemma NegativeTopIsAcceptedByC(n: nat)
    requires 1 <= n <= MAX_TOP
    ensures var args := ["--top", "-" + Decimal(TWO_64 - n)];
            && Parse(C, args) == Parsed(Defaults().(top := n))
            && Parse(Cpp, args) == UsageError
            && Parse(Rust, args) == UsageError
  {
    var text := "-" + Decimal(TWO_64 - n);
    NegativeNumberIs(n);
    assert FlagWord(TopFlag) == "--top";
    OneFlagParses(C, TopFlag, text);
    OneFlagParses(Cpp, TopFlag, text);
    OneFlagParses(Rust, TopFlag, text);
  }

  /** A filter of 128 bytes or more, and nothing else, is an error in C alone. */
  lemma LongFilterAlone(text: string)
    requires |text| >= FILTER_MAX
    ensures var args := ["--filter", text];
            && Parse(C, args) == UsageError
            && Parse(Cpp, args) == Parse(Rust, args) == Parsed(Defaults().(filter := text))
  {
    assert FlagWord(FilterFlag) == "--filter";
    OneFlagParses(C, FilterFlag, text);
    OneFlagParses(Cpp, FilterFlag, text);
    OneFlagParses(Rust, FilterFlag, text);
  }
}
