/** Reading one line of /proc/<pid>/stat in C (`parse_stat` in c/src/proc_linux.c): the name between
    the first '(' and the last ')', then fields 14, 15, 20 and 24 among the blank-separated rest. */
module StatParser {
  import opened Arithmetic
  import opened Basics
  import opened Numbers
  import opened ProcessModel

  const PROC_NAME_MAX: nat := 256
  const NS_PER_SEC: nat := 1_000_000_000

  /** What the system below the parser provides: the answers of sysconf for the clock tick rate and
      the page size, where zero or less is an error, and the C library conversions, each reading a
      text from a position. */
  datatype Machine = Machine(sysconfTicks: int, sysconfPage: int,
                             strtoull: (string, nat) -> u64, strtol: (string, nat) -> int) {
    function Ticks(): (t: nat)
      ensures t > 0
    {
      if sysconfTicks <= 0 then 100 else sysconfTicks
    }

    function PageSize(): nat { if sysconfPage <= 0 then 4096 else sysconfPage }
  }

  /** A machine whose C library converts as its standard says. */
  function StandardMachine(sysconfTicks: int, sysconfPage: int): Machine {
    Machine(sysconfTicks, sysconfPage, Strtoul, Strtol)
  }

  // ---------- Searching ----------

  /** strchr, from position i. */
  function FirstOf(s: string, c: char, i: nat): (r: Option<nat>)
    requires i <= |s|
    ensures r.Some? ==> i <= r.value < |s| && s[r.value] == c
    decreases |s| - i
  {
    if i == |s| then None else if s[i] == c then Some(i) else FirstOf(s, c, i + 1)
  }

  /** strrchr, below position n. */
  function LastOf(s: string, c: char, n: nat): (r: Option<nat>)
    requires n <= |s|
    ensures r.Some? ==> r.value < n && s[r.value] == c
  {
    if n == 0 then None else if s[n - 1] == c then Some(n - 1) else LastOf(s, c, n - 1)
  }

  lemma {:induction false} FirstOfIs(s: string, c: char, i: nat, k: nat)
    requires i <= k < |s| && s[k] == c && forall j :: i <= j < k ==> s[j] != c
    ensures FirstOf(s, c, i) == Some(k)
    decreases k - i
  {
    if i < k { FirstOfIs(s, c, i + 1, k); }
  }

  lemma {:induction false} LastOfIs(s: string, c: char, n: nat, k: nat)
    requires k < n <= |s| && s[k] == c && forall j :: k < j < n ==> s[j] != c
    ensures LastOf(s, c, n) == Some(k)
  {
    if k < n - 1 { LastOfIs(s, c, n - 1, k); }
  }

  function SkipBlanks(s: string, i: nat): (n: nat)
    requires i <= |s|
    ensures i <= n <= |s| && (n < |s| ==> s[n] != ' ')
    decreases |s| - i
  {
    if i == |s| || s[i] != ' ' then i else SkipBlanks(s, i + 1)
  }

  function SkipWord(s: string, i: nat): (n: nat)
    requires i <= |s|
    ensures i <= n <= |s| && (n < |s| ==> s[n] == ' ')
    decreases |s| - i
  {
    if i == |s| || s[i] == ' ' then i else SkipWord(s, i + 1)
  }

  lemma {:induction false} SkipWordIs(s: string, i: nat, n: nat)
    requires i <= n <= |s| && (n < |s| ==> s[n] == ' ') && forall j :: i <= j < n ==> s[j] != ' '
    ensures SkipWord(s, i) == n
    decreases n - i
  {
    if i < n { SkipWordIs(s, i + 1, n); }
  }

  /** Where the k-th blank-separated field after position p starts, counting from 0. */
  function FieldStart(s: string, p: nat, k: nat): (r: Option<nat>)
    requires p <= |s|
    ensures r.Some? ==> p <= r.value < |s|
    decreases |s| - p
  {
    var q := SkipBlanks(s, p);
    if q == |s| then None
    else if k == 0 then Some(q)
    else FieldStart(s, SkipWord(s, q), k - 1)
  }

  /** What a conversion reads at the k-th field after p; zero where there is no such field. */
  function FieldNumber<N>(convert: (string, nat) -> N, missing: N, s: string, p: nat, k: nat): N
    requires p <= |s|
  {
    match FieldStart(s, p, k)
    case None => missing
    case Some(q) => convert(s, q)
  }

  // ---------- The result ----------

  /** (utime + stime) * NS_PER_SEC / ticks in unsigned 64-bit arithmetic. */
  function CpuTimeNs(utime: u64, stime: u64, ticks: nat): u64
    requires ticks > 0
  {
    (utime + stime) % TWO_64 * NS_PER_SEC % TWO_64 / ticks
  }

  function ClipName(comm: string): string {
    if |comm| < PROC_NAME_MAX then comm else comm[..PROC_NAME_MAX - 1]
  }

  /** rss_pages * page_size in unsigned 64-bit arithmetic. */
  function MemBytes(rssPages: nat, pageSize: nat): u64 { rssPages * pageSize % TWO_64 }

  /** What the scan takes from the line, before it is stored. */
  datatype StatLine = StatLine(name: string, utime: u64, stime: u64, threads: int, rssPages: int)

  function Fill(line: StatLine, machine: Machine, info: ProcessInfo): ProcessInfo {
    var counted := info.(
      name := line.name,
      cpuTimeNs := CpuTimeNs(line.utime, line.stime, machine.Ticks()),
      cpuKnown := true,
      threads := if line.threads > 0 then line.threads % TWO_32 else 0);
    if line.rssPages > 0
    then counted.(memBytes := MemBytes(line.rssPages, machine.PageSize()), memKnown := true)
    else counted
  }

  /** Where the name stands: the positions of the parentheses around it. */
  datatype NameSpan = NoName | NameSpan(open: nat, close: nat)

  function Parentheses(text: string): (r: NameSpan)
    ensures r.NameSpan? ==> r.open < r.close < |text|
  {
    var open, close := FirstOf(text, '(', 0), LastOf(text, ')', |text|);
    if open.None? || close.None? || close.value < open.value then NoName else NameSpan(open.value, close.value)
  }

  /** There is a name if and only if some '(' stands before some ')', and then it reaches from the first
      '(' to the last ')'. */
  lemma ParenthesesMean(text: string)
    ensures Parentheses(text).NoName? <==> !exists i, j :: 0 <= i < j < |text| && text[i] == '(' && text[j] == ')'
    ensures Parentheses(text).NameSpan? ==>
              var span := Parentheses(text);
              && text[span.open] == '(' && text[span.close] == ')'
              && (forall i :: 0 <= i < span.open ==> text[i] != '(')
              && (forall j :: span.close < j < |text| ==> text[j] != ')')
  {
    NoneBefore(text, '(', 0);
    NoneAfter(text, ')', |text|);
  }

  lemma {:induction false} NoneBefore(s: string, c: char, i: nat)
    requires i <= |s|
    ensures var r := FirstOf(s, c, i);
            forall j :: i <= j < (if r.Some? then r.value else |s|) ==> s[j] != c
    decreases |s| - i
  {
    if i < |s| && s[i] != c {
      NoneBefore(s, c, i + 1);
    }
  }

  lemma {:induction false} NoneAfter(s: string, c: char, n: nat)
    requires n <= |s|
    ensures var r := LastOf(s, c, n);
            forall j :: (if r.Some? then r.value + 1 else 0) <= j < n ==> s[j] != c
  {
    if n > 0 && s[n - 1] != c {
      NoneAfter(s, c, n - 1);
    }
  }

  function NameIn(text: string, span: NameSpan): string
    requires span.NameSpan? && span.open < span.close < |text|
  {
    ClipName(text[span.open + 1..span.close])
  }

  /** Fields are numbered from 3 after the closing parenthesis. */
  function LineIn(text: string, machine: Machine, span: NameSpan): StatLine
    requires span.NameSpan? && span.open < span.close < |text|
  {
    StatLine(NameIn(text, span),
             FieldNumber(machine.strtoull, 0, text, span.close + 1, 14 - 3),
             FieldNumber(machine.strtoull, 0, text, span.close + 1, 15 - 3),
             FieldNumber(machine.strtol, 0, text, span.close + 1, 20 - 3),
             FieldNumber(machine.strtol, 0, text, span.close + 1, 24 - 3))
  }

  /** The whole scan as a function. */
  function ScanStat(text: string, machine: Machine): Option<StatLine> {
    var span := Parentheses(text);
    if span.NoName? || FieldStart(text, span.close + 1, 24 - 3).None? then None
    else Some(LineIn(text, machine, span))
  }

  /** The record after the call. A line that turns out too short has already given its name. */
  function ParsedInfo(text: string, machine: Machine, info: ProcessInfo): ProcessInfo {
    var span := Parentheses(text);
    if span.NoName? then info
    else
      var named := info.(name := NameIn(text, span));
      if FieldStart(text, span.close + 1, 24 - 3).None? then named
      else Fill(LineIn(text, machine, span), machine, named)
  }

  /** Text that does not have field k does not have a later one. */
  lemma {:induction false} FieldsEnd(s: string, p: nat, k: nat, n: nat)
    requires p <= |s| && k <= n && FieldStart(s, p, k).None?
    ensures FieldStart(s, p, n).None?
    decreases k
  {
    var q := SkipBlanks(s, p);
    if q != |s| {
      FieldsEnd(s, SkipWord(s, q), k - 1, n - 1);
    }
  }

  /** From the cursor, the fields numbered `field` and up are the ones still ahead. */
  ghost predicate Ahead(text: string, start: nat, cursor: nat, field: nat)
    requires start <= |text| && cursor <= |text| && field >= 3
  {
    forall k: nat :: k + 3 >= field ==> FieldStart(text, start, k) == FieldStart(text, cursor, k + 3 - field)
  }

  lemma NextField(text: string, start: nat, cursor: nat, field: nat)
    requires start <= |text| && cursor <= |text| && field >= 3 && Ahead(text, start, cursor, field)
    ensures var q := SkipBlanks(text, cursor);
            && FieldStart(text, start, field - 3) == (if q == |text| then None else Some(q))
            && (q < |text| ==> Ahead(text, start, SkipWord(text, q), field + 1))
  {
    assert FieldStart(text, start, field - 3) == FieldStart(text, cursor, 0);
    var q := SkipBlanks(text, cursor);
    if q < |text| {
      forall k: nat | k + 3 >= field + 1
        ensures FieldStart(text, start, k) == FieldStart(text, SkipWord(text, q), k + 3 - (field + 1))
      {
        assert FieldStart(text, start, k) == FieldStart(text, cursor, k + 3 - field);
      }
    }
  }

  lemma NamedThenFilled(text: string, machine: Machine, info: ProcessInfo)
    requires ScanStat(text, machine).Some?
    ensures ParsedInfo(text, machine, info) == Fill(ScanStat(text, machine).value, machine, info)
  {
  }

  lemma ClippedSlice(text: string, span: NameSpan)
    requires span.NameSpan? && span.open < span.close < |text|
    ensures NameIn(text, span)
         == text[span.open + 1..span.open + 1 + Min(span.close - span.open - 1, PROC_NAME_MAX - 1)]
  {
  }

  method ParseStat(text: string, machine: Machine, initial: ProcessInfo) returns (ok: bool, info: ProcessInfo)
    ensures ok == ScanStat(text, machine).Some?
    ensures info == ParsedInfo(text, machine, initial)
  {
    var start;
    ok, start, info := ParseName(text, initial);
    if ok {
      ok, info := ParseNumbers(text, Parentheses(text), start, machine, info);
    }
  }

  /** parse_stat up to the field loop: finds the parentheses and stores the name. */
  method ParseName(text: string, initial: ProcessInfo) returns (found: bool, start: nat, info: ProcessInfo)
    ensures found == Parentheses(text).NameSpan?
    ensures found ==> start == Parentheses(text).close + 1
    ensures info == if found then initial.(name := NameIn(text, Parentheses(text))) else initial
  {
    info := initial;
    var openParen, closeParen := FirstOf(text, '(', 0), LastOf(text, ')', |text|);
    if openParen.None? || closeParen.None? || closeParen.value < openParen.value {
      return false, 0, info;
    }
    var nameLen := closeParen.value - openParen.value - 1;
    if nameLen >= PROC_NAME_MAX {
      nameLen := PROC_NAME_MAX - 1;
    }
    ClippedSlice(text, Parentheses(text));
    info := info.(name := text[openParen.value + 1..openParen.value + 1 + nameLen]);
    return true, closeParen.value + 1, info;
  }

  /** parse_stat from the field loop on, with the name already stored. */
  method ParseNumbers(text: string, ghost span: NameSpan, start: nat, machine: Machine, named: ProcessInfo)
    returns (ok: bool, info: ProcessInfo)
    requires span.NameSpan? && span.open < span.close < |text| && start == span.close + 1
    requires named.name == NameIn(text, span)
    ensures ok == FieldStart(text, span.close + 1, 24 - 3).Some?
    ensures info == if ok then Fill(LineIn(text, machine, span), machine, named) else named
  {
    var found, utime, stime, threads, rssPages := ParseFields(text, start, machine);
    if !found {
      return false, named;
    }
    ok := true;
    info := StoreNumbers(machine, named, utime, stime, threads, rssPages);
  }

  /** The assignments that end parse_stat. */
  method StoreNumbers(machine: Machine, named: ProcessInfo, utime: u64, stime: u64, threads: int, rssPages: int)
    returns (info: ProcessInfo)
    ensures info == Fill(StatLine(named.name, utime, stime, threads, rssPages), machine, named)
  {
    info := named;
    info := info.(cpuTimeNs := CpuTimeNs(utime, stime, machine.Ticks()));
    info := info.(cpuKnown := true);
    info := info.(threads := if threads > 0 then threads % TWO_32 else 0);
    if rssPages > 0 {
      info := info.(memBytes := MemBytes(rssPages, machine.PageSize()));
      info := info.(memKnown := true);
    }
  }

  /** The field loop of parse_stat. */
  method ParseFields(text: string, start: nat, machine: Machine)
    returns (found: bool, utime: u64, stime: u64, threads: int, rssPages: int)
    requires start <= |text|
    ensures found == FieldStart(text, start, 24 - 3).Some?
    ensures found ==> utime == FieldNumber(machine.strtoull, 0, text, start, 14 - 3)
    ensures found ==> stime == FieldNumber(machine.strtoull, 0, text, start, 15 - 3)
    ensures found ==> threads == FieldNumber(machine.strtol, 0, text, start, 20 - 3)
    ensures found ==> rssPages == FieldNumber(machine.strtol, 0, text, start, 24 - 3)
  {
    utime, stime, threads, rssPages := 0, 0, 0, 0;
    var cursor := start;
    for field := 3 to 25
      invariant start <= cursor <= |text| && Ahead(text, start, cursor, field)
      invariant field > 14 ==> utime == FieldNumber(machine.strtoull, 0, text, start, 14 - 3)
      invariant field > 15 ==> stime == FieldNumber(machine.strtoull, 0, text, start, 15 - 3)
      invariant field > 20 ==> threads == FieldNumber(machine.strtol, 0, text, start, 20 - 3)
      invariant field > 24 ==> rssPages == FieldNumber(machine.strtol, 0, text, start, 24 - 3)
      invariant field > 24 ==> FieldStart(text, start, 24 - 3).Some?
    {
      NextField(text, start, cursor, field);
      ghost var before := cursor;
      while cursor < |text| && text[cursor] == ' '
        invariant before <= cursor <= |text| && SkipBlanks(text, cursor) == SkipBlanks(text, before)
      {
        cursor := cursor + 1;
      }
      if cursor == |text| {
        FieldsEnd(text, start, field - 3, 24 - 3);
        return false, utime, stime, threads, rssPages;
      }
      assert FieldStart(text, start, field - 3) == Some(cursor);
      if field == 14 {
        utime := machine.strtoull(text, cursor);
      } else if field == 15 {
        stime := machine.strtoull(text, cursor);
      } else if field == 20 {
        threads := machine.strtol(text, cursor);
      } else if field == 24 {
        rssPages := machine.strtol(text, cursor);
      }
      ghost var word := cursor;
      while cursor < |text| && text[cursor] != ' '
        invariant word <= cursor <= |text| && SkipWord(text, cursor) == SkipWord(text, word)
      {
        cursor := cursor + 1;
      }
    }
    found := true;
  }

  // ---------- Printing a line and reading it back ----------

  /** The fields, each after one blank. */
  function Spaced(fields: seq<string>): string {
    if fields == [] then "" else " " + fields[0] + Spaced(fields[1..])
  }

  /** A line as the kernel writes it. */
  function PrintStat(pid: nat, comm: string, fields: seq<string>): string {
    Decimal(pid) + " (" + comm + ")" + Spaced(fields)
  }

  /** A field has no blank of its own and no closing parenthesis; the name may have any. */
  predicate PlainField(f: string) { f != "" && ' ' !in f && ')' !in f }

  ghost predicate PlainFields(fields: seq<string>) {
    forall i :: 0 <= i < |fields| ==> PlainField(fields[i])
  }

  lemma {:induction false} SpacedHasNoParen(fields: seq<string>)
    requires PlainFields(fields)
    ensures ')' !in Spaced(fields)
  {
    if fields != [] {
      assert PlainField(fields[0]);
      SpacedHasNoParen(fields[1..]);
    }
  }

  lemma SpacedStart(fields: seq<string>)
    ensures Spaced(fields) == "" || Spaced(fields)[0] == ' '
  {
  }

  /** Field f stands at position q, after one blank at q - 1 and before another or the end. */
  ghost predicate FieldAt(s: string, q: nat, f: string) {
    && 0 < q && q + |f| <= |s| && s[q - 1] == ' '
    && (forall i :: q <= i < q + |f| ==> s[i] == f[i - q])
    && (q + |f| < |s| ==> s[q + |f|] == ' ')
  }

  lemma FieldIsScanned(s: string, q: nat, f: string)
    requires PlainField(f) && FieldAt(s, q, f)
    ensures SkipBlanks(s, q - 1) == q && SkipWord(s, q) == q + |f|
  {
    assert forall i :: q <= i < q + |f| ==> s[i] == f[i - q] && f[i - q] in f;
    assert s[q] == f[0];
    SkipWordIs(s, q, q + |f|);
  }

  /** Where the text before field k ends: at p, or at the end of the field before. */
  function EndBefore(p: nat, fields: seq<string>, at: seq<nat>, k: nat): nat
    requires k <= |fields| == |at|
  {
    if k == 0 then p else at[k - 1] + |fields[k - 1]|
  }

  ghost predicate Placed(s: string, p: nat, fields: seq<string>, at: seq<nat>, k: nat)
    requires k < |fields| == |at|
  {
    FieldAt(s, at[k], fields[k]) && at[k] == EndBefore(p, fields, at, k) + 1
  }

  /** The fields stand one after another from position p to the end of the text. */
  ghost predicate LaidOut(s: string, p: nat, fields: seq<string>, at: seq<nat>) {
    && |at| == |fields| && EndBefore(p, fields, at, |fields|) == |s|
    && forall k :: 0 <= k < |fields| ==> Placed(s, p, fields, at, k)
  }

  lemma LaidOutFromFirst(s: string, p: nat, fields: seq<string>, at: seq<nat>)
    requires fields != [] && p + 1 + |fields[0]| <= |s| && FieldAt(s, p + 1, fields[0])
    requires LaidOut(s, p + 1 + |fields[0]|, fields[1..], at)
    ensures LaidOut(s, p, fields, [p + 1] + at)
  {
    var q, all := p + 1 + |fields[0]|, [p + 1] + at;
    forall k | 0 <= k < |fields|
      ensures Placed(s, p, fields, all, k)
    {
      if k > 0 {
        assert Placed(s, q, fields[1..], at, k - 1);
      }
    }
  }

  lemma FirstFieldAt(s: string, p: nat, f: string, rest: string)
    requires p <= |s| && s[p..] == " " + f + rest && (rest != "" ==> rest[0] == ' ')
    ensures p + 1 + |f| <= |s| && FieldAt(s, p + 1, f) && s[p + 1 + |f|..] == rest
  {
    var t, q := s[p..], p + 1 + |f|;
    assert s[p] == t[0];
    forall i | p + 1 <= i < q ensures s[i] == f[i - p - 1] {
      assert s[i] == t[i - p];
    }
    assert s[q..] == t[1 + |f|..];
    assert q < |s| ==> s[q] == rest[0];
  }

  lemma {:induction false} SpacedIsLaidOut(s: string, p: nat, fields: seq<string>) returns (at: seq<nat>)
    requires p <= |s| && s[p..] == Spaced(fields)
    ensures LaidOut(s, p, fields, at)
    decreases |fields|
  {
    if fields == [] {
      at := [];
    } else {
      SpacedStart(fields[1..]);
      FirstFieldAt(s, p, fields[0], Spaced(fields[1..]));
      var rest := SpacedIsLaidOut(s, p + 1 + |fields[0]|, fields[1..]);
      LaidOutFromFirst(s, p, fields, rest);
      at := [p + 1] + rest;
    }
  }

  /** The scan finds field k exactly where it was laid out, and no field after the last. */
  lemma {:induction false} FieldIsFound(s: string, p: nat, fields: seq<string>, at: seq<nat>, j: nat, k: nat)
    requires PlainFields(fields) && LaidOut(s, p, fields, at) && j <= |fields| && j <= k
    ensures EndBefore(p, fields, at, j) <= |s|
    ensures FieldStart(s, EndBefore(p, fields, at, j), k - j) == if k < |fields| then Some(at[k]) else None
    decreases |fields| - j
  {
    if j < |fields| {
      assert Placed(s, p, fields, at, j) && PlainField(fields[j]);
      FieldIsScanned(s, at[j], fields[j]);
      if j < k {
        FieldIsFound(s, p, fields, at, j + 1, k);
      }
    }
  }

  lemma OpenParenthesis(text: string, n: nat)
    requires n < |text| && text[n] == '(' && '(' !in text[..n]
    ensures FirstOf(text, '(', 0) == Some(n)
  {
    forall j | 0 <= j < n ensures text[j] != '(' {
      assert text[..n][j] == text[j];
    }
    FirstOfIs(text, '(', 0, n);
  }

  lemma CloseParenthesis(text: string, n: nat)
    requires n < |text| && text[n] == ')' && ')' !in text[n + 1..]
    ensures LastOf(text, ')', |text|) == Some(n)
  {
    forall j | n < j < |text| ensures text[j] != ')' {
      assert text[n + 1..][j - n - 1] == text[j];
    }
    LastOfIs(text, ')', |text|, n);
  }

  /** The search for the parentheses finds the printed ones: the first '(' because nothing before it
      is one, the last ')' because nothing after it is. */
  lemma ParenthesesAround(d: string, comm: string, tail: string)
    requires '(' !in d && ')' !in tail
    ensures var text := d + "(" + comm + ")" + tail;
            && Parentheses(text) == NameSpan(|d|, |d| + 1 + |comm|)
            && text[|d| + 1..|d| + 1 + |comm|] == comm
            && text[|d| + 2 + |comm|..] == tail
  {
    var text, close := d + "(" + comm + ")" + tail, |d| + 1 + |comm|;
    assert text[..|d|] == d;
    OpenParenthesis(text, |d|);
    assert text[close + 1..] == tail;
    CloseParenthesis(text, close);
  }

  lemma PrintedLayout(pid: nat, comm: string, fields: seq<string>) returns (span: NameSpan, at: seq<nat>)
    requires PlainFields(fields)
    ensures var text := PrintStat(pid, comm, fields);
            && span.NameSpan? && Parentheses(text) == span
            && text[span.open + 1..span.close] == comm
            && LaidOut(text, span.close + 1, fields, at)
  {
    var d, text := Decimal(pid) + " ", PrintStat(pid, comm, fields);
    DecimalRoundTrip(pid);
    SpacedHasNoParen(fields);
    span := NameSpan(|d|, |d| + 1 + |comm|);
    assert text == d + "(" + comm + ")" + Spaced(fields);
    ParenthesesAround(d, comm, Spaced(fields));
    at := SpacedIsLaidOut(text, span.close + 1, fields);
  }

  /** The four fields that are used are not white space only, which would hide the next field behind
      them. */
  predicate VisibleFields(fields: seq<string>) {
    |fields| >= 22 ==> Visible(fields[11]) && Visible(fields[12]) && Visible(fields[17]) && Visible(fields[21])
  }

  /** What a printed line says: nothing with fewer than 24 fields, otherwise the name up to 255 bytes
      and fields 14, 15, 20 and 24 in their roles, each as converted on its own. */
  function PrintedLine(comm: string, fields: seq<string>): Option<StatLine> {
    if |fields| < 22 then None
    else Some(StatLine(ClipName(comm), Strtoul(fields[11], 0), Strtoul(fields[12], 0),
                       Strtol(fields[17], 0), Strtol(fields[21], 0)))
  }

  /** A printed line is read back as printed, whatever bytes the name holds. */
  lemma StatRoundTrip(pid: nat, comm: string, fields: seq<string>, ticks: int, page: int)
    requires PlainFields(fields) && VisibleFields(fields)
    ensures ScanStat(PrintStat(pid, comm, fields), StandardMachine(ticks, page)) == PrintedLine(comm, fields)
  {
    var span, at := PrintedLayout(pid, comm, fields);
    ScanOfLayout(PrintStat(pid, comm, fields), span, comm, fields, at, StandardMachine(ticks, page));
  }

  lemma ScanOfLayout(text: string, span: NameSpan, comm: string, fields: seq<string>, at: seq<nat>, machine: Machine)
    requires span.NameSpan? && span == Parentheses(text) && text[span.open + 1..span.close] == comm
    requires PlainFields(fields) && VisibleFields(fields) && LaidOut(text, span.close + 1, fields, at)
    requires machine.strtoull == Strtoul && machine.strtol == Strtol
    ensures ScanStat(text, machine) == PrintedLine(comm, fields)
  {
    FieldIsFound(text, span.close + 1, fields, at, 0, 21);
    if |fields| >= 22 {
      LineOfLayout(text, span, fields, at, machine);
    }
  }

  lemma LineOfLayout(text: string, span: NameSpan, fields: seq<string>, at: seq<nat>, machine: Machine)
    requires span.NameSpan? && span.open < span.close < |text|
    requires PlainFields(fields) && VisibleFields(fields) && |fields| >= 22
    requires LaidOut(text, span.close + 1, fields, at)
    requires machine.strtoull == Strtoul && machine.strtol == Strtol
    ensures LineIn(text, machine, span)
         == StatLine(NameIn(text, span), Strtoul(fields[11], 0), Strtoul(fields[12], 0),
                     Strtol(fields[17], 0), Strtol(fields[21], 0))
  {
    NumbersRead(text, span.close + 1, fields, at, 11);
    NumbersRead(text, span.close + 1, fields, at, 12);
    NumbersRead(text, span.close + 1, fields, at, 17);
    NumbersRead(text, span.close + 1, fields, at, 21);
  }

  lemma NumbersRead(s: string, p: nat, fields: seq<string>, at: seq<nat>, k: nat)
    requires PlainFields(fields) && p <= |s| && LaidOut(s, p, fields, at)
    requires k < |fields| && Visible(fields[k])
    ensures FieldNumber(Strtoul, 0, s, p, k) == Strtoul(fields[k], 0)
    ensures FieldNumber(Strtol, 0, s, p, k) == Strtol(fields[k], 0)
  {
    FieldIsFound(s, p, fields, at, 0, k);
    assert Placed(s, p, fields, at, k);
    NumberReads(s, p, k, at[k], fields[k]);
  }

  lemma NumberReads(s: string, p: nat, k: nat, q: nat, f: string)
    requires p <= |s| && FieldStart(s, p, k) == Some(q) && FieldAt(s, q, f) && Visible(f)
    ensures FieldNumber(Strtoul, 0, s, p, k) == Strtoul(f, 0)
    ensures FieldNumber(Strtol, 0, s, p, k) == Strtol(f, 0)
  {
    assert StandsAt(s, q, f);
    ConversionOfCopy(s, q, f);
  }

  /** Where the parentheses of a printed line stand, and what is outside them. */
  lemma PrintedSpan(pid: nat, comm: string, fields: seq<string>)
    requires PlainFields(fields)
    ensures var text, span := PrintStat(pid, comm, fields), Parentheses(PrintStat(pid, comm, fields));
            && span == NameSpan(|Decimal(pid)| + 1, |Decimal(pid)| + 2 + |comm|)
            && '(' !in text[..span.open] && ')' !in text[span.close + 1..]
  {
    var d, text := Decimal(pid) + " ", PrintStat(pid, comm, fields);
    DecimalRoundTrip(pid);
    SpacedHasNoParen(fields);
    assert text == d + "(" + comm + ")" + Spaced(fields);
    ParenthesesAround(d, comm, Spaced(fields));
    assert text[..|d|] == d && text[|d| + 2 + |comm|..] == Spaced(fields);
  }

  // ---------- The beginning of a text ----------

  lemma {:induction false} SkipBlanksOfPrefix(s: string, n: nat, i: nat)
    requires i <= n <= |s|
    ensures SkipBlanks(s[..n], i) == Min(n, SkipBlanks(s, i))
    decreases n - i
  {
    if i < n && s[i] == ' ' {
      SkipBlanksOfPrefix(s, n, i + 1);
    }
  }

  lemma {:induction false} SkipWordOfPrefix(s: string, n: nat, i: nat)
    requires i <= n <= |s|
    ensures SkipWord(s[..n], i) == Min(n, SkipWord(s, i))
    decreases n - i
  {
    if i < n && s[i] != ' ' {
      SkipWordOfPrefix(s, n, i + 1);
    }
  }

  /** A prefix has the fields that start within it. */
  lemma {:induction false} FieldStartOfPrefix(s: string, n: nat, p: nat, k: nat)
    requires p <= n <= |s|
    ensures FieldStart(s[..n], p, k)
         == if FieldStart(s, p, k).Some? && FieldStart(s, p, k).value < n then FieldStart(s, p, k) else None
    decreases k
  {
    var q := SkipBlanks(s, p);
    SkipBlanksOfPrefix(s, n, p);
    if q < n && k > 0 {
      SkipWordOfPrefix(s, n, q);
      if SkipWord(s, q) <= n {
        FieldStartOfPrefix(s, n, SkipWord(s, q), k - 1);
      } else {
        assert SkipBlanks(s[..n], n) == n;
      }
    }
  }

  // ---------- Where a printed field starts ----------

  lemma {:induction false} SpacedAppend(fields: seq<string>, f: string)
    ensures Spaced(fields + [f]) == Spaced(fields) + " " + f
  {
    if fields == [] {
      assert Spaced([f]) == " " + f + Spaced([]);
    } else {
      assert (fields + [f])[1..] == fields[1..] + [f];
      SpacedAppend(fields[1..], f);
    }
  }

  lemma {:induction false} EndBeforeIsLength(s: string, p: nat, fields: seq<string>, at: seq<nat>, k: nat)
    requires LaidOut(s, p, fields, at) && k <= |fields|
    ensures EndBefore(p, fields, at, k) == p + |Spaced(fields[..k])|
  {
    if k > 0 {
      EndBeforeIsLength(s, p, fields, at, k - 1);
      assert Placed(s, p, fields, at, k - 1);
      SpacedAppend(fields[..k - 1], fields[k - 1]);
      assert fields[..k] == fields[..k - 1] + [fields[k - 1]];
    }
  }

  // ---------- Ticks and nanoseconds ----------

  /** The conversion from ticks is the exact floor if and only if the nanosecond product fits in 64
      bits. */
  lemma TickConversionIsExact(utime: u64, stime: u64, ticks: nat)
    requires 0 < ticks <= TWO_64
    ensures CpuTimeNs(utime, stime, ticks) == (utime + stime) * NS_PER_SEC / ticks
       <==> (utime + stime) * NS_PER_SEC < TWO_64
  {
    WrappedProduct(utime + stime, NS_PER_SEC, TWO_64);
    WrappedQuotient((utime + stime) * NS_PER_SEC, TWO_64, ticks);
  }

  lemma FloorDeltas(a: nat, b: nat, d: nat)
    requires d > 0 && a <= b
    ensures a / d <= b / d
    ensures -1.0 < (b / d - a / d) as real - (b - a) as real / d as real < 1.0
  {
    QuotientsOrdered(a, b, d);
    FloorError(a, d);
    FloorError(b, d);
    assert (b - a) as real / d as real == b as real / d as real - a as real / d as real;
  }

  /** While the products fit, more ticks never read as less time, and the CPU time that the join takes
      between two readings is within one nanosecond of the true one. */
  lemma TickDeltas(utime: u64, stime: u64, utime': u64, stime': u64, ticks: nat)
    requires 0 < ticks <= TWO_64 && utime + stime <= utime' + stime'
    requires (utime' + stime') * NS_PER_SEC < TWO_64
    ensures var c, d := CpuTimeNs(utime, stime, ticks), CpuTimeNs(utime', stime', ticks);
            var trueDelta := ((utime' + stime') - (utime + stime)) * NS_PER_SEC;
            c <= d && -1.0 < (d - c) as real - trueDelta as real / ticks as real < 1.0
  {
    var a, b := (utime + stime) * NS_PER_SEC, (utime' + stime') * NS_PER_SEC;
    assert a <= b;
    TickConversionIsExact(utime, stime, ticks);
    TickConversionIsExact(utime', stime', ticks);
    FloorDeltas(a, b, ticks);
  }

  lemma FloorError(a: nat, d: nat)
    requires d > 0
    ensures 0.0 <= a as real / d as real - (a / d) as real < 1.0
  {
    var q, r := a / d, a % d;
    assert a == q * d + r;
    assert a as real == q as real * d as real + r as real;
    assert a as real / d as real == q as real + r as real / d as real;
  }
}
