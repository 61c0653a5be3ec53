/** The two readers on the same file, which C reads through a buffer of 4096 bytes and C++ as a stream:
    exactly when they store the same record. */
module StatBuffer {
  import opened Basics
  import opened Numbers
  import opened ProcessModel
  import opened StatParser
  import opened Snapshots
  import opened Joins
  import opened CppStatReader
  import opened StatAgreement

  // ---------- What C sees of a printed line ----------

  function Pow10(k: nat): nat { if k == 0 then 1 else 10 * Pow10(k - 1) }

  lemma {:induction false} DecimalLength(n: nat, k: nat)
    requires k > 0 && n < Pow10(k)
    ensures |Decimal(n)| <= k
  {
    if n >= 10 {
      DecimalLength(n / 10, k - 1);
    }
  }

  lemma PidLength(pid: u32)
    ensures |Decimal(pid)| <= 10
  {
    assert Pow10(5) == 100_000;
    assert Pow10(10) == 10_000_000_000;
    DecimalLength(pid, 10);
  }

  /** Where the field at index k of a printed line starts. */
  function FieldOffset(pid: nat, comm: string, fields: seq<string>, k: nat): nat
    requires k <= |fields|
  {
    |PrintStat(pid, comm, fields[..k])| + 1
  }

  /** The part of the field at index 21 that lies in the first 4095 bytes. */
  function Buffered(pid: nat, comm: string, fields: seq<string>): string
    requires |fields| >= 22 && FieldOffset(pid, comm, fields, 21) < STAT_BUFFER - 1
  {
    fields[21][..Min(|fields[21]|, STAT_BUFFER - 1 - FieldOffset(pid, comm, fields, 21))]
  }

  /** What the buffer holds of a printed line: field 24 may start beyond its end, or be cut by it. */
  function BufferedLine(pid: nat, comm: string, fields: seq<string>, machine: Machine): Option<StatLine> {
    if |fields| < 22 || FieldOffset(pid, comm, fields, 21) >= STAT_BUFFER - 1 then None
    else Some(StatLine(ClipName(comm), machine.strtoull(fields[11], 0), machine.strtoull(fields[12], 0),
                       machine.strtol(fields[17], 0), machine.strtol(Buffered(pid, comm, fields), 0)))
  }

  lemma ParenthesesOfPrefix(file: string, span: NameSpan, n: nat)
    requires span.NameSpan? && span == Parentheses(file) && span.close < n <= |file|
    requires '(' !in file[..span.open] && ')' !in file[span.close + 1..]
    ensures Parentheses(file[..n]) == span
  {
    var text := file[..n];
    assert text[..span.open] == file[..span.open];
    OpenParenthesis(text, span.open);
    assert text[span.close + 1..] == file[span.close + 1..][..n - span.close - 1];
    CloseParenthesis(text, span.close);
  }

  /** A conversion in a prefix reads what is left of its field. */
  lemma PrefixConverts(s: string, n: nat, q: nat, f: string)
    requires FieldAt(s, q, f) && q < n <= |s| && f != "" && SpaceEnd(f, 0) == 0
    ensures var cut := f[..Min(|f|, n - q)];
            Strtoul(s[..n], q) == Strtoul(cut, 0) && Strtol(s[..n], q) == Strtol(cut, 0)
  {
    var cut := f[..Min(|f|, n - q)];
    assert cut[0] == f[0] && SpaceEnd(cut, 0) == 0;
    assert StandsAt(s[..n], q, cut);
    ConversionOfCopy(s[..n], q, cut);
  }

  lemma NumberAt<N>(convert: (string, nat) -> N, missing: N, s: string, p: nat, k: nat, q: nat)
    requires p <= |s| && FieldStart(s, p, k) == Some(q)
    ensures FieldNumber(convert, missing, s, p, k) == convert(s, q)
  {
  }

  lemma FieldOfPrefix(s: string, p: nat, fields: seq<string>, at: seq<nat>, n: nat, k: nat)
    requires PlainFields(fields) && p <= n <= |s| && LaidOut(s, p, fields, at)
    requires k < |fields| && at[k] < n && SpaceEnd(fields[k], 0) == 0
    ensures var cut := fields[k][..Min(|fields[k]|, n - at[k])];
            && FieldNumber(Strtoul, 0, s[..n], p, k) == Strtoul(cut, 0)
            && FieldNumber(Strtol, 0, s[..n], p, k) == Strtol(cut, 0)
  {
    FieldIsFound(s, p, fields, at, 0, k);
    assert Placed(s, p, fields, at, k) && PlainField(fields[k]);
    FieldStartOfPrefix(s, n, p, k);
    NumberAt(Strtoul, 0, s[..n], p, k, at[k]);
    NumberAt(Strtol, 0, s[..n], p, k, at[k]);
    PrefixConverts(s, n, at[k], fields[k]);
  }

  lemma {:induction false} EndsBefore(s: string, p: nat, fields: seq<string>, at: seq<nat>, j: nat, k: nat)
    requires LaidOut(s, p, fields, at) && j < k < |fields|
    ensures at[j] + |fields[j]| < at[k]
    decreases k
  {
    assert Placed(s, p, fields, at, k);
    if j < k - 1 {
      EndsBefore(s, p, fields, at, j, k - 1);
    }
  }

  lemma WholeFieldOfPrefix(s: string, p: nat, fields: seq<string>, at: seq<nat>, n: nat, k: nat)
    requires PlainFields(fields) && p <= n <= |s| && LaidOut(s, p, fields, at)
    requires k < 21 < |fields| && at[21] < n && SpaceEnd(fields[k], 0) == 0
    ensures FieldNumber(Strtoul, 0, s[..n], p, k) == Strtoul(fields[k], 0)
    ensures FieldNumber(Strtol, 0, s[..n], p, k) == Strtol(fields[k], 0)
  {
    EndsBefore(s, p, fields, at, k, 21);
    FieldOfPrefix(s, p, fields, at, n, k);
    assert fields[k][..|fields[k]|] == fields[k];
  }

  lemma ShortFieldsOfPrefix(file: string, p: nat, fields: seq<string>, at: seq<nat>, n: nat)
    requires PlainFields(fields) && p <= n <= |file| && LaidOut(file, p, fields, at)
    ensures FieldStart(file[..n], p, 21).Some? <==> 21 < |fields| && at[21] < n
  {
    FieldIsFound(file, p, fields, at, 0, 21);
    FieldStartOfPrefix(file, n, p, 21);
  }

  lemma StreamFieldsWithNewline(fields: seq<string>, k: nat)
    requires StreamFields(fields) && k < |fields|
    ensures SpaceEnd(WithNewline(fields)[k], 0) == 0
    ensures k < |fields| - 1 ==> WithNewline(fields)[k] == fields[k]
    ensures k == |fields| - 1 ==> WithNewline(fields)[k] == fields[k] + "\n"
    ensures Strtoul(WithNewline(fields)[k], 0) == Strtoul(fields[k], 0)
    ensures Strtol(WithNewline(fields)[k], 0) == Strtol(fields[k], 0)
  {
    assert StreamField(fields[k]);
    assert WithNewline(fields)[k][0] == fields[k][0];
    NewlineIsNotRead(fields[k]);
  }

  /** The newline at the end of the file does not change what the buffer holds of field 24. */
  lemma LastFieldBuffered(f: string, newline: string, size: nat, room: nat)
    requires StreamField(f) && newline in {"", "\n"} && room > 0 && (size >= room || size >= |f + newline|)
    ensures var w := f + newline;
            Strtol(w[..Min(|w|, Min(size, room))], 0) == Strtol(f[..Min(|f|, room)], 0)
  {
    var w := f + newline;
    if Min(size, room) >= |w| {
      assert w[..|w|] == w && f[..|f|] == f;
      NewlineIsNotRead(f);
      assert f + "" == f;
    } else {
      assert w[..room] == f[..room];
    }
  }

  lemma BufferedLayout(pid: u32, comm: string, fields: seq<string>, at: seq<nat>)
    requires |fields| >= 22
    requires LaidOut(StatFile(pid, comm, fields), |Decimal(pid)| + 3 + |comm|, WithNewline(fields), at)
    ensures at[21] == FieldOffset(pid, comm, fields, 21)
    ensures at[21] + |WithNewline(fields)[21]| <= |StatFile(pid, comm, fields)|
  {
    var w, file, p := WithNewline(fields), StatFile(pid, comm, fields), |Decimal(pid)| + 3 + |comm|;
    EndBeforeIsLength(file, p, w, at, 21);
    assert Placed(file, p, w, at, 21);
    assert w[..21] == fields[..21];
  }

  lemma ScanOfSpan(text: string, span: NameSpan, machine: Machine)
    requires span.NameSpan? && span == Parentheses(text)
    ensures ScanStat(text, machine)
         == if FieldStart(text, span.close + 1, 21).None? then None else Some(LineIn(text, machine, span))
  {
  }

  /** Of a file with a short name, whatever its length, C scans what the buffer holds. */
  lemma BufferedScan(pid: u32, comm: string, fields: seq<string>, ticks: int, page: int)
    requires StreamFields(fields) && |comm| < PROC_NAME_MAX
    ensures var file := StatFile(pid, comm, fields);
            var machine := StandardMachine(ticks, page);
            ScanStat(file[..Min(|file|, STAT_BUFFER - 1)], machine) == BufferedLine(pid, comm, fields, machine)
  {
    var file := StatFile(pid, comm, fields);
    PidLength(pid);
    if fields == [] {
      EmptyTailFails(pid, comm, StandardMachine(ticks, page));
      assert file[..Min(|file|, STAT_BUFFER - 1)] == file;
    } else {
      var w := WithNewline(fields);
      SpacedWithNewline(fields);
      FieldsWithNewline(fields);
      assert file == PrintStat(pid, comm, w);
      var span, at := PrintedLayout(pid, comm, w);
      PrintedSpan(pid, comm, w);
      BufferedScanOfLayout(pid, comm, fields, file, span, w, at, StandardMachine(ticks, page));
    }
  }

  lemma BufferedScanOfLayout(pid: u32, comm: string, fields: seq<string>, file: string, span: NameSpan, w: seq<string>,
                             at: seq<nat>, machine: Machine)
    requires StreamFields(fields) && fields != [] && |comm| < PROC_NAME_MAX
    requires file == StatFile(pid, comm, fields) && w == WithNewline(fields) && PlainFields(w)
    requires span == NameSpan(|Decimal(pid)| + 1, |Decimal(pid)| + 2 + |comm|) && span == Parentheses(file)
    requires '(' !in file[..span.open] && ')' !in file[span.close + 1..]
    requires file[span.open + 1..span.close] == comm && LaidOut(file, span.close + 1, w, at)
    requires machine.strtoull == Strtoul && machine.strtol == Strtol
    ensures ScanStat(file[..Min(|file|, STAT_BUFFER - 1)], machine) == BufferedLine(pid, comm, fields, machine)
  {
    var n := Min(|file|, STAT_BUFFER - 1);
    PidLength(pid);
    BufferedLineStands(pid, comm, fields, file, span, at, n, machine);
    PrefixScan(file, span, w, at, n, machine, BufferedLine(pid, comm, fields, machine));
  }

  lemma PrefixScan(file: string, span: NameSpan, w: seq<string>, at: seq<nat>, n: nat, machine: Machine,
                   line: Option<StatLine>)
    requires span.NameSpan? && span == Parentheses(file) && span.close < n <= |file|
    requires '(' !in file[..span.open] && ')' !in file[span.close + 1..]
    requires PlainFields(w) && LaidOut(file, span.close + 1, w, at)
    requires line.Some? <==> 21 < |w| && at[21] < n
    requires line.Some? ==> Some(LineIn(file[..n], machine, span)) == line
    ensures ScanStat(file[..n], machine) == line
  {
    ParenthesesOfPrefix(file, span, n);
    ScanOfSpan(file[..n], span, machine);
    ShortFieldsOfPrefix(file, span.close + 1, w, at, n);
  }

  lemma BufferedLineStands(pid: u32, comm: string, fields: seq<string>, file: string, span: NameSpan, at: seq<nat>,
                           n: nat, machine: Machine)
    requires StreamFields(fields) && fields != [] && PlainFields(WithNewline(fields))
    requires file == StatFile(pid, comm, fields) && n == Min(|file|, STAT_BUFFER - 1)
    requires span == NameSpan(|Decimal(pid)| + 1, |Decimal(pid)| + 2 + |comm|) && span.close < n
    requires file[span.open + 1..span.close] == comm && LaidOut(file, span.close + 1, WithNewline(fields), at)
    requires machine.strtoull == Strtoul && machine.strtol == Strtol
    ensures BufferedLine(pid, comm, fields, machine).Some? <==> 21 < |fields| && at[21] < n
    ensures BufferedLine(pid, comm, fields, machine).Some? ==>
              Some(LineIn(file[..n], machine, span)) == BufferedLine(pid, comm, fields, machine)
  {
    if |fields| >= 22 {
      BufferedLayout(pid, comm, fields, at);
      assert |WithNewline(fields)[21]| > 0 by {
        assert StreamField(fields[21]);
      }
      if at[21] < n {
        BufferedLineOfLayout(pid, comm, fields, file, span, at, n, machine);
      }
    }
  }

  lemma LastFieldOfFile(pid: u32, comm: string, fields: seq<string>, at: nat, n: nat)
    requires StreamFields(fields) && |fields| >= 22
    requires n == Min(|StatFile(pid, comm, fields)|, STAT_BUFFER - 1) && at < n
    requires at == FieldOffset(pid, comm, fields, 21)
    requires at + |WithNewline(fields)[21]| <= |StatFile(pid, comm, fields)|
    ensures var f := WithNewline(fields)[21];
            Strtol(f[..Min(|f|, n - at)], 0) == Strtol(Buffered(pid, comm, fields), 0)
  {
    StreamFieldsWithNewline(fields, 21);
    assert StreamField(fields[21]);
    var newline := if |fields| == 22 then "\n" else "";
    assert WithNewline(fields)[21] == fields[21] + newline;
    LastFieldBuffered(fields[21], newline, |StatFile(pid, comm, fields)| - at, STAT_BUFFER - 1 - at);
  }

  /** The number at index k in the text is the number that g alone would give. */
  ghost predicate GivesNumber(text: string, p: nat, k: nat, g: string, machine: Machine)
    requires p <= |text|
  {
    && FieldNumber(machine.strtoull, 0, text, p, k) == machine.strtoull(g, 0)
    && FieldNumber(machine.strtol, 0, text, p, k) == machine.strtol(g, 0)
  }

  lemma WholeNumber(pid: u32, comm: string, fields: seq<string>, file: string, p: nat, at: seq<nat>, n: nat, k: nat,
                    machine: Machine)
    requires StreamFields(fields) && |fields| >= 22 && PlainFields(WithNewline(fields))
    requires LaidOut(file, p, WithNewline(fields), at) && p <= n <= |file| && at[21] < n && k < 21
    requires machine.strtoull == Strtoul && machine.strtol == Strtol
    ensures GivesNumber(file[..n], p, k, fields[k], machine)
  {
    StreamFieldsWithNewline(fields, k);
    WholeFieldOfPrefix(file, p, WithNewline(fields), at, n, k);
  }

  lemma CutNumber(pid: u32, comm: string, fields: seq<string>, file: string, p: nat, at: seq<nat>, n: nat,
                  machine: Machine)
    requires StreamFields(fields) && |fields| >= 22 && PlainFields(WithNewline(fields))
    requires file == StatFile(pid, comm, fields) && n == Min(|file|, STAT_BUFFER - 1)
    requires p == |Decimal(pid)| + 3 + |comm| && p <= n
    requires LaidOut(file, p, WithNewline(fields), at) && at[21] < n
    requires machine.strtoull == Strtoul && machine.strtol == Strtol
    ensures FieldOffset(pid, comm, fields, 21) < STAT_BUFFER - 1
    ensures FieldNumber(machine.strtol, 0, file[..n], p, 21) == machine.strtol(Buffered(pid, comm, fields), 0)
  {
    BufferedLayout(pid, comm, fields, at);
    LastFieldOfFile(pid, comm, fields, at[21], n);
    StreamFieldsWithNewline(fields, 21);
    FieldOfPrefix(file, p, WithNewline(fields), at, n, 21);
  }

  lemma BufferedLineIs(pid: u32, comm: string, fields: seq<string>, text: string, span: NameSpan, machine: Machine)
    requires |fields| >= 22 && FieldOffset(pid, comm, fields, 21) < STAT_BUFFER - 1
    requires span.NameSpan? && span.open < span.close < |text| && text[span.open + 1..span.close] == comm
    requires GivesNumber(text, span.close + 1, 11, fields[11], machine)
    requires GivesNumber(text, span.close + 1, 12, fields[12], machine)
    requires GivesNumber(text, span.close + 1, 17, fields[17], machine)
    requires FieldNumber(machine.strtol, 0, text, span.close + 1, 21) == machine.strtol(Buffered(pid, comm, fields), 0)
    ensures Some(LineIn(text, machine, span)) == BufferedLine(pid, comm, fields, machine)
  {
  }

  lemma BufferedLineOfLayout(pid: u32, comm: string, fields: seq<string>, file: string, span: NameSpan,
                             at: seq<nat>, n: nat, machine: Machine)
    requires StreamFields(fields) && |fields| >= 22 && PlainFields(WithNewline(fields))
    requires file == StatFile(pid, comm, fields) && n == Min(|file|, STAT_BUFFER - 1)
    requires span == NameSpan(|Decimal(pid)| + 1, |Decimal(pid)| + 2 + |comm|) && span.close < n
    requires file[span.open + 1..span.close] == comm
    requires LaidOut(file, span.close + 1, WithNewline(fields), at) && at[21] < n
    requires machine.strtoull == Strtoul && machine.strtol == Strtol
    ensures Some(LineIn(file[..n], machine, span)) == BufferedLine(pid, comm, fields, machine)
  {
    var p := span.close + 1;
    WholeNumber(pid, comm, fields, file, p, at, n, 11, machine);
    WholeNumber(pid, comm, fields, file, p, at, n, 12, machine);
    WholeNumber(pid, comm, fields, file, p, at, n, 17, machine);
    CutNumber(pid, comm, fields, file, p, at, n, machine);
    assert file[..n][span.open + 1..span.close] == comm;
    BufferedLineIs(pid, comm, fields, file[..n], span, machine);
  }

  // ---------- Agreement ----------

  /** The record that C stores for a scanned line, if it was long enough. */
  function CRecord(line: Option<StatLine>, pid: u32, machine: Machine): Option<ProcessInfo> {
    match line
    case None => None
    case Some(line) => Some(Fill(line, machine, Blank(pid)))
  }

  /** What C makes of a file: the text in its buffer, scanned. */
  function CReading(file: string, pid: u32, machine: Machine): Option<ProcessInfo> {
    var text := BufferText(Some(file));
    if text.None? then None else CRecord(ScanStat(text.value, machine), pid, machine)
  }

  /** Both readers skip the process, or both store the same record. */
  predicate SameReading(c: Option<ProcessInfo>, cpp: Outcome) {
    match c
    case None => cpp.Absent?
    case Some(info) => cpp == Read(ToCpp(info))
  }

  predicate ReadersAgree(file: string, pid: u32, machine: Machine) {
    SameReading(CReading(file, pid, machine), ReadLine(Line(file), pid, machine, StandardConversions()))
  }

  /** std::stoull and std::stol read the four used fields without an exception. */
  predicate NumbersConvert(fields: seq<string>)
    requires |fields| >= 22
  {
    Stoull(fields[11]).Some? && Stoull(fields[12]).Some? && Stol(fields[17]).Some? && Stol(fields[21]).Some?
  }

  function Memory(rssPages: int, machine: Machine): Option<u64> {
    if rssPages > 0 then Some(MemBytes(rssPages, machine.PageSize())) else None
  }

  /** Field 24 starts in the buffer, and what the buffer holds of it stands for the same memory as the
      whole of it. */
  predicate BufferSuffices(pid: u32, comm: string, fields: seq<string>, machine: Machine)
    requires |fields| >= 22
  {
    && FieldOffset(pid, comm, fields, 21) < STAT_BUFFER - 1
    && Memory(Strtol(Buffered(pid, comm, fields), 0), machine) == Memory(Strtol(fields[21], 0), machine)
  }

  lemma BufferedReadingsAgreeIff(pid: u32, comm: string, fields: seq<string>, machine: Machine)
    requires |comm| < PROC_NAME_MAX && machine.strtoull == Strtoul && machine.strtol == Strtol
    ensures SameReading(CRecord(BufferedLine(pid, comm, fields, machine), pid, machine),
                        CppReading(pid, comm, fields, machine, StandardConversions()))
       <==> |fields| >= 22 && NumbersConvert(fields) && BufferSuffices(pid, comm, fields, machine)
  {
  }

  /** C never stores a name of 256 bytes, C++ always does. */
  lemma LongNamesDiffer(text: string, pid: u32, comm: string, fields: seq<string>, machine: Machine, std: Conversions)
    requires |comm| >= PROC_NAME_MAX
    ensures !SameReading(CRecord(ScanStat(text, machine), pid, machine), CppReading(pid, comm, fields, machine, std))
  {
    var span := Parentheses(text);
    if span.NameSpan? {
      assert |NameIn(text, span)| < PROC_NAME_MAX;
    }
  }

  /** On a one-line file of fields without white space, of any length, the two programs agree if and
      only if the line has 24 fields, the name fits C's record, every used field starts with a number
      that fits its type, and the file fits C's buffer as far as it matters. A short line is skipped by
      C and read with zeros by C++; a long name is cut by C alone; a field without a number is zero in C
      and throws in C++; a number out of range saturates in C and throws in C++; and C skips a process
      whose field 24 lies beyond the first 4095 bytes. */
  lemma ReadersAgreeIff(pid: u32, comm: string, fields: seq<string>, ticks: int, page: int)
    requires StreamFields(fields) && '\n' !in comm && '\0' !in StatFile(pid, comm, fields)
    ensures ReadersAgree(StatFile(pid, comm, fields), pid, StandardMachine(ticks, page))
       <==> |fields| >= 22 && |comm| < PROC_NAME_MAX && NumbersConvert(fields)
            && BufferSuffices(pid, comm, fields, StandardMachine(ticks, page))
  {
    var file, machine := StatFile(pid, comm, fields), StandardMachine(ticks, page);
    LineOfFile(pid, comm, fields);
    CppReadsLine(pid, comm, fields, machine, StandardConversions());
    PlainFileInBuffer(file);
    if |comm| < PROC_NAME_MAX {
      BufferedScan(pid, comm, fields, ticks, page);
      BufferedReadingsAgreeIff(pid, comm, fields, machine);
    } else {
      LongNamesDiffer(file[..Min(|file|, STAT_BUFFER - 1)], pid, comm, fields, machine, StandardConversions());
    }
  }

  /** Any file that fits the buffer suffices. */
  lemma WholeFileSuffices(pid: u32, comm: string, fields: seq<string>, machine: Machine)
    requires |fields| >= 22 && |StatFile(pid, comm, fields)| < STAT_BUFFER
    ensures BufferSuffices(pid, comm, fields, machine)
  {
    PrefixIsShorter(pid, comm, fields, 21);
    assert Buffered(pid, comm, fields) == fields[21];
  }

  lemma {:induction false} SpacedGrows(fields: seq<string>, k: nat)
    requires k < |fields|
    ensures |Spaced(fields[..k])| + 1 + |fields[k]| <= |Spaced(fields)|
    decreases |fields|
  {
    if k < |fields| - 1 {
      SpacedGrows(fields[..|fields| - 1], k);
      assert fields[..|fields| - 1][..k] == fields[..k];
    }
    SpacedAppend(fields[..|fields| - 1], fields[|fields| - 1]);
    assert fields == fields[..|fields| - 1] + [fields[|fields| - 1]];
  }

  lemma PrefixIsShorter(pid: u32, comm: string, fields: seq<string>, k: nat)
    requires k < |fields|
    ensures FieldOffset(pid, comm, fields, k) + |fields[k]| < |StatFile(pid, comm, fields)|
  {
    SpacedGrows(fields, k);
  }

  // ---------- Files on which they differ ----------

  lemma {:induction false} SpacedHasNoNul(fields: seq<string>)
    requires forall i :: 0 <= i < |fields| ==> '\0' !in fields[i]
    ensures '\0' !in Spaced(fields)
  {
    if fields != [] {
      SpacedHasNoNul(fields[1..]);
    }
  }

  lemma FileHasNoNul(pid: nat, comm: string, fields: seq<string>)
    requires '\0' !in comm && forall i :: 0 <= i < |fields| ==> '\0' !in fields[i]
    ensures '\0' !in StatFile(pid, comm, fields)
  {
    DecimalRoundTrip(pid);
    SpacedHasNoNul(fields);
  }

  /** A field 3 of 5000 letters before 21 numbers. */
  function LongFields(): seq<string> { [seq(5000, _ => 'a')] + seq(21, _ => "1") }

  lemma LongFieldsHold()
    ensures |LongFields()| == 22 && StreamFields(LongFields())
    ensures forall i :: 0 <= i < 22 ==> '\0' !in LongFields()[i]
    ensures LongFields()[0] == seq(5000, _ => 'a')
    ensures LongFields()[11] == LongFields()[12] == LongFields()[17] == LongFields()[21] == "1"
  {
    var fields := LongFields();
    forall i | 0 <= i < 22 ensures StreamField(fields[i]) && '\0' !in fields[i] {
      assert fields[i] == if i == 0 then seq(5000, _ => 'a') else "1";
    }
  }

  lemma LongFieldsReachFar(pid: nat, comm: string)
    ensures |LongFields()| == 22 && FieldOffset(pid, comm, LongFields(), 21) > 5000
  {
    var fields := LongFields();
    LongFieldsHold();
    SpacedGrows(fields[..21], 0);
    assert fields[..21][0] == fields[0];
  }

  /** C skips, and C++ reads or throws, a process whose field 24 lies beyond the buffer. */
  lemma LateFieldDiffers(pid: u32, comm: string, fields: seq<string>, ticks: int, page: int)
    requires StreamFields(fields) && '\n' !in comm && '\0' !in StatFile(pid, comm, fields)
    requires |fields| >= 22 && FieldOffset(pid, comm, fields, 21) >= STAT_BUFFER - 1
    ensures !ReadersAgree(StatFile(pid, comm, fields), pid, StandardMachine(ticks, page))
  {
    ReadersAgreeIff(pid, comm, fields, ticks, page);
  }

  /** A complete file with numbers in range, which the programs read differently all the same. */
  lemma ReadersDiffer(ticks: int, page: int)
    ensures !ReadersAgree(StatFile(5, "x", LongFields()), 5, StandardMachine(ticks, page))
    ensures |LongFields()| == 22 && NumbersConvert(LongFields())
  {
    LongFieldsHold();
    LongFieldsReachFar(5, "x");
    FileHasNoNul(5, "x", LongFields());
    LateFieldDiffers(5, "x", LongFields(), ticks, page);
    OneConverts();
  }

  lemma OneConverts()
    ensures Stoull("1") == Some(1) && Stol("1") == Some(1)
  {
    assert ReadNumeral("1", 0) == Numeral(false, 1, 1) by {
      ReadPlainNumeral("1", 0);
      assert DigitsEnd("1", 1) == 1;
      assert ValueIn("1", 0, 0) == 0;
    }
  }
}
