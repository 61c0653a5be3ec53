/** What the C and the C++ reader each make of a file as the kernel writes it. */
module StatAgreement {
  import opened Basics
  import opened Numbers
  import opened ProcessModel
  import opened StatParser
  import opened Joins
  import opened CppStatReader

  /** The file as the kernel writes it: one line and a newline. */
  function StatFile(pid: nat, comm: string, fields: seq<string>): string { PrintStat(pid, comm, fields) + "\n" }

  /** A field without white space or closing parenthesis. */
  predicate StreamField(f: string) {
    f != "" && ')' !in f && forall i :: 0 <= i < |f| ==> !IsSpace(f[i])
  }

  ghost predicate StreamFields(fields: seq<string>) { forall i :: 0 <= i < |fields| ==> StreamField(fields[i]) }

  // ---------- C: the newline belongs to the last field ----------

  function WithNewline(fields: seq<string>): seq<string>
    requires fields != []
  {
    fields[..|fields| - 1] + [fields[|fields| - 1] + "\n"]
  }

  lemma {:induction false} SpacedWithNewline(fields: seq<string>)
    requires fields != []
    ensures Spaced(fields) + "\n" == Spaced(WithNewline(fields))
  {
    var w := WithNewline(fields);
    if |fields| == 1 {
      assert w == [fields[0] + "\n"];
      assert Spaced(fields) == " " + fields[0] + "";
      assert Spaced(w) == " " + (fields[0] + "\n") + "";
    } else {
      SpacedWithNewline(fields[1..]);
      assert w[0] == fields[0] && w[1..] == WithNewline(fields[1..]);
      assert Spaced(fields) + "\n" == " " + fields[0] + (Spaced(fields[1..]) + "\n");
    }
  }

  lemma NewlineIsNotRead(f: string)
    requires StreamField(f)
    ensures Visible(f) && Visible(f + "\n")
    ensures Strtoul(f + "\n", 0) == Strtoul(f, 0) && Strtol(f + "\n", 0) == Strtol(f, 0)
  {
    assert SpaceEnd(f, 0) == 0;
    assert StandsAt(f + "\n", 0, f);
    SpaceEndOfCopy(f + "\n", 0, f, 0);
    ConversionOfCopy(f + "\n", 0, f);
  }

  lemma FieldsWithNewline(fields: seq<string>)
    requires fields != [] && StreamFields(fields)
    ensures PlainFields(WithNewline(fields)) && VisibleFields(WithNewline(fields))
    ensures forall comm :: PrintedLine(comm, WithNewline(fields)) == PrintedLine(comm, fields)
  {
    var w := WithNewline(fields);
    forall i | 0 <= i < |w| ensures PlainField(w[i]) {
      assert StreamField(fields[i]);
    }
    if |fields| >= 22 {
      NewlineIsNotRead(fields[11]);
      NewlineIsNotRead(fields[12]);
      NewlineIsNotRead(fields[17]);
      NewlineIsNotRead(fields[21]);
    }
  }

  /** A name and nothing behind it. */
  lemma EmptyTailFails(pid: nat, comm: string, machine: Machine)
    ensures ScanStat(StatFile(pid, comm, []), machine) == None
    ensures Parentheses(StatFile(pid, comm, [])).NameSpan?
  {
    var d, text := Decimal(pid) + " ", StatFile(pid, comm, []);
    DecimalRoundTrip(pid);
    ParenthesesAround(d, comm, "\n");
    assert text == d + "(" + comm + ")" + "\n";
    var p := |text| - 1;
    assert SkipBlanks(text, p) == p;
    assert SkipWord(text, p) == |text|;
    assert FieldStart(text, |text|, 20).None?;
    assert FieldStart(text, p, 21) == FieldStart(text, |text|, 20);
  }

  lemma CReadsFile(pid: nat, comm: string, fields: seq<string>, ticks: int, page: int)
    requires StreamFields(fields)
    ensures ScanStat(StatFile(pid, comm, fields), StandardMachine(ticks, page)) == PrintedLine(comm, fields)
  {
    if fields == [] {
      EmptyTailFails(pid, comm, StandardMachine(ticks, page));
    } else {
      SpacedWithNewline(fields);
      FieldsWithNewline(fields);
      assert StatFile(pid, comm, fields) == PrintStat(pid, comm, WithNewline(fields));
      StatRoundTrip(pid, comm, WithNewline(fields), ticks, page);
    }
  }

  /** A line in which no '(' stands before a ')' is skipped by both programs. */
  lemma NamelessIsSkipped(line: string, pid: u32, machine: Machine, std: Conversions)
    requires !exists i, j :: 0 <= i < j < |line| && line[i] == '(' && line[j] == ')'
    ensures ScanStat(line, machine) == None && ReadLine(line, pid, machine, std) == Absent
  {
    ParenthesesMean(line);
  }

  // ---------- C++: tokens of the first line ----------

  lemma {:induction false} TokenEndIs(s: string, i: nat, n: nat)
    requires i <= n <= |s| && (n < |s| ==> IsSpace(s[n])) && forall j :: i <= j < n ==> !IsSpace(s[j])
    ensures TokenEnd(s, i) == n
    decreases n - i
  {
    if i < n { TokenEndIs(s, i + 1, n); }
  }

  lemma TokenIsExtracted(s: string, q: nat, f: string)
    requires StreamField(f) && FieldAt(s, q, f)
    ensures SpaceEnd(s, q - 1) == q && TokenEnd(s, q) == q + |f| && s[q..q + |f|] == f
  {
    assert s[q] == f[0];
    assert SpaceEnd(s, q) == q;
    TokenEndIs(s, q, q + |f|);
  }

  lemma {:induction false} TokenIsFound(s: string, p: nat, fields: seq<string>, at: seq<nat>, j: nat, k: nat)
    requires StreamFields(fields) && LaidOut(s, p, fields, at) && j <= |fields| && j <= k
    ensures EndBefore(p, fields, at, j) <= |s|
    ensures Token(s, EndBefore(p, fields, at, j), k - j) == if k < |fields| then Some(fields[k]) else None
    decreases |fields| - j
  {
    if j < |fields| {
      assert Placed(s, p, fields, at, j) && StreamField(fields[j]);
      TokenIsExtracted(s, at[j], fields[j]);
      if j < k {
        TokenIsFound(s, p, fields, at, j + 1, k);
      }
    }
  }

  lemma StreamFieldsArePlain(fields: seq<string>)
    requires StreamFields(fields)
    ensures PlainFields(fields)
  {
    forall i | 0 <= i < |fields| ensures PlainField(fields[i]) {
      assert StreamField(fields[i]);
    }
  }

  lemma {:induction false} SpacedHasNoNewline(fields: seq<string>)
    requires StreamFields(fields)
    ensures '\n' !in Spaced(fields)
  {
    if fields != [] {
      assert StreamField(fields[0]);
      assert '\n' !in fields[0];
      SpacedHasNoNewline(fields[1..]);
    }
  }

  lemma LineOfFile(pid: nat, comm: string, fields: seq<string>)
    requires StreamFields(fields) && '\n' !in comm
    ensures Line(StatFile(pid, comm, fields)) == PrintStat(pid, comm, fields)
  {
    var line, file := PrintStat(pid, comm, fields), StatFile(pid, comm, fields);
    DecimalRoundTrip(pid);
    SpacedHasNoNewline(fields);
    assert '\n' !in Decimal(pid);
    assert '\n' !in line;
    assert forall j :: 0 <= j < |line| ==> file[j] == line[j] && line[j] in line;
    FirstOfIs(file, '\n', 0, |line|);
    assert file[..|line|] == line;
  }

  function FieldToken(fields: seq<string>, k: nat): Option<string> {
    if k < |fields| then Some(fields[k]) else None
  }

  /** What C++ makes of a printed line, however many fields it has: an exception when a number cannot
      be read or does not fit its type, otherwise the record, with the name in full and zero for every
      missing number. */
  function CppReading(pid: u32, comm: string, fields: seq<string>, machine: Machine, std: Conversions): Outcome {
    var utime := NumberOf(std.stoull, 0, FieldToken(fields, 11));
    var stime := NumberOf(std.stoull, 0, FieldToken(fields, 12));
    var threads := NumberOf(std.stol, 0, FieldToken(fields, 17));
    var rssPages := NumberOf(std.stol, 0, FieldToken(fields, 21));
    if utime.None? || stime.None? || threads.None? || rssPages.None? then Thrown
    else Read(Stored(pid, comm, utime.value, stime.value, threads.value, rssPages.value, machine))
  }

  lemma ReadLineOfSpan(line: string, span: NameSpan, pid: u32, machine: Machine, std: Conversions)
    requires span.NameSpan? && span == Parentheses(line)
    ensures ReadLine(line, pid, machine, std)
         == ReadFields(line, span.close + 1, pid, line[span.open + 1..span.close], machine, std)
  {
  }

  lemma CppReadsLine(pid: u32, comm: string, fields: seq<string>, machine: Machine, std: Conversions)
    requires StreamFields(fields)
    ensures ReadLine(PrintStat(pid, comm, fields), pid, machine, std) == CppReading(pid, comm, fields, machine, std)
  {
    StreamFieldsArePlain(fields);
    var line := PrintStat(pid, comm, fields);
    var span, at := PrintedLayout(pid, comm, fields);
    ReadLineOfSpan(line, span, pid, machine, std);
    ReadingOfLayout(line, span.close + 1, pid, comm, fields, at, machine, std);
  }

  lemma ReadingOfLayout(line: string, start: nat, pid: u32, comm: string, fields: seq<string>, at: seq<nat>,
                        machine: Machine, std: Conversions)
    requires start <= |line| && StreamFields(fields) && LaidOut(line, start, fields, at)
    ensures ReadFields(line, start, pid, comm, machine, std) == CppReading(pid, comm, fields, machine, std)
  {
    TokenIsFound(line, start, fields, at, 0, 11);
    TokenIsFound(line, start, fields, at, 0, 12);
    TokenIsFound(line, start, fields, at, 0, 17);
    TokenIsFound(line, start, fields, at, 0, 21);
  }
}
