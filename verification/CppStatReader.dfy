/** Reading the same line in C++ (`readStat` in cpp/src/LinuxProcessSource.cpp), through a string
    stream: fields end at any white space, a missing field stays zero, a bad one throws. */
module CppStatReader {
  import opened Basics
  import opened Numbers
  import opened StatParser
  import opened Joins

  datatype Outcome = Absent | Thrown | Read(info: CppInfo)

  /** std::stoull and std::stol; None stands for the exception. */
  datatype Conversions = Conversions(stoull: string -> Option<u64>, stol: string -> Option<int>)

  /** invalid_argument without digits, out_of_range when the value does not fit. */
  function Stoull(f: string): Option<u64> {
    var n := ReadNumeral(f, 0);
    if n.NotANumber? || n.magnitude >= TWO_64 then None else Some(UlongOf(n))
  }

  function Stol(f: string): Option<int> {
    var n := ReadNumeral(f, 0);
    if n.NotANumber? || (if n.negative then n.magnitude > TWO_63 else n.magnitude >= TWO_63)
    then None else Some(LongOf(n))
  }

  /** A printed number converts if the type can hold it, and throws if not; a text without a number throws. */
  lemma ConversionsAre(n: nat, m: int, text: string)
    ensures Stoull(Decimal(n)) == if n <= 0xFFFF_FFFF_FFFF_FFFF then Some(n) else None
    ensures Stol(Signed(m)) == if -0x8000_0000_0000_0000 <= m <= 0x7FFF_FFFF_FFFF_FFFF then Some(m) else None
    ensures text != "" && !IsSpace(text[0]) && !IsDigit(text[0]) && text[0] != '+' && text[0] != '-' ==>
              Stoull(text) == None && Stol(text) == None
  {
    UnsignedNumberConverts(n);
    DecimalRoundTrip(n);
    ReadPlainNumeral(Decimal(n), 0);
    SignedReads(m);
    if text != "" && !IsSpace(text[0]) && !IsDigit(text[0]) && text[0] != '+' && text[0] != '-' {
      assert SpaceEnd(text, 0) == 0 && DigitsEnd(text, 0) == 0;
    }
  }

  lemma SignedReads(m: int)
    ensures ReadNumeral(Signed(m), 0) == Numeral(m < 0, if m < 0 then -m else m, |Signed(m)|)
  {
    if m < 0 {
      DecimalRoundTrip(-m);
      MinusIsRead(Decimal(-m));
    } else {
      DecimalRoundTrip(m);
      ReadPlainNumeral(Decimal(m), 0);
    }
  }

  function StandardConversions(): Conversions { Conversions(Stoull, Stol) }

  // ---------- Tokens of a stream ----------

  function TokenEnd(s: string, i: nat): (n: nat)
    requires i <= |s|
    ensures i <= n <= |s| && (i < |s| && !IsSpace(s[i]) ==> i < n)
    decreases |s| - i
  {
    if i == |s| || IsSpace(s[i]) then i else TokenEnd(s, i + 1)
  }

  /** The k-th token that extraction from position p yields. */
  function Token(s: string, p: nat, k: nat): Option<string>
    requires p <= |s|
    decreases |s| - p
  {
    var q := SpaceEnd(s, p);
    SpaceEnds(s, p);
    if q == |s| then None
    else if k == 0 then Some(s[q..TokenEnd(s, q)])
    else Token(s, TokenEnd(s, q), k - 1)
  }

  lemma {:induction false} SpaceEnds(s: string, i: nat)
    requires i <= |s|
    ensures SpaceEnd(s, i) < |s| ==> !IsSpace(s[SpaceEnd(s, i)])
    decreases |s| - i
  {
    if i < |s| && IsSpace(s[i]) { SpaceEnds(s, i + 1); }
  }

  function NumberOf<N>(convert: string -> Option<N>, missing: N, token: Option<string>): Option<N> {
    match token
    case None => Some(missing)
    case Some(f) => convert(f)
  }

  // ---------- The reader as a function ----------

  /** std::getline: everything before the first newline. */
  function Line(content: string): string {
    match FirstOf(content, '\n', 0)
    case None => content
    case Some(n) => content[..n]
  }

  function Stored(pid: u32, name: string, utime: u64, stime: u64, threads: int, rssPages: int,
                  machine: Machine): CppInfo {
    CppInfo(pid, name,
            if rssPages > 0 then Some(MemBytes(rssPages, machine.PageSize())) else None,
            if threads > 0 then threads % TWO_32 else 0,
            Some(CpuTimeNs(utime, stime, machine.Ticks())), 0.0)
  }

  function ReadFields(line: string, start: nat, pid: u32, name: string, machine: Machine, std: Conversions): Outcome
    requires start <= |line|
  {
    var utime := NumberOf(std.stoull, 0, Token(line, start, 14 - 3));
    var stime := NumberOf(std.stoull, 0, Token(line, start, 15 - 3));
    var threads := NumberOf(std.stol, 0, Token(line, start, 20 - 3));
    var rssPages := NumberOf(std.stol, 0, Token(line, start, 24 - 3));
    if utime.None? || stime.None? || threads.None? || rssPages.None? then Thrown
    else Read(Stored(pid, name, utime.value, stime.value, threads.value, rssPages.value, machine))
  }

  function ReadLine(line: string, pid: u32, machine: Machine, std: Conversions): Outcome {
    var span := Parentheses(line);
    if span.NoName? then Absent
    else ReadFields(line, span.close + 1, pid, line[span.open + 1..span.close], machine, std)
  }

  // ---------- The reader as the program runs it ----------

  ghost predicate TokensAhead(s: string, start: nat, pos: nat, index: nat)
    requires start <= |s| && pos <= |s| && index >= 3
  {
    forall k: nat :: k + 3 >= index ==> Token(s, start, k) == Token(s, pos, k + 3 - index)
  }

  lemma NextToken(s: string, start: nat, pos: nat, index: nat)
    requires start <= |s| && pos <= |s| && index >= 3 && TokensAhead(s, start, pos, index)
    ensures var q := SpaceEnd(s, pos);
            && Token(s, start, index - 3) == (if q == |s| then None else Some(s[q..TokenEnd(s, q)]))
            && (q < |s| ==> TokensAhead(s, start, TokenEnd(s, q), index + 1))
  {
    assert Token(s, start, index - 3) == Token(s, pos, 0);
    var q := SpaceEnd(s, pos);
    if q < |s| {
      forall k: nat | k + 3 >= index + 1
        ensures Token(s, start, k) == Token(s, TokenEnd(s, q), k + 3 - (index + 1))
      {
        assert Token(s, start, k) == Token(s, pos, k + 3 - index);
      }
    }
  }

  method ReadStat(content: Option<string>, pid: u32, machine: Machine, std: Conversions) returns (r: Outcome)
    ensures r == if content.None? then Absent else ReadLine(Line(content.value), pid, machine, std)
  {
    if content.None? {
      return Absent;
    }
    var line := Line(content.value);
    var open, close := FirstOf(line, '(', 0), LastOf(line, ')', |line|);
    if open.None? || close.None? || close.value < open.value {
      return Absent;
    }
    var name := line[open.value + 1..close.value];
    r := ExtractFields(line, close.value + 1, pid, name, machine, std);
  }

  /** The extraction loop, from the position of the stream. */
  method ExtractFields(line: string, start: nat, pid: u32, name: string, machine: Machine, std: Conversions)
    returns (r: Outcome)
    requires start <= |line|
    ensures r == ReadFields(line, start, pid, name, machine, std)
  {
    var utime: u64, stime: u64, threads: int, rssPages: int := 0, 0, 0, 0;
    var pos, index := start, 3;
    while index <= 24
      invariant 3 <= index <= 25 && start <= pos <= |line| && TokensAhead(line, start, pos, index)
      invariant index > 14 ==> NumberOf(std.stoull, 0, Token(line, start, 14 - 3)) == Some(utime)
      invariant index <= 14 ==> utime == 0
      invariant index > 15 ==> NumberOf(std.stoull, 0, Token(line, start, 15 - 3)) == Some(stime)
      invariant index <= 15 ==> stime == 0
      invariant index > 20 ==> NumberOf(std.stol, 0, Token(line, start, 20 - 3)) == Some(threads)
      invariant index <= 20 ==> threads == 0
      invariant index > 24 ==> NumberOf(std.stol, 0, Token(line, start, 24 - 3)) == Some(rssPages)
      invariant index <= 24 ==> rssPages == 0
    {
      NextToken(line, start, pos, index);
      pos := SpaceEnd(line, pos);
      if pos == |line| {
        assert Token(line, start, index - 3).None?;
        LaterTokensMissing(line, start, index - 3);
        break;
      }
      var field := line[pos..TokenEnd(line, pos)];
      if index == 14 || index == 15 {
        var number := std.stoull(field);
        if number.None? {
          return Thrown;
        }
        if index == 14 { utime := number.value; } else { stime := number.value; }
      } else if index == 20 || index == 24 {
        var number := std.stol(field);
        if number.None? {
          return Thrown;
        }
        if index == 20 { threads := number.value; } else { rssPages := number.value; }
      }
      pos := TokenEnd(line, pos);
      index := index + 1;
    }
    r := Read(Stored(pid, name, utime, stime, threads, rssPages, machine));
  }

  lemma {:induction false} TokenMissing(s: string, p: nat, k: nat, n: nat)
    requires p <= |s| && k <= n && Token(s, p, k).None?
    ensures Token(s, p, n).None?
    decreases k
  {
    SpaceEnds(s, p);
    var q := SpaceEnd(s, p);
    if q != |s| {
      TokenMissing(s, TokenEnd(s, q), k - 1, n - 1);
    }
  }

  lemma LaterTokensMissing(s: string, p: nat, k: nat)
    requires p <= |s| && Token(s, p, k).None?
    ensures forall n: nat :: n >= k ==> Token(s, p, n).None?
  {
    forall n: nat | n >= k ensures Token(s, p, n).None? {
      TokenMissing(s, p, k, n);
    }
  }
}
