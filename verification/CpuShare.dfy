/** What the CPU column means: bounds and conservation within one round, independence of the order
    in which processes were listed, and exact accounting over a whole run. */
module CpuShare {
  import opened Basics
  import opened ProcessModel
  import opened Ordering

  // ---------- One round ----------

  /** The two lists differ in nothing but the computed percentages. */
  ghost predicate SameButPercent(s: seq<ProcessInfo>, t: seq<ProcessInfo>) {
    |s| == |t| && forall i :: 0 <= i < |s| ==> s[i].(cpuPercent := 0.0) == t[i].(cpuPercent := 0.0)
  }

  lemma PercentInRange(busy: nat, capacity: nat)
    requires capacity > 0
    ensures 0.0 <= Percent(busy, capacity) <= 100.0
  {
    assert busy as real * 100.0 / capacity as real >= 0.0;
  }

  /** The percentage that the join writes, times the time on all cores, is 100 times the time the process
      was busy, or it is 100 when that is more than there was. A machine of unknown size has one core. */
  lemma ShareIs(prev: seq<ProcessInfo>, wallDelta: nat, cpuCount: nat, item: ProcessInfo, k: nat)
    requires wallDelta > 0 && Find(prev, item.pid) == Some(k) && prev[k].cpuKnown && item.cpuKnown
    requires prev[k].cpuTimeNs <= item.cpuTimeNs
    ensures var share := JoinItem(prev, Capacity(wallDelta, cpuCount), item).cpuPercent;
            var offered := wallDelta * (if cpuCount == 0 then 1 else cpuCount);
            var busy := item.cpuTimeNs - prev[k].cpuTimeNs;
            if busy <= offered then share * offered as real == 100.0 * busy as real else share == 100.0
  {
    var capacity := Capacity(wallDelta, cpuCount);
    CappedQuotient((item.cpuTimeNs - prev[k].cpuTimeNs) as real, capacity as real);
  }

  /** Whatever the two samples hold, the join writes no field but the percentage, and keeps every
      percentage between 0 and 100. */
  lemma JoinTouchesOnlyPercent(cur: Sample, prev: Sample, cpuCount: nat)
    requires forall i :: 0 <= i < |cur.items| ==> 0.0 <= cur.items[i].cpuPercent <= 100.0
    ensures var r := ApplyCpu(cur, prev, cpuCount);
            && SameButPercent(r, cur.items)
            && forall i :: 0 <= i < |r| ==> 0.0 <= r[i].cpuPercent <= 100.0
  {
    if prev.items != [] && cur.wallNs > prev.wallNs {
      var capacity := Capacity(cur.wallNs - prev.wallNs, cpuCount);
      forall i | 0 <= i < |cur.items|
        ensures 0.0 <= JoinItem(prev.items, capacity, cur.items[i]).cpuPercent <= 100.0
      {
        match Find(prev.items, cur.items[i].pid)
        case None =>
        case Some(k) =>
          if cur.items[i].cpuTimeNs >= prev.items[k].cpuTimeNs {
            PercentInRange(cur.items[i].cpuTimeNs - prev.items[k].cpuTimeNs, capacity);
          }
      }
    }
  }

  /** CPU time charged to an item since the previous sample; zero when the join has nothing to say. */
  function Busy(prev: seq<ProcessInfo>, item: ProcessInfo): nat {
    match Find(prev, item.pid)
    case None => 0
    case Some(k) =>
      if !prev[k].cpuKnown || !item.cpuKnown || item.cpuTimeNs < prev[k].cpuTimeNs then 0
      else item.cpuTimeNs - prev[k].cpuTimeNs
  }

  function Busies(prev: seq<ProcessInfo>, s: seq<ProcessInfo>): seq<nat> {
    seq(|s|, i requires 0 <= i < |s| => Busy(prev, s[i]))
  }

  function Percents(s: seq<ProcessInfo>): seq<real> {
    seq(|s|, i requires 0 <= i < |s| => s[i].cpuPercent)
  }

  function Sum(xs: seq<real>): real {
    if xs == [] then 0.0 else Sum(xs[..|xs| - 1]) + xs[|xs| - 1]
  }

  function SumNat(xs: seq<nat>): nat {
    if xs == [] then 0 else SumNat(xs[..|xs| - 1]) + xs[|xs| - 1]
  }

  /** A percentage turned back into time: percent-nanoseconds of the given capacity. */
  function Charge(percent: real, capacity: nat): real { percent * capacity as real }

  /** A charge stands for busy nanoseconds: exactly if they fit the capacity, for less if not. */
  ghost predicate Accounts(charge: real, busy: nat, fits: bool) {
    && charge <= 100.0 * busy as real
    && (charge == 100.0 * busy as real <==> fits)
  }

  lemma CappedQuotient(b: real, c: real)
    requires b >= 0.0 && c > 0.0
    ensures var p := b * 100.0 / c;
            && (p > 100.0 <==> b > c)
            && p * c == 100.0 * b
  {
    var p := b * 100.0 / c;
    assert p * c == b * 100.0;
    if b > c {
      assert b * 100.0 > 100.0 * c;
    }
  }

  lemma PercentAccounts(busy: nat, capacity: nat)
    requires capacity > 0
    ensures Accounts(Charge(Percent(busy, capacity), capacity), busy, busy <= capacity)
  {
    CappedQuotient(busy as real, capacity as real);
  }

  lemma ItemAccounts(prev: seq<ProcessInfo>, capacity: nat, item: ProcessInfo)
    requires capacity > 0 && item.cpuPercent == 0.0
    ensures Accounts(Charge(JoinItem(prev, capacity, item).cpuPercent, capacity),
                     Busy(prev, item), Busy(prev, item) <= capacity)
  {
    PercentAccounts(Busy(prev, item), capacity);
  }

  ghost predicate AllTrue(fits: seq<bool>) { forall k :: 0 <= k < |fits| ==> fits[k] }

  /** Charges that account for their parts account for the total. */
  lemma {:induction false} ChargesAddUp(charges: seq<real>, busies: seq<nat>, fits: seq<bool>)
    requires |charges| == |busies| == |fits|
    requires forall i :: 0 <= i < |charges| ==> Accounts(charges[i], busies[i], fits[i])
    ensures Accounts(Sum(charges), SumNat(busies), AllTrue(fits))
  {
    if charges != [] {
      var n := |charges| - 1;
      ChargesAddUp(charges[..n], busies[..n], fits[..n]);
      assert AllTrue(fits) <==> AllTrue(fits[..n]) && fits[n];
    }
  }

  lemma {:induction false} SumScales(percents: seq<real>, charges: seq<real>, capacity: nat)
    requires |percents| == |charges|
    requires forall i :: 0 <= i < |charges| ==> charges[i] == Charge(percents[i], capacity)
    ensures Sum(charges) == Charge(Sum(percents), capacity)
  {
    if charges != [] {
      var n := |charges| - 1;
      SumScales(percents[..n], charges[..n], capacity);
      ChargeDistributes(Sum(percents[..n]), percents[n], capacity);
    }
  }

  lemma ChargeDistributes(p: real, q: real, capacity: nat)
    ensures Charge(p + q, capacity) == Charge(p, capacity) + Charge(q, capacity)
  {
  }

  lemma {:induction false} PartAtMostSum(xs: seq<nat>, i: nat)
    requires i < |xs|
    ensures xs[i] <= SumNat(xs)
  {
    if i < |xs| - 1 {
      PartAtMostSum(xs[..|xs| - 1], i);
    }
  }

  ghost predicate NoneCapped(prev: seq<ProcessInfo>, s: seq<ProcessInfo>, capacity: nat) {
    forall i :: 0 <= i < |s| ==> Busy(prev, s[i]) <= capacity
  }

  lemma TotalAccounts(prev: seq<ProcessInfo>, capacity: nat, s: seq<ProcessInfo>)
    requires capacity > 0
    requires forall i :: 0 <= i < |s| ==> s[i].cpuPercent == 0.0
    ensures Accounts(Charge(Sum(Percents(Map(Join(prev, capacity), s))), capacity),
                     SumNat(Busies(prev, s)), NoneCapped(prev, s, capacity))
  {
    var percents := Percents(Map(Join(prev, capacity), s));
    var charges := seq(|s|, i requires 0 <= i < |s| => Charge(percents[i], capacity));
    var busies := Busies(prev, s);
    var fits := seq(|s|, i requires 0 <= i < |s| => busies[i] <= capacity);
    forall i | 0 <= i < |s| ensures Accounts(charges[i], busies[i], fits[i]) {
      ItemAccounts(prev, capacity, s[i]);
    }
    ChargesAddUp(charges, busies, fits);
    SumScales(percents, charges, capacity);
    assert AllTrue(fits) <==> NoneCapped(prev, s, capacity) by {
      assert forall i :: 0 <= i < |s| ==> fits[i] == (Busy(prev, s[i]) <= capacity);
    }
  }

  lemma ChargeAtMostHundred(percent: real, busy: nat, capacity: nat)
    requires capacity > 0 && busy <= capacity
    requires Charge(percent, capacity) <= 100.0 * busy as real
    ensures percent <= 100.0
  {
    var c := capacity as real;
    assert percent * c <= 100.0 * c;
    assert percent * c / c == percent;
  }

  /** Conservation. When the processes together used no more CPU time than the machine has, no share
      is capped, the shares add up to exactly the used part of the machine, and to at most 100.
      Without that assumption the shares never stand for more than was used. */
  lemma SharesAreConserved(cur: Sample, prev: Sample, cpuCount: nat)
    requires forall i :: 0 <= i < |cur.items| ==> cur.items[i].cpuPercent == 0.0
    requires prev.items != [] && cur.wallNs > prev.wallNs
    ensures var capacity := Capacity(cur.wallNs - prev.wallNs, cpuCount);
            var used := SumNat(Busies(prev.items, cur.items));
            var total := Sum(Percents(ApplyCpu(cur, prev, cpuCount)));
            && Accounts(Charge(total, capacity), used, NoneCapped(prev.items, cur.items, capacity))
            && (used <= capacity ==> NoneCapped(prev.items, cur.items, capacity) && total <= 100.0)
  {
    var capacity := Capacity(cur.wallNs - prev.wallNs, cpuCount);
    var busies := Busies(prev.items, cur.items);
    TotalAccounts(prev.items, capacity, cur.items);
    if SumNat(busies) <= capacity {
      forall i | 0 <= i < |cur.items| ensures Busy(prev.items, cur.items[i]) <= capacity {
        PartAtMostSum(busies, i);
      }
      ChargeAtMostHundred(Sum(Percents(Map(Join(prev.items, capacity), cur.items))), SumNat(busies), capacity);
    }
  }

  // ---------- Totals ----------

  function TotalShare(s: seq<ProcessInfo>): real { Sum(Percents(s)) }

  ghost predicate NoneNegative(s: seq<ProcessInfo>) { forall i :: 0 <= i < |s| ==> s[i].cpuPercent >= 0.0 }

  ghost predicate AllZero(s: seq<ProcessInfo>) { forall i :: 0 <= i < |s| ==> s[i].cpuPercent == 0.0 }

  ghost predicate AllKnown(s: seq<ProcessInfo>) { forall i :: 0 <= i < |s| ==> s[i].cpuKnown }

  lemma TotalOfLast(s: seq<ProcessInfo>)
    requires s != []
    ensures TotalShare(s) == TotalShare(s[..|s| - 1]) + s[|s| - 1].cpuPercent
  {
    assert Percents(s)[..|s| - 1] == Percents(s[..|s| - 1]);
  }

  lemma {:induction false} TotalOfConcat(s: seq<ProcessInfo>, t: seq<ProcessInfo>)
    ensures TotalShare(s + t) == TotalShare(s) + TotalShare(t)
  {
    if t == [] {
      assert s + t == s;
    } else {
      var init, last := t[..|t| - 1], t[|t| - 1];
      TotalOfConcat(s, init);
      TotalOfLast(s + t);
      TotalOfLast(t);
      assert (s + t)[..|s + t| - 1] == s + init;
    }
  }

  lemma {:induction false} TotalOfPermutation(s: seq<ProcessInfo>, t: seq<ProcessInfo>)
    requires multiset(s) == multiset(t)
    ensures TotalShare(s) == TotalShare(t)
    decreases |s|
  {
    SameLength(s, t);
    if s != [] {
      var j := MatchLast(s, t);
      TotalOfPermutation(s[..|s| - 1], t[..j] + t[j + 1..]);
      TotalOfLast(s);
      TotalOfConcat(t[..j], t[j + 1..]);
      TotalOfConcat(t[..j + 1], t[j + 1..]);
      TotalOfLast(t[..j + 1]);
      assert t[..j + 1][..j] == t[..j] && t == t[..j + 1] + t[j + 1..];
    }
  }

  lemma {:induction false} TotalNotNegative(s: seq<ProcessInfo>)
    requires NoneNegative(s)
    ensures TotalShare(s) >= 0.0
  {
    if s != [] {
      TotalNotNegative(s[..|s| - 1]);
      TotalOfLast(s);
    }
  }

  lemma TotalOfPrefix(s: seq<ProcessInfo>, n: nat)
    requires NoneNegative(s) && n <= |s|
    ensures TotalShare(s[..n]) <= TotalShare(s)
  {
    assert s == s[..n] + s[n..];
    TotalOfConcat(s[..n], s[n..]);
    TotalNotNegative(s[n..]);
  }

  lemma {:induction false} TotalOfFiltered(s: seq<ProcessInfo>, needle: string)
    requires NoneNegative(s)
    ensures TotalShare(FlatMap(Keep(needle), s)) <= TotalShare(s)
  {
    if s != [] {
      var init, kept := s[..|s| - 1], Keep(needle)(s[|s| - 1]);
      TotalOfFiltered(init, needle);
      FlatMapLast(Keep(needle), s);
      TotalOfConcat(FlatMap(Keep(needle), init), kept);
      TotalOfLast(s);
      if kept != [] {
        TotalOfLast(kept);
      }
    }
  }

  lemma {:induction false} TotalOfZeros(s: seq<ProcessInfo>)
    requires AllZero(s)
    ensures TotalShare(s) == 0.0
  {
    if s != [] {
      TotalOfZeros(s[..|s| - 1]);
      TotalOfLast(s);
    }
  }

  /** The processes together used no more CPU time in the interval than the machine has. */
  predicate AllFit(cur: Sample, prev: Sample, cpuCount: nat) {
    && cur.wallNs > prev.wallNs
    && SumNat(Busies(prev.items, cur.items)) <= Capacity(cur.wallNs - prev.wallNs, cpuCount)
  }

  /** Then the percentages of the round add up to at most 100. */
  lemma TotalFits(cur: Sample, prev: Sample, cpuCount: nat)
    requires AllZero(cur.items)
    requires AllFit(cur, prev, cpuCount)
    ensures TotalShare(ApplyCpu(cur, prev, cpuCount)) <= 100.0
  {
    if prev.items == [] {
      TotalOfZeros(cur.items);
    } else {
      SharesAreConserved(cur, prev, cpuCount);
    }
  }

  // ---------- When a percentage is right ----------

  /** The CPU time used since the previous snapshot, counting from zero for a process that was not
      listed there. */
  function Used(cur: Sample, prev: Sample, pid: u32): int { CpuTime(cur.items, pid) - CpuTime(prev.items, pid) }

  /** The percentage stands for exactly the CPU time used. */
  predicate IsRight(share: real, cur: Sample, prev: Sample, cpuCount: nat, pid: u32)
    requires prev.wallNs < cur.wallNs
  {
    Charge(share, Capacity(cur.wallNs - prev.wallNs, cpuCount)) == 100.0 * Used(cur, prev, pid) as real
  }

  /** The process used nothing, or it was listed before and what it used is not negative and fits the
      interval. */
  predicate Measurable(cur: Sample, prev: Sample, cpuCount: nat, pid: u32)
    requires prev.wallNs < cur.wallNs
  {
    var used := Used(cur, prev, pid);
    used == 0 || (Find(prev.items, pid).Some? && 0 <= used <= Capacity(cur.wallNs - prev.wallNs, cpuCount))
  }

  /** The percentage that the join gives a listed process is right if and only if the process can be
      measured. One that is new gets zero, whatever it has used. */
  lemma ShareIsRightIff(cur: Sample, prev: Sample, cpuCount: nat, pid: u32)
    requires prev.wallNs < cur.wallNs && TrackedIn(cur.items, pid) && AllZero(cur.items)
    requires Find(prev.items, pid).Some? ==> TrackedIn(prev.items, pid)
    ensures var r := ApplyCpu(cur, prev, cpuCount);
            && Find(r, pid).Some?
            && (IsRight(r[Find(r, pid).value].cpuPercent, cur, prev, cpuCount, pid)
                <==> Measurable(cur, prev, cpuCount, pid))
            && (Find(prev.items, pid).None? ==> r[Find(r, pid).value].cpuPercent == 0.0)
  {
    var r, capacity := ApplyCpu(cur, prev, cpuCount), Capacity(cur.wallNs - prev.wallNs, cpuCount);
    ApplyCpuSameButPercent(cur, prev, cpuCount);
    FindIgnoresPercent(r, cur.items, pid);
    if Find(prev.items, pid).Some? && Used(cur, prev, pid) >= 0 {
      PercentAccounts(Used(cur, prev, pid), capacity);
    }
  }

  /** A process that has used 10 ns when it is first listed, and is shown with zero percent. */
  lemma NewProcessIsNotRight(cpuCount: nat)
    ensures var cur := Sample([ProcessInfo(5, "x", 0, 1, 10, 0.0, false, true)], 100);
            var prev := Sample([], 0);
            ApplyCpu(cur, prev, cpuCount) == cur.items && !IsRight(0.0, cur, prev, cpuCount, 5)
  {
    var cur, prev := Sample([ProcessInfo(5, "x", 0, 1, 10, 0.0, false, true)], 100), Sample([], 0);
    assert cur.items[0].pid == 5;
    assert Find(cur.items, 5) == Some(0);
    assert Used(cur, prev, 5) == 10;
  }

  // ---------- Order of listing ----------

  /** With distinct pids, looking a pid up gives the same record in every arrangement. */
  lemma FindIgnoresArrangement(s: seq<ProcessInfo>, t: seq<ProcessInfo>, pid: u32)
    requires DistinctPids(s) && multiset(s) == multiset(t)
    ensures Find(s, pid).Some? <==> Find(t, pid).Some?
    ensures Find(s, pid).Some? ==> s[Find(s, pid).value] == t[Find(t, pid).value]
  {
    DistinctUnderPermutation(s, t);
    if Find(s, pid).Some? {
      assert s[Find(s, pid).value] in multiset(t);
    }
    if Find(t, pid).Some? {
      assert t[Find(t, pid).value] in multiset(s);
    }
  }

  lemma MapCongruent<T, U>(f: T -> U, g: T -> U, s: seq<T>)
    requires forall i :: 0 <= i < |s| ==> f(s[i]) == g(s[i])
    ensures Map(f, s) == Map(g, s)
  {
  }

  lemma JoinIgnoresArrangement(prev: seq<ProcessInfo>, prev': seq<ProcessInfo>, capacity: nat, s: seq<ProcessInfo>)
    requires capacity > 0
    requires DistinctPids(prev) && multiset(prev) == multiset(prev')
    ensures Map(Join(prev, capacity), s) == Map(Join(prev', capacity), s)
  {
    forall i | 0 <= i < |s|
      ensures JoinItem(prev, capacity, s[i]) == JoinItem(prev', capacity, s[i])
    {
      FindIgnoresArrangement(prev, prev', s[i].pid);
    }
    MapCongruent(Join(prev, capacity), Join(prev', capacity), s);
  }

  /** Listing the processes of either sample in another order only rearranges the result. */
  lemma ApplyCpuPermutes(cur: Sample, cur': Sample, prev: Sample, prev': Sample, cpuCount: nat)
    requires multiset(cur.items) == multiset(cur'.items) && cur.wallNs == cur'.wallNs
    requires multiset(prev.items) == multiset(prev'.items) && prev.wallNs == prev'.wallNs
    requires DistinctPids(prev.items)
    ensures multiset(ApplyCpu(cur, prev, cpuCount)) == multiset(ApplyCpu(cur', prev', cpuCount))
  {
    SameLength(prev.items, prev'.items);
    if prev.items != [] && cur.wallNs > prev.wallNs {
      var capacity := Capacity(cur.wallNs - prev.wallNs, cpuCount);
      JoinIgnoresArrangement(prev.items, prev'.items, capacity, cur'.items);
      MapPermutes(Join(prev.items, capacity), cur.items, cur'.items);
    }
  }

  // ---------- A whole run ----------

  /** The current list of round k after the join. The monitor joins against the list it measured
      in the round before, percentages included, starting from an empty one. */
  function Measured(samples: seq<Sample>, cpuCount: nat, k: nat): Sample
    requires k < |samples|
  {
    var previous := if k == 0 then Sample([], 0) else Measured(samples, cpuCount, k - 1);
    samples[k].(items := ApplyCpu(samples[k], previous, cpuCount))
  }

  lemma {:induction false} FindIgnoresPercent(s: seq<ProcessInfo>, t: seq<ProcessInfo>, pid: u32)
    requires SameButPercent(s, t)
    ensures Find(s, pid) == Find(t, pid)
  {
    forall i | 0 <= i < |s| ensures s[i].pid == t[i].pid {
      assert s[i].(cpuPercent := 0.0).pid == t[i].(cpuPercent := 0.0).pid;
    }
  }

  lemma JoinIgnoresOldPercent(cur: Sample, prev: Sample, prev': Sample, cpuCount: nat)
    requires SameButPercent(prev.items, prev'.items) && prev.wallNs == prev'.wallNs
    ensures ApplyCpu(cur, prev, cpuCount) == ApplyCpu(cur, prev', cpuCount)
  {
    if prev.items != [] && cur.wallNs > prev.wallNs {
      var capacity := Capacity(cur.wallNs - prev.wallNs, cpuCount);
      forall i | 0 <= i < |cur.items|
        ensures JoinItem(prev.items, capacity, cur.items[i]) == JoinItem(prev'.items, capacity, cur.items[i])
      {
        FindIgnoresPercent(prev.items, prev'.items, cur.items[i].pid);
      }
      MapCongruent(Join(prev.items, capacity), Join(prev'.items, capacity), cur.items);
    }
  }

  lemma ApplyCpuSameButPercent(cur: Sample, prev: Sample, cpuCount: nat)
    ensures SameButPercent(ApplyCpu(cur, prev, cpuCount), cur.items)
  {
  }

  /** Handing the measured list over instead of the raw one makes no difference to the next round:
      round k depends on snapshots k - 1 and k alone. */
  lemma MeasuredFromRaw(samples: seq<Sample>, cpuCount: nat, k: nat)
    requires k < |samples|
    ensures Measured(samples, cpuCount, k).items
         == if k == 0 then samples[0].items else ApplyCpu(samples[k], samples[k - 1], cpuCount)
    ensures SameButPercent(Measured(samples, cpuCount, k).items, samples[k].items)
  {
    if k > 0 {
      var previous := Measured(samples, cpuCount, k - 1);
      var before := if k == 1 then Sample([], 0) else Measured(samples, cpuCount, k - 2);
      ApplyCpuSameButPercent(samples[k - 1], before, cpuCount);
      JoinIgnoresOldPercent(samples[k], previous, samples[k - 1], cpuCount);
      ApplyCpuSameButPercent(samples[k], samples[k - 1], cpuCount);
    }
  }

  /** What a round measures does not depend on later rounds. */
  lemma {:induction false} MeasuredOfPrefix(samples: seq<Sample>, n: nat, cpuCount: nat, k: nat)
    requires k < n <= |samples|
    ensures Measured(samples[..n], cpuCount, k) == Measured(samples, cpuCount, k)
  {
    if k > 0 {
      MeasuredOfPrefix(samples, n, cpuCount, k - 1);
    }
  }

  lemma MeasuredFits(samples: seq<Sample>, cpuCount: nat, k: nat)
    requires 0 < k < |samples| && AllFit(samples[k], samples[k - 1], cpuCount)
    requires AllZero(samples[k].items)
    ensures TotalShare(Measured(samples, cpuCount, k).items) <= 100.0
  {
    MeasuredFromRaw(samples, cpuCount, k);
    TotalFits(samples[k], samples[k - 1], cpuCount);
  }

  lemma MeasuredShareIsRightIff(samples: seq<Sample>, cpuCount: nat, k: nat, pid: u32)
    requires 0 < k < |samples| && samples[k - 1].wallNs < samples[k].wallNs
    requires AllZero(samples[k].items) && AllKnown(samples[k].items) && AllKnown(samples[k - 1].items)
    requires Find(Measured(samples, cpuCount, k).items, pid).Some?
    ensures var items := Measured(samples, cpuCount, k).items;
            var share := items[Find(items, pid).value].cpuPercent;
            && (IsRight(share, samples[k], samples[k - 1], cpuCount, pid)
                <==> Measurable(samples[k], samples[k - 1], cpuCount, pid))
            && (Find(samples[k - 1].items, pid).None? ==> share == 0.0)
  {
    MeasuredFromRaw(samples, cpuCount, k);
    FindIgnoresPercent(Measured(samples, cpuCount, k).items, samples[k].items, pid);
    ShareIsRightIff(samples[k], samples[k - 1], cpuCount, pid);
  }

  lemma DistinctButPercent(s: seq<ProcessInfo>, t: seq<ProcessInfo>)
    requires SameButPercent(s, t) && DistinctPids(t)
    ensures DistinctPids(s)
  {
    forall i | 0 <= i < |s| ensures s[i].pid == t[i].pid {
      assert s[i].(cpuPercent := 0.0).pid == t[i].(cpuPercent := 0.0).pid;
    }
  }

  /** The same processes, no pid twice, taken at the same time but listed in another order. */
  ghost predicate Rearranged(s: Sample, s': Sample) {
    multiset(s.items) == multiset(s'.items) && s.wallNs == s'.wallNs && DistinctPids(s.items)
  }

  /** Rearranging the snapshots of a run rearranges what is measured, and changes no percentage. */
  lemma MeasuredRearranged(samples: seq<Sample>, samples': seq<Sample>, cpuCount: nat, k: nat)
    requires |samples| == |samples'| && k < |samples|
    requires forall j :: 0 <= j < |samples| ==> Rearranged(samples[j], samples'[j])
    ensures Rearranged(Measured(samples, cpuCount, k), Measured(samples', cpuCount, k))
  {
    MeasuredFromRaw(samples, cpuCount, k);
    MeasuredFromRaw(samples', cpuCount, k);
    assert Rearranged(samples[k], samples'[k]);
    DistinctButPercent(Measured(samples, cpuCount, k).items, samples[k].items);
    if k > 0 {
      assert Rearranged(samples[k - 1], samples'[k - 1]);
      ApplyCpuPermutes(samples[k], samples'[k], samples[k - 1], samples'[k - 1], cpuCount);
    }
  }

  /** CPU time of a process in a snapshot; zero if it is not listed. */
  function CpuTime(s: seq<ProcessInfo>, pid: u32): u64 {
    if Find(s, pid).Some? then s[Find(s, pid).value].cpuTimeNs else 0
  }

  /** What a round charges the process: the percentage shown, over the interval since `prev`. */
  function RoundCharge(shown: Sample, prev: Sample, cpuCount: nat, pid: u32): real {
    if Find(shown.items, pid).None? || shown.wallNs <= prev.wallNs then 0.0
    else Charge(shown.items[Find(shown.items, pid).value].cpuPercent, Capacity(shown.wallNs - prev.wallNs, cpuCount))
  }

  /** The process used no more CPU time in the interval than the whole machine has. */
  predicate RoundFits(cur: Sample, prev: Sample, cpuCount: nat, pid: u32) {
    && cur.wallNs > prev.wallNs
    && CpuTime(cur.items, pid) - CpuTime(prev.items, pid) <= Capacity(cur.wallNs - prev.wallNs, cpuCount)
  }

  ghost predicate TrackedIn(s: seq<ProcessInfo>, pid: u32) {
    Find(s, pid).Some? && s[Find(s, pid).value].cpuKnown
  }

  /** The process is listed with a known CPU time that does not fall, while the clock advances. */
  ghost predicate TrackedRound(cur: Sample, prev: Sample, pid: u32) {
    && TrackedIn(cur.items, pid) && TrackedIn(prev.items, pid)
    && prev.wallNs < cur.wallNs
    && CpuTime(prev.items, pid) <= CpuTime(cur.items, pid)
  }

  ghost predicate Tracked(samples: seq<Sample>, pid: u32) {
    forall k :: 0 < k < |samples| ==> TrackedRound(samples[k], samples[k - 1], pid)
  }

  lemma RoundAccounts(cur: Sample, prev: Sample, cpuCount: nat, pid: u32)
    requires TrackedRound(cur, prev, pid)
    ensures var shown := cur.(items := ApplyCpu(cur, prev, cpuCount));
            Accounts(RoundCharge(shown, prev, cpuCount, pid),
                     CpuTime(cur.items, pid) - CpuTime(prev.items, pid),
                     RoundFits(cur, prev, cpuCount, pid))
  {
    ApplyCpuSameButPercent(cur, prev, cpuCount);
    FindIgnoresPercent(ApplyCpu(cur, prev, cpuCount), cur.items, pid);
    PercentAccounts(CpuTime(cur.items, pid) - CpuTime(prev.items, pid),
                    Capacity(cur.wallNs - prev.wallNs, cpuCount));
  }

  /** What the table charges a process in rounds 1, 2, ... of a run. */
  function Charges(samples: seq<Sample>, cpuCount: nat, pid: u32): seq<real>
    requires samples != []
  {
    seq(|samples| - 1, k requires 0 <= k < |samples| - 1 =>
      RoundCharge(Measured(samples, cpuCount, k + 1), samples[k], cpuCount, pid))
  }

  lemma ChargeOfRound(samples: seq<Sample>, cpuCount: nat, pid: u32, k: nat)
    requires k + 1 < |samples| && Tracked(samples, pid)
    ensures CpuTime(samples[k].items, pid) <= CpuTime(samples[k + 1].items, pid)
    ensures Accounts(Charges(samples, cpuCount, pid)[k],
                     CpuTime(samples[k + 1].items, pid) - CpuTime(samples[k].items, pid),
                     RoundFits(samples[k + 1], samples[k], cpuCount, pid))
  {
    assert TrackedRound(samples[k + 1], samples[k + 1 - 1], pid);
    MeasuredFromRaw(samples, cpuCount, k + 1);
    RoundAccounts(samples[k + 1], samples[k], cpuCount, pid);
  }

  function Times(samples: seq<Sample>, pid: u32): seq<nat> {
    seq(|samples|, k requires 0 <= k < |samples| => CpuTime(samples[k].items, pid))
  }

  function Fits(samples: seq<Sample>, cpuCount: nat, pid: u32): seq<bool>
    requires samples != []
  {
    seq(|samples| - 1, k requires 0 <= k < |samples| - 1 => RoundFits(samples[k + 1], samples[k], cpuCount, pid))
  }

  /** How much a sequence grows at each step; nothing where it falls. */
  function Increments(times: seq<nat>): seq<nat>
    requires times != []
  {
    seq(|times| - 1, k requires 0 <= k < |times| - 1 =>
      if times[k] <= times[k + 1] then times[k + 1] - times[k] else 0)
  }

  lemma {:induction false} IncrementsTelescope(times: seq<nat>)
    requires times != [] && forall k :: 0 <= k < |times| - 1 ==> times[k] <= times[k + 1]
    ensures times[0] <= times[|times| - 1]
    ensures SumNat(Increments(times)) == times[|times| - 1] - times[0]
  {
    if |times| > 1 {
      var n := |times| - 1;
      IncrementsTelescope(times[..n]);
      assert Increments(times)[..n - 1] == Increments(times[..n]);
    }
  }

  lemma ChargesAccount(samples: seq<Sample>, cpuCount: nat, pid: u32)
    requires samples != [] && Tracked(samples, pid)
    ensures var times := Times(samples, pid);
            forall k :: 0 <= k < |times| - 1 ==>
              && times[k] <= times[k + 1]
              && Accounts(Charges(samples, cpuCount, pid)[k], Increments(times)[k], Fits(samples, cpuCount, pid)[k])
  {
    var times := Times(samples, pid);
    forall k | 0 <= k < |times| - 1
      ensures times[k] <= times[k + 1]
      ensures Accounts(Charges(samples, cpuCount, pid)[k], Increments(times)[k], Fits(samples, cpuCount, pid)[k])
    {
      ChargeOfRound(samples, cpuCount, pid, k);
    }
  }

  /** Over any run, what the table charges a process for never exceeds the CPU time it used between
      the first snapshot and the last, and equals it exactly when no round was capped: the hand-over
      from `current` to `previous` neither loses an interval nor counts one twice. */
  lemma RunTelescopes(samples: seq<Sample>, cpuCount: nat, pid: u32)
    requires samples != [] && Tracked(samples, pid)
    ensures var first, last := CpuTime(samples[0].items, pid), CpuTime(samples[|samples| - 1].items, pid);
            && first <= last
            && Accounts(Sum(Charges(samples, cpuCount, pid)), last - first, AllTrue(Fits(samples, cpuCount, pid)))
  {
    ChargesAccount(samples, cpuCount, pid);
    ChargesAddUp(Charges(samples, cpuCount, pid), Increments(Times(samples, pid)), Fits(samples, cpuCount, pid));
    IncrementsTelescope(Times(samples, pid));
  }
}
