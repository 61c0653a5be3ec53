/** The growable process list of c/src/proc_common.c and the heap it lives on. */
module ProcessLists {
  import opened Basics
  import opened ProcessModel
  import opened Ordering

  type Buffer = array<ProcessInfo>

  /** The C heap. It records which blocks are live and which have been released; a block can be
      released only while it is live, so none is released twice. Releasing a block loses its contents:
      no contract says what it holds afterwards, so nothing proved below can rest on reading it. */
  class Heap {
    ghost var live: set<Buffer>
    ghost var released: set<Buffer>
    ghost var refusals: nat  // requests that could not be met

    constructor ()
      ensures Valid() && live == {} && released == {} && refusals == 0
    {
      live, released, refusals := {}, {}, 0;
    }

    ghost predicate Valid()
      reads this
    {
      live !! released
    }

    /** realloc: it may refuse, leaving the old block alone; otherwise the contents move to a new
        block and the old one is gone. */
    method Realloc(block: array?<ProcessInfo>, size: nat) returns (grown: array?<ProcessInfo>)
      requires Valid()
      requires block != null ==> block in live && block.Length <= size
      modifies this, Blocks(block)
      ensures Valid()
      ensures grown == null ==> live == old(live) && released == old(released) && refusals == old(refusals) + 1
      ensures grown == null && block != null ==> block[..] == old(block[..])
      ensures grown != null ==>
                && fresh(grown) && grown.Length == size
                && live == old(live) - Blocks(block) + {grown}
                && released == old(released) + Blocks(block)
                && refusals == old(refusals)
      ensures grown != null && block != null ==> grown[..block.Length] == old(block[..])
    {
      if * {
        refusals := refusals + 1;
        return null;
      }
      grown := new ProcessInfo[size](i reads if block == null then {} else {block} =>
        if block != null && 0 <= i < block.Length then block[i] else Blank(0));
      live := live - Blocks(block) + {grown};
      released := released + Blocks(block);
      Scribble(block);
    }

    /** free: nothing for NULL, and otherwise only a live block. */
    method Free(block: array?<ProcessInfo>)
      requires Valid()
      requires block != null ==> block in live
      modifies this, Blocks(block)
      ensures Valid()
      ensures live == old(live) - Blocks(block) && released == old(released) + Blocks(block)
      ensures refusals == old(refusals)
    {
      live := live - Blocks(block);
      released := released + Blocks(block);
      Scribble(block);
    }

    /** What becomes of a released block: it may hold anything. */
    method Scribble(block: array?<ProcessInfo>)
      modifies Blocks(block)
    {
      if block != null {
        var junk: seq<ProcessInfo> := *;
        forall i | 0 <= i < block.Length && i < |junk| {
          block[i] := junk[i];
        }
      }
    }
  }

  /** The block behind a possibly null pointer. */
  ghost function Blocks(block: array?<ProcessInfo>): set<Buffer> {
    if block == null then {} else {block}
  }

  const INITIAL_CAPACITY: nat := 128

  /** 128 * 2^k, the capacity after k doublings. */
  function CapacityAfter(k: nat): (c: nat)
    ensures c >= INITIAL_CAPACITY
  {
    if k == 0 then INITIAL_CAPACITY else CapacityAfter(k - 1) * 2
  }

  class ProcessList {
    var items: array?<ProcessInfo>
    var count: nat
    var capacity: nat
    var wallNs: u64
    ghost var doublings: nat  // growths of this buffer after the first
    ghost var moved: nat      // elements copied by all growths of this buffer
    ghost var peak: nat       // most elements this buffer has held

    /** memset to zero. */
    constructor ()
      ensures Valid() && items == null && Contents() == [] && wallNs == 0 && peak == 0
    {
      items, count, capacity, wallNs := null, 0, 0, 0;
      doublings, moved, peak := 0, 0, 0;
    }

    /** The capacity is 0 or 128 * 2^k, and all growths together have copied fewer elements than it has
        room for. */
    ghost predicate Allocated()
      reads this
    {
      && capacity == (if items == null then 0 else items.Length)
      && (items == null <==> capacity == 0)
      && (capacity == 0 || capacity == CapacityAfter(doublings))
      && count <= peak && count <= capacity
      && moved == (if capacity == 0 then 0 else capacity - INITIAL_CAPACITY)
    }

    /** Moreover the capacity is never more than twice what was needed. */
    ghost predicate Valid()
      reads this
    {
      Allocated() && (capacity > INITIAL_CAPACITY ==> capacity < 2 * peak)
    }

    /** Amortized cost of growing by doubling: a buffer that has held n records at most has room for
        at most max(128, 2n), and has copied fewer than 2n records over all its growths. */
    lemma GrowthIsLinear()
      requires Valid()
      ensures capacity <= Max(128, 2 * peak)
      ensures peak > 0 ==> moved < 2 * peak
    {
    }

    ghost function Contents(): seq<ProcessInfo>
      reads this, items
    {
      if items == null || count > items.Length then [] else items[..count]
    }

    ghost function AsSample(): Sample
      reads this, items
    {
      Sample(Contents(), wallNs)
    }

    /** The buffer of the list, if it has one, is live. */
    ghost predicate OwnedIn(heap: Heap)
      reads this, heap
    {
      Blocks(items) <= heap.live
    }

    /** The list is well formed and its buffer is live in a well-formed heap. */
    ghost predicate Ready(heap: Heap)
      reads this, heap
    {
      Valid() && heap.Valid() && OwnedIn(heap)
    }

    /** Since the old state the heap has changed by this list's buffer alone, and that only for a new
        one. */
    twostate predicate OwnsItsChanges(heap: Heap)
      reads this, heap
    {
      && heap.live == old(heap.live) - old(Blocks(items)) + Blocks(items)
      && (items == old(items) || fresh(items))
    }

    /** proc_list_push. */
    method Push(heap: Heap, info: ProcessInfo) returns (ok: bool)
      requires Ready(heap)
      modifies this, heap, Blocks(items)
      ensures Ready(heap)
      ensures Contents() == if ok then old(Contents()) + [info] else old(Contents())
      ensures wallNs == old(wallNs)
      ensures peak == if ok then Max(old(peak), count) else old(peak)
      ensures OwnsItsChanges(heap)
      ensures ok ==> heap.refusals == old(heap.refusals)
      ensures !ok ==>
                && heap.refusals > old(heap.refusals)
                && items == old(items) && capacity == old(capacity) && count == old(count)
    {
      if count == capacity {
        ok := Grow(heap);
        if !ok {
          return;
        }
      }
      items[count] := info;
      count := count + 1;
      peak := Max(peak, count);
      ok := true;
    }

    /** The growth in proc_list_push, when the buffer is full. */
    method Grow(heap: Heap) returns (ok: bool)
      requires Ready(heap) && count == capacity
      modifies this, heap, Blocks(items)
      ensures Allocated() && heap.Valid() && OwnedIn(heap) && Contents() == old(Contents())
      ensures count == old(count) && wallNs == old(wallNs) && peak == old(peak)
      ensures OwnsItsChanges(heap)
      ensures ok ==> count < capacity && heap.refusals == old(heap.refusals)
      ensures ok ==> capacity == if old(capacity) == 0 then 128 else 2 * old(capacity)
      ensures !ok ==> heap.refusals > old(heap.refusals) && items == old(items) && capacity == old(capacity)
    {
      var next := if capacity == 0 then INITIAL_CAPACITY else capacity * 2;
      var grown := heap.Realloc(items, next);
      if grown == null {
        return false;
      }
      doublings := if capacity == 0 then 0 else doublings + 1;
      moved := moved + count;
      items := grown;
      capacity := next;
      ok := true;
    }

    /** proc_list_free. */
    method Free(heap: Heap)
      requires Ready(heap)
      modifies this, heap, Blocks(items)
      ensures Valid() && heap.Valid() && items == null && Contents() == [] && wallNs == 0
      ensures heap.live == old(heap.live) - old(Blocks(items))
      ensures heap.refusals == old(heap.refusals)
    {
      heap.Free(items);
      items := null;
      count := 0;
      capacity := 0;
      wallNs := 0;
      doublings, moved, peak := 0, 0, 0;
    }

    /** The structure assignment that hands a list over, and the memset that empties its source. */
    method TakeOver(src: ProcessList)
      requires src != this && src.Valid() && items == null
      modifies this, src
      ensures Valid() && src.Valid() && src.items == null
      ensures items == old(src.items) && count == old(src.count) && wallNs == old(src.wallNs)
      ensures AsSample() == old(src.AsSample())
    {
      items, count, capacity, wallNs := src.items, src.count, src.capacity, src.wallNs;
      doublings, moved, peak := src.doublings, src.moved, src.peak;
      src.items, src.count, src.capacity, src.wallNs := null, 0, 0, 0;
      src.doublings, src.moved, src.peak := 0, 0, 0;
    }

    /** proc_list_copy into this list, whose buffer is reused. */
    method CopyFrom(src: ProcessList, heap: Heap) returns (ok: bool)
      requires Ready(heap)
      requires src != this && src.Valid() && src.OwnedIn(heap) && (src.items != null ==> src.items != items)
      modifies this, heap, Blocks(items)
      ensures Ready(heap)
      ensures ok ==> Contents() == src.Contents() && peak == Max(old(peak), src.count)
      ensures wallNs == src.wallNs
      ensures OwnsItsChanges(heap)
      ensures ok ==> heap.refusals == old(heap.refusals)
      ensures !ok ==> heap.refusals > old(heap.refusals)
    {
      count := 0;
      wallNs := src.wallNs;
      if src.items == null {
        return true;
      }
      ok := PushAll(src.items, src.count, heap);
    }

    /** The loop of proc_list_copy: pushes the first n records of another list's buffer. */
    method PushAll(block: Buffer, n: nat, heap: Heap) returns (ok: bool)
      requires Ready(heap) && count == 0
      requires n <= block.Length && block != items && block in heap.live
      modifies this, heap, Blocks(items)
      ensures Ready(heap)
      ensures ok ==> Contents() == block[..n] && peak == Max(old(peak), n)
      ensures wallNs == old(wallNs)
      ensures OwnsItsChanges(heap)
      ensures ok ==> heap.refusals == old(heap.refusals)
      ensures !ok ==> heap.refusals > old(heap.refusals)
    {
      var i := 0;
      while i < n
        invariant i <= n && Ready(heap) && OwnsItsChanges(heap) && block in heap.live
        invariant Contents() == block[..i] && peak == Max(old(peak), i)
        invariant wallNs == old(wallNs)
        invariant heap.refusals == old(heap.refusals)
      {
        ok := Push(heap, block[i]);
        if !ok {
          return;
        }
        i := i + 1;
      }
      ok := true;
    }

    /** proc_list_filter, in place. */
    method FilterByName(needle: string, ghost heap: Heap)
      requires Valid() && OwnedIn(heap)
      modifies this`count, Blocks(items)
      ensures Valid() && Contents() == Filter(old(Contents()), needle)
    {
      if needle == "" || count == 0 {
        return;
      }
      var kept := FilterBuffer(items, count, needle, Keep(needle), heap);
      count := kept;
    }

    /** proc_list_sort. */
    method SortBy(key: SortKey, ghost heap: Heap)
      requires Valid() && OwnedIn(heap)
      modifies Blocks(items)
      ensures SortedPermutation(key, old(Contents()), Contents())
    {
      if count > 1 {
        Qsort(items, count, key, heap);
      }
    }

    /** proc_list_find: the index of the entry instead of a pointer to it. */
    method FindPid(pid: u32, ghost heap: Heap) returns (r: Option<nat>)
      requires Valid() && OwnedIn(heap)
      ensures r == Find(Contents(), pid)
    {
      var i := 0;
      while i < count
        invariant 0 <= i <= count && Find(Contents(), pid) == FindFrom(Contents(), pid, i)
      {
        if items[i].pid == pid {
          return Some(i);
        }
        i := i + 1;
      }
      r := None;
    }

    /** proc_apply_cpu with this as the current list. */
    method JoinCpu(previous: ProcessList?, cpuCount: nat, ghost heap: Heap)
      requires Valid() && OwnedIn(heap)
      requires previous != null ==>
                 && previous != this && previous.Valid() && previous.OwnedIn(heap)
                 && (previous.items != null ==> previous.items != items)
      modifies Blocks(items)
      ensures Contents() == if previous == null then old(Contents())
                            else ApplyCpu(old(AsSample()), old(previous.AsSample()), cpuCount)
    {
      if previous == null || previous.count == 0 || wallNs <= previous.wallNs {
        return;
      }
      var cores := if cpuCount == 0 then 1 else cpuCount;
      var wallDelta := wallNs - previous.wallNs;
      ghost var cur, prev := AsSample(), previous.AsSample();
      if count > 0 {
        JoinBuffer(items, count, previous, wallDelta, cores, Capacity(wallDelta, cpuCount), heap);
      }
      JoinedSample(cur, prev, cpuCount, Contents());
    }
  }

  lemma JoinedSample(cur: Sample, prev: Sample, cpuCount: nat, after: seq<ProcessInfo>)
    requires prev.items != [] && cur.wallNs > prev.wallNs && |after| == |cur.items|
    requires forall j :: 0 <= j < |after| ==>
               after[j] == JoinItem(prev.items, Capacity(cur.wallNs - prev.wallNs, cpuCount), cur.items[j])
    ensures after == ApplyCpu(cur, prev, cpuCount)
  {
  }

  /** The function f gives what the filter leaves of each record. The loop below needs no more than
      that. */
  ghost predicate Keeps(f: ProcessInfo -> seq<ProcessInfo>, needle: string) {
    forall x {:trigger Keep(needle)(x)} :: f(x) == Keep(needle)(x)
  }

  method IsKept(info: ProcessInfo, needle: string, ghost f: ProcessInfo -> seq<ProcessInfo>) returns (kept: bool)
    requires Keeps(f, needle)
    ensures f(info) == if kept then [info] else []
  {
    assert f(info) == Keep(needle)(info);
    kept := NameContains(info.name, needle);
  }

  /** The loop of proc_list_filter: kept records move to the front, in place. */
  method FilterBuffer(a: Buffer, count: nat, needle: string, ghost f: ProcessInfo -> seq<ProcessInfo>, ghost heap: Heap)
    returns (kept: nat)
    requires count <= a.Length && a in heap.live && Keeps(f, needle)
    modifies a
    ensures kept <= count && a[..kept] == FlatMap(f, old(a[..count]))
  {
    ghost var before, out := a[..count], [];
    kept := 0;
    var i := 0;
    while i < count
      invariant kept == |out| <= i <= count && out == FlatMapTo(f, before, i)
      invariant forall j :: 0 <= j < kept ==> a[j] == out[j]
      invariant forall j :: i <= j < count ==> a[j] == before[j]
    {
      var matches := IsKept(a[i], needle, f);
      if matches {
        out := out + [a[i]];
        a[kept] := a[i];
        kept := kept + 1;
      }
      i := i + 1;
    }
  }

  /** The loop of proc_apply_cpu. */
  method JoinBuffer(a: Buffer, count: nat, previous: ProcessList, wallDelta: nat, cores: nat,
                    ghost capacity: nat, ghost heap: Heap)
    requires count <= a.Length && wallDelta > 0 && cores > 0 && capacity == wallDelta * cores && capacity > 0
    requires previous.Valid() && previous.OwnedIn(heap) && previous.items != a && a in heap.live
    modifies a
    ensures forall j :: 0 <= j < count ==> a[j] == JoinItem(previous.Contents(), capacity, old(a[j]))
    ensures forall j :: count <= j < a.Length ==> a[j] == old(a[j])
  {
    ghost var prev := previous.Contents();
    var i := 0;
    while i < count
      invariant i <= count
      invariant previous.Contents() == prev
      invariant forall j :: 0 <= j < i ==> a[j] == JoinItem(prev, capacity, old(a[j]))
      invariant forall j :: i <= j < a.Length ==> a[j] == old(a[j])
    {
      var item := a[i];
      var found := previous.FindPid(item.pid, heap);
      if found.Some? {
        var earlier := previous.items[found.value];
        assert earlier == prev[found.value];
        if earlier.cpuKnown && item.cpuKnown && item.cpuTimeNs >= earlier.cpuTimeNs {
          item := ShareOf(item, earlier, wallDelta, cores, capacity);
          a[i] := item;
        }
      }
      i := i + 1;
    }
  }

  /** The arithmetic of proc_apply_cpu on one matched pair. */
  method ShareOf(item: ProcessInfo, earlier: ProcessInfo, wallDelta: nat, cores: nat, ghost capacity: nat)
    returns (r: ProcessInfo)
    requires item.cpuTimeNs >= earlier.cpuTimeNs
    requires wallDelta > 0 && cores > 0 && capacity == wallDelta * cores && capacity > 0
    ensures r == item.(cpuPercent := Percent(item.cpuTimeNs - earlier.cpuTimeNs, capacity))
  {
    var busy := (item.cpuTimeNs - earlier.cpuTimeNs) as real;
    assert wallDelta as real * cores as real == capacity as real;
    r := item.(cpuPercent := busy * 100.0 / (wallDelta as real * cores as real));
    if r.cpuPercent > 100.0 {
      r := r.(cpuPercent := 100.0);
    }
  }

  /** contains_fold. */
  method NameContains(haystack: string, needle: string) returns (found: bool)
    ensures found == ContainsFold(haystack, needle)
  {
    var n, h := |needle|, |haystack|;
    if n == 0 {
      assert MatchesAt(haystack, needle, 0);
      return true;
    }
    if n > h {
      return false;
    }
    var i := 0;
    while i + n <= h
      invariant 0 <= i <= h - n + 1
      invariant forall k :: 0 <= k < i ==> !MatchesAt(haystack, needle, k)
    {
      var j := 0;
      while j < n
        invariant 0 <= j <= n
        invariant forall k :: 0 <= k < j ==> ToLower(haystack[i + k]) == ToLower(needle[k])
      {
        if ToLower(haystack[i + j]) != ToLower(needle[j]) {
          break;
        }
        j := j + 1;
      }
      if j == n {
        assert MatchesAt(haystack, needle, i);
        return true;
      }
      i := i + 1;
    }
    found := false;
  }

  /** compare_name. */
  method CompareName(a: ProcessInfo, b: ProcessInfo) returns (c: int)
    ensures c == Compare(ByName, a, b)
  {
    var i := 0;
    while i < |a.name| && i < |b.name|
      invariant i <= |a.name| && i <= |b.name|
      invariant CompareNamesFrom(a.name, b.name, 0) == CompareNamesFrom(a.name, b.name, i)
    {
      var ca, cb := ToLower(a.name[i]), ToLower(b.name[i]);
      if ca != cb {
        return if ca < cb then -1 else 1;
      }
      i := i + 1;
    }
    if i == |a.name| && i == |b.name| {
      return if a.pid < b.pid then -1 else if a.pid > b.pid then 1 else 0;
    }
    return if i == |a.name| then -1 else 1;
  }

  /** qsort, used by its contract alone: any sorted arrangement of the same records. The body is one
      way to meet it. */
  method Qsort(a: Buffer, n: nat, key: SortKey, ghost heap: Heap)
    requires n <= a.Length && a in heap.live
    modifies a
    ensures SortedPermutation(key, old(a[..n]), a[..n])
    ensures a[n..] == old(a[n..])
  {
    var sorted := Sort(key, a[..n]);
    SortSorts(key, a[..n]);
    SameLength(sorted, a[..n]);
    forall i | 0 <= i < n {
      a[i] := sorted[i];
    }
    assert a[..n] == sorted;
  }
}
