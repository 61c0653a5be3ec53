/** Vocabulary shared by every module: optional values, fixed-width integers, sequence
    transformers, and the character classes of the "C" locale.
    Throughout the project a `char` stands for one byte of a C or C++ string, and a
    `string` for the bytes before the terminating NUL. */
module Basics {

  datatype Option<+T> = None | Some(value: T)

  const TWO_32: int := 0x1_0000_0000
  const TWO_63: int := 0x8000_0000_0000_0000
  const TWO_64: int := 0x1_0000_0000_0000_0000

  type u32 = x: int | 0 <= x < TWO_32
  type u64 = x: int | 0 <= x < TWO_64

  function Min(a: nat, b: nat): nat { if a < b then a else b }

  function Max(a: nat, b: nat): nat { if a < b then b else a }

  // ---------- Characters ----------

  /** isspace in the "C" locale: blank, and tab to carriage return. */
  predicate IsSpace(c: char) { c == ' ' || '\t' <= c <= '\r' }

  predicate IsDigit(c: char) { '0' <= c <= '9' }

  /** tolower in the "C" locale; no program of the four selects another one. */
  function ToLower(c: char): char {
    if 'A' <= c <= 'Z' then (c as int + 32) as char else c
  }

  // ---------- Sequences ----------

  function Map<T, U>(f: T -> U, s: seq<T>): seq<U> {
    seq(|s|, i requires 0 <= i < |s| => f(s[i]))
  }

  /** The concatenation of the images of the first n elements, in order. */
  function FlatMapTo<T, U>(f: T -> seq<U>, s: seq<T>, n: nat): seq<U>
    requires n <= |s|
  {
    if n == 0 then [] else FlatMapTo(f, s, n - 1) + f(s[n - 1])
  }

  function FlatMap<T, U>(f: T -> seq<U>, s: seq<T>): seq<U> { FlatMapTo(f, s, |s|) }

  lemma {:induction false} FlatMapOfPrefix<T, U>(f: T -> seq<U>, s: seq<T>, t: seq<T>, n: nat)
    requires n <= |s| && n <= |t| && s[..n] == t[..n]
    ensures FlatMapTo(f, s, n) == FlatMapTo(f, t, n)
  {
    if n > 0 {
      assert s[..n - 1] == s[..n][..n - 1] == t[..n][..n - 1] == t[..n - 1];
      assert s[n - 1] == s[..n][n - 1] == t[..n][n - 1] == t[n - 1];
      FlatMapOfPrefix(f, s, t, n - 1);
    }
  }

  lemma FlatMapLast<T, U>(f: T -> seq<U>, s: seq<T>)
    requires s != []
    ensures FlatMap(f, s) == FlatMap(f, s[..|s| - 1]) + f(s[|s| - 1])
  {
    FlatMapOfPrefix(f, s, s[..|s| - 1], |s| - 1);
  }

  lemma {:induction false} InFlatMap<T, U>(f: T -> seq<U>, s: seq<T>, k: nat, x: U)
    requires k < |s| && x in f(s[k])
    ensures x in FlatMap(f, s)
  {
    FlatMapLast(f, s);
    if k < |s| - 1 {
      InFlatMap(f, s[..|s| - 1], k, x);
    }
  }

  lemma {:induction false} FlatMapConcat<T, U>(f: T -> seq<U>, s: seq<T>, t: seq<T>)
    ensures FlatMap(f, s + t) == FlatMap(f, s) + FlatMap(f, t)
  {
    if t == [] {
      assert s + t == s;
    } else {
      var last := |t| - 1;
      FlatMapConcat(f, s, t[..last]);
      assert (s + t)[..|s + t| - 1] == s + t[..last];
      FlatMapLast(f, s + t);
      FlatMapLast(f, t);
    }
  }

  lemma RemoveAt<T>(s: seq<T>, j: nat)
    requires j < |s|
    ensures multiset(s) == multiset(s[..j] + s[j + 1..]) + multiset{s[j]}
  {
    assert s == s[..j] + [s[j]] + s[j + 1..];
  }

  lemma FlatMapRemoveAt<T, U>(f: T -> seq<U>, s: seq<T>, j: nat)
    requires j < |s|
    ensures multiset(FlatMap(f, s)) == multiset(FlatMap(f, s[..j] + s[j + 1..])) + multiset(f(s[j]))
  {
    assert s == s[..j] + ([s[j]] + s[j + 1..]);
    FlatMapConcat(f, s[..j], [s[j]] + s[j + 1..]);
    FlatMapConcat(f, [s[j]], s[j + 1..]);
    FlatMapConcat(f, s[..j], s[j + 1..]);
    assert FlatMap(f, [s[j]]) == f(s[j]) by {
      assert FlatMapTo(f, [s[j]], 0) == [];
      assert [] + f(s[j]) == f(s[j]);
    }
  }

  /** Where the last element of s sits in a permutation t, and that deleting it from both
      leaves permutations. */
  lemma MatchLast<T>(s: seq<T>, t: seq<T>) returns (j: nat)
    requires s != [] && multiset(s) == multiset(t)
    ensures j < |t| && t[j] == s[|s| - 1]
    ensures multiset(s[..|s| - 1]) == multiset(t[..j] + t[j + 1..])
  {
    var x := s[|s| - 1];
    assert x in multiset(t);
    j :| 0 <= j < |t| && t[j] == x;
    RemoveAt(t, j);
    assert s == s[..|s| - 1] + [x];
    assert multiset(s[..|s| - 1]) == multiset(s) - multiset{x};
    assert multiset(t[..j] + t[j + 1..]) == multiset(t) - multiset{x};
  }

  /** Reordering the input only reorders the output. */
  lemma {:induction false} FlatMapPermutes<T, U>(f: T -> seq<U>, s: seq<T>, t: seq<T>)
    requires multiset(s) == multiset(t)
    ensures multiset(FlatMap(f, s)) == multiset(FlatMap(f, t))
    decreases |s|
  {
    if s == [] {
      assert |multiset(t)| == |t|;
      assert t == [];
    } else {
      var j := MatchLast(s, t);
      FlatMapPermutes(f, s[..|s| - 1], t[..j] + t[j + 1..]);
      FlatMapLast(f, s);
      FlatMapRemoveAt(f, t, j);
    }
  }

  lemma {:induction false} MapPermutes<T(!new), U>(f: T -> U, s: seq<T>, t: seq<T>)
    requires multiset(s) == multiset(t)
    ensures multiset(Map(f, s)) == multiset(Map(f, t))
  {
    var g := (x: T) => [f(x)];
    MapIsFlatMap(f, g, s);
    MapIsFlatMap(f, g, t);
    FlatMapPermutes(g, s, t);
  }

  lemma {:induction false} MapIsFlatMap<T(!new), U>(f: T -> U, g: T -> seq<U>, s: seq<T>)
    requires forall x :: g(x) == [f(x)]
    ensures FlatMap(g, s) == Map(f, s)
  {
    if s != [] {
      MapIsFlatMap(f, g, s[..|s| - 1]);
      FlatMapLast(g, s);
    }
  }
}
