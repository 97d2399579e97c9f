/**
 * Sequence helpers shared by both engine generations.  The source keeps its
 * rosters (a team's players, bunkers or buildings) in growable arrays: an
 * entity joins at the end and leaves through `removeAt(searchIndexOf(e))`,
 * which takes out its first occurrence.
 */
module Rosters {

  datatype Option<T> = None | Some(value: T)

  /** No element occurs twice. */
  predicate Distinct<T(==)>(s: seq<T>) {
    forall i, j :: 0 <= i < j < |s| ==> s[i] != s[j]
  }

  /** The index of the first occurrence of x in s. */
  function IndexOf<T(==)>(s: seq<T>, x: T): (i: nat)
    requires x in s
    ensures i < |s| && s[i] == x && x !in s[..i]
  {
    if s[0] == x then 0 else 1 + IndexOf(s[1..], x)
  }

  /** s without its first occurrence of x. */
  function RemoveFirst<T(==)>(s: seq<T>, x: T): seq<T>
    requires x in s
  {
    if s[0] == x then s[1..] else [s[0]] + RemoveFirst(s[1..], x)
  }

  /** Removing the first occurrence cuts s around the index of x. */
  lemma {:induction false} RemoveFirstSplits<T>(s: seq<T>, x: T)
    requires x in s
    ensures RemoveFirst(s, x) == s[..IndexOf(s, x)] + s[IndexOf(s, x) + 1..]
  {
    if s[0] != x {
      var t := s[1..];
      assert x in t by {
        assert s == [s[0]] + t;
      }
      RemoveFirstSplits(t, x);
      var i := IndexOf(t, x);
      assert [s[0]] + (t[..i] + t[i + 1..]) == s[..i + 1] + s[i + 2..];
    }
  }

  /**
   * Removing the first occurrence takes out exactly one x, keeps every other
   * element and keeps the order of the rest.
   */
  lemma RemoveFirstFacts<T>(s: seq<T>, x: T)
    requires x in s
    ensures RemoveFirst(s, x) == s[..IndexOf(s, x)] + s[IndexOf(s, x) + 1..]
    ensures var cut := s[..IndexOf(s, x)] + s[IndexOf(s, x) + 1..];
      |cut| == |s| - 1 && multiset(cut) == multiset(s) - multiset{x}
  {
    RemoveFirstSplits(s, x);
    Cut(s, IndexOf(s, x));
  }

  /** Cutting out the element at index i leaves one element fewer, and one copy of it fewer. */
  lemma Cut<T>(s: seq<T>, i: nat)
    requires i < |s|
    ensures |s[..i] + s[i + 1..]| == |s| - 1
    ensures multiset(s[..i] + s[i + 1..]) == multiset(s) - multiset{s[i]}
  {
    assert s == s[..i] + [s[i]] + s[i + 1..];
  }

  /** Removing x keeps every other element. */
  lemma RemoveFirstKeeps<T>(s: seq<T>, x: T, y: T)
    requires x in s && y != x
    ensures y in RemoveFirst(s, x) <==> y in s
  {
    RemoveFirstFacts(s, x);
    assert y in multiset(RemoveFirst(s, x)) <==> y in multiset(s);
  }

  /** In a roster without repeats, removing x removes every trace of it and nothing else. */
  lemma RemoveFirstDistinct<T>(s: seq<T>, x: T)
    requires Distinct(s) && x in s
    ensures Distinct(RemoveFirst(s, x))
    ensures forall y :: y in RemoveFirst(s, x) ==> y in s && y != x
    ensures forall y :: y in s && y != x ==> y in RemoveFirst(s, x)
  {
    RemoveFirstFacts(s, x);
    var i := IndexOf(s, x);
    var r := s[..i] + s[i + 1..];
    assert forall k :: 0 <= k < |r| ==> r[k] == if k < i then s[k] else s[k + 1];
    forall y | y in s && y != x
      ensures y in r
    {
      var k :| 0 <= k < |s| && s[k] == y;
      assert k != i;
      if k < i {
        assert r[k] == y;
      } else {
        assert r[k - 1] == y;
      }
    }
  }

  /** Adding an element that was absent and then removing it restores the roster. */
  lemma {:induction false} AddThenRemove<T>(s: seq<T>, x: T)
    requires x !in s
    ensures RemoveFirst(s + [x], x) == s
  {
    if s != [] {
      assert (s + [x])[1..] == s[1..] + [x];
      AddThenRemove(s[1..], x);
    }
  }

  /** The first n elements of s whose drop flag is off, in their order. */
  function Kept<T>(s: seq<T>, drop: seq<bool>, n: nat): seq<T>
    requires n <= |s| == |drop|
  {
    if n == 0 then [] else Kept(s, drop, n - 1) + (if drop[n - 1] then [] else [s[n - 1]])
  }

  /** How many of the first n flags are set. */
  function Count(flags: seq<bool>, n: nat): nat
    requires n <= |flags|
  {
    if n == 0 then 0 else Count(flags, n - 1) + (if flags[n - 1] then 1 else 0)
  }

  /** The filter keeps an element exactly when it is not dropped. */
  lemma {:induction false} KeptMembers<T>(s: seq<T>, drop: seq<bool>, n: nat)
    requires n <= |s| == |drop|
    ensures forall x :: x in Kept(s, drop, n) ==> exists j :: 0 <= j < n && s[j] == x && !drop[j]
    ensures forall j :: 0 <= j < n && !drop[j] ==> s[j] in Kept(s, drop, n)
  {
    if n > 0 {
      KeptMembers(s, drop, n - 1);
    }
  }

  /** Filtering n elements leaves n minus the dropped ones. */
  lemma {:induction false} KeptSize<T>(s: seq<T>, drop: seq<bool>, n: nat)
    requires n <= |s| == |drop|
    ensures |Kept(s, drop, n)| == n - Count(drop, n)
  {
    if n > 0 {
      KeptSize(s, drop, n - 1);
    }
  }

  /** Between two prefixes no more flags are set than there are flags. */
  lemma {:induction false} CountGrows(flags: seq<bool>, m: nat, n: nat)
    requires m <= n <= |flags|
    ensures Count(flags, m) <= Count(flags, n) <= Count(flags, m) + n - m
  {
    if m < n {
      CountGrows(flags, m, n - 1);
    }
  }

  /**
   * One step of an in-place filter: with the first k elements filtered and
   * the rest untouched, element k sits at index k - Count(drop, k);
   * removing it there (when dropped) or stepping over it (when kept) gives
   * the state after k + 1 elements.
   */
  lemma KeptStep<T>(s: seq<T>, drop: seq<bool>, k: nat, cur: seq<T>)
    requires k < |s| == |drop| && cur == Kept(s, drop, k) + s[k..]
    ensures 0 <= k - Count(drop, k) < |cur| && cur[k - Count(drop, k)] == s[k]
    ensures var i := k - Count(drop, k);
      (drop[k] ==> cur[..i] + cur[i + 1..] == Kept(s, drop, k + 1) + s[k + 1..]) &&
      (!drop[k] ==> cur == Kept(s, drop, k + 1) + s[k + 1..])
  {
    KeptSize(s, drop, k);
    var i := k - Count(drop, k);
    assert cur[..i] == Kept(s, drop, k) && cur[i..] == s[k..];
    assert s[k..][1..] == s[k + 1..];
  }

  /** Setting a key after removing it is the same as setting it, whatever else was removed. */
  lemma UpdateAfterRemove<K, V>(m: map<K, V>, k: K, a: K, v: V)
    ensures ((m - {k}) - {a})[k := v] == (m - {a})[k := v]
  {
  }

  /** A key that was absent, or was the one moved away, is present after the move only as its target. */
  lemma MovedAway<K, V>(m: map<K, V>, from: K, q: K, v: V, c: K)
    requires c == from || c !in m
    ensures c in (m - {from})[q := v] ==> c == q
  {
  }
}
