/**
 The index sequences an ant works with: the initial `allowed` list
 `0..N`, the removal of one visited node from it, and what it means for a
 finished `route` to be a tour (src/aco.rs, `Ant::move_` and `init_ants`).
 */
module Routes {

  /** The node indices `0, 1, ..., n - 1` in order (`(0..n).collect()`). */
  function Range(n: nat): (r: seq<nat>)
    ensures |r| == n
    ensures forall i :: 0 <= i < n ==> r[i] == i
    ensures forall x: nat :: x in r <==> x < n
  {
    if n == 0 then [] else Range(n - 1) + [n - 1]
  }

  /** No index occurs twice. */
  predicate NoRepeats(s: seq<nat>)
  {
    forall i, j :: 0 <= i < j < |s| ==> s[i] != s[j]
  }

  /** `route` visits each of the nodes `0..n` exactly once. */
  predicate IsTour(route: seq<nat>, n: nat)
  {
    && |route| == n
    && (forall i :: 0 <= i < |route| ==> route[i] < n)
    && NoRepeats(route)
  }

  /** Each index below `n` occurs once in `Range(n)`, every other index never. */
  lemma {:induction false} RangeCounts(n: nat)
    ensures forall x: nat :: multiset(Range(n))[x] == if x < n then 1 else 0
  {
    if n > 0 {
      var m: nat := n - 1;
      RangeCounts(m);
      assert Range(n) == Range(m) + [m];
      assert multiset(Range(n)) == multiset(Range(m)) + multiset{m};
    }
  }

  /** An index that occurs at two positions is counted at least twice. */
  lemma RepeatCounted(s: seq<nat>, i: nat, j: nat)
    requires i < j < |s| && s[i] == s[j]
    ensures multiset(s)[s[i]] >= 2
  {
    assert s == s[..j] + s[j..];
    assert s[i] in s[..j];
    assert s[j] in s[j..];
    assert multiset(s) == multiset(s[..j]) + multiset(s[j..]);
  }

  /**
   Anything with the same elements as `Range(n)` is a tour through all of
   `0..n`: the finished route of an ant that started from the full list.
   */
  lemma PermutationOfRangeIsTour(route: seq<nat>, n: nat)
    requires multiset(route) == multiset(Range(n))
    ensures IsTour(route, n)
    ensures forall x: nat :: x < n ==> x in route
  {
    RangeCounts(n);
    assert |route| == |multiset(route)| == |multiset(Range(n))| == n;
    forall i | 0 <= i < |route|
      ensures route[i] < n
    {
      assert route[i] in multiset(route);
    }
    forall i, j | 0 <= i < j < |route|
      ensures route[i] != route[j]
    {
      if route[i] == route[j] {
        RepeatCounted(route, i, j);
        assert false;
      }
    }
    forall x: nat | x < n
      ensures x in route
    {
      assert x in multiset(Range(n));
    }
  }

  /** `s` with its first occurrence of `x` removed, the rest in order. */
  function RemoveFirst(s: seq<nat>, x: nat): (r: seq<nat>)
    requires x in s
    ensures |r| == |s| - 1
    ensures multiset(r) == multiset(s) - multiset{x}
    ensures forall y :: y in r ==> y in s
  {
    if s[0] == x then
      assert s == [s[0]] + s[1..];
      s[1..]
    else
      assert s == [s[0]] + s[1..];
      [s[0]] + RemoveFirst(s[1..], x)
  }

  /** Removing the first occurrence is cutting out the element at its position. */
  lemma {:induction false} RemoveFirstAt(s: seq<nat>, x: nat, i: nat)
    requires i < |s| && s[i] == x && x !in s[..i]
    ensures RemoveFirst(s, x) == s[..i] + s[i + 1..]
  {
    if i > 0 {
      var t := s[1..];
      assert s[0] == s[..i][0];
      assert t[..i - 1] == s[..i][1..];
      RemoveFirstAt(t, x, i - 1);
      assert s[..i] == [s[0]] + t[..i - 1];
      assert s[i + 1..] == t[i..];
    }
  }

  /**
   The position of the first occurrence of `x` in `s`
   (`iter().position(..).unwrap()`, which panics when `x` is absent).
   */
  method Position(s: seq<nat>, x: nat) returns (i: nat)
    requires x in s
    ensures i < |s| && s[i] == x
    ensures x !in s[..i]
  {
    i := 0;
    while s[i] != x
      invariant i < |s|
      invariant x !in s[..i]
      invariant x in s[i..]
      decreases |s| - i
    {
      assert s[i..] == [s[i]] + s[i + 1..];
      assert s[..i + 1] == s[..i] + [s[i]];
      i := i + 1;
    }
  }
}
