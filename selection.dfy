/**
 The roulette wheel of a later-round decision (src/aco.rs, `Ant::decide`,
 lines 58-74): every candidate has a non-negative attractiveness score, the
 shares `score / total` are accumulated in the iteration order of the score
 map, and the first candidate whose running share reaches the random draw
 wins. Arithmetic is on `real`, not `f32`.
 */
module Selection {

  /** `std::f32::MIN_POSITIVE`, the smallest positive normal f32: 2^-126. */
  const MinPositive: real := 1.0 / 85070591730234615865843651857942052864.0

  /** Every candidate in `keys` has a score in `attr`. */
  predicate Covers(keys: seq<nat>, attr: map<nat, real>)
  {
    forall i :: 0 <= i < |keys| ==> keys[i] in attr
  }

  /** No value of `m` is negative: no score, and (for a pheromone map) no amount. */
  predicate NonNegative<K>(m: map<K, real>)
  {
    forall k :: k in m ==> m[k] >= 0.0
  }

  /** The sum of the scores of `keys`, one term per occurrence. */
  function SumOver(keys: seq<nat>, attr: map<nat, real>): (total: real)
    requires Covers(keys, attr)
    ensures NonNegative(attr) ==> total >= 0.0
  {
    if keys == [] then 0.0 else attr[keys[0]] + SumOver(keys[1..], attr)
  }

  /**
   The roulette loop of lines 64-74, entered with the running share `upto`:
   the first candidate whose share plus `upto` reaches the draw `r`, or the
   hard-coded fallback index 0 when no candidate does.
   */
  function Spin(keys: seq<nat>, attr: map<nat, real>, total: real, r: real, upto: real): nat
    requires Covers(keys, attr) && total != 0.0
  {
    if keys == [] then 0
    else
      var w := attr[keys[0]] / total;
      if w + upto >= r then keys[0] else Spin(keys[1..], attr, total, r, upto + w)
  }

  /** Lines 58-63: every score replaced by `MinPositive`. */
  function Flatten(attr: map<nat, real>): map<nat, real>
  {
    map k | k in attr :: MinPositive
  }

  /**
   The whole later-round choice: when the scores sum to zero, scores and
   total are all replaced by `MinPositive` before the wheel is spun.
   */
  function Select(keys: seq<nat>, attr: map<nat, real>, total: real, r: real): nat
    requires Covers(keys, attr)
  {
    if total == 0.0 then Spin(keys, Flatten(attr), MinPositive, r, 0.0)
    else Spin(keys, attr, total, r, 0.0)
  }

  /** The sum over a concatenation is the sum of the two sums. */
  lemma {:induction false} SumOverAppend(a: seq<nat>, b: seq<nat>, attr: map<nat, real>)
    requires Covers(a, attr) && Covers(b, attr)
    ensures Covers(a + b, attr)
    ensures SumOver(a + b, attr) == SumOver(a, attr) + SumOver(b, attr)
  {
    assert Covers(a + b, attr);
    if a != [] {
      assert (a + b)[0] == a[0];
      assert (a + b)[1..] == a[1..] + b;
      SumOverAppend(a[1..], b, attr);
    } else {
      assert a + b == b;
    }
  }

  /** Cutting the element at `i` out of `t` removes one occurrence of it. */
  lemma MultisetRemoveAt(t: seq<nat>, i: nat)
    requires i < |t|
    ensures multiset(t[..i] + t[i + 1..]) == multiset(t) - multiset{t[i]}
  {
    assert t == t[..i] + [t[i]] + t[i + 1..];
  }

  /** The sum over `t` is the score at `i` plus the sum over the rest. */
  lemma SumOverRemoveAt(t: seq<nat>, i: nat, attr: map<nat, real>)
    requires i < |t| && Covers(t, attr)
    ensures Covers(t[..i] + t[i + 1..], attr)
    ensures SumOver(t, attr) == attr[t[i]] + SumOver(t[..i] + t[i + 1..], attr)
  {
    assert Covers(t[..i], attr) && Covers(t[i + 1..], attr);
    assert Covers([t[i]] + t[i + 1..], attr);
    SumOverAppend(t[..i], [t[i]] + t[i + 1..], attr);
    SumOverAppend(t[..i], t[i + 1..], attr);
    assert t == t[..i] + ([t[i]] + t[i + 1..]);
    assert ([t[i]] + t[i + 1..])[1..] == t[i + 1..];
  }

  /** A reordering of covered candidates is covered. */
  lemma CoversPermutation(s: seq<nat>, t: seq<nat>, attr: map<nat, real>)
    requires Covers(s, attr) && multiset(s) == multiset(t)
    ensures Covers(t, attr)
  {
    forall i | 0 <= i < |t|
      ensures t[i] in attr
    {
      assert t[i] in multiset(s);
    }
  }

  /** The sum does not depend on the order in which the candidates are listed. */
  lemma {:induction false} SumOverPermutation(s: seq<nat>, t: seq<nat>, attr: map<nat, real>)
    requires Covers(s, attr) && multiset(s) == multiset(t)
    ensures Covers(t, attr)
    ensures SumOver(s, attr) == SumOver(t, attr)
    decreases |s|
  {
    CoversPermutation(s, t, attr);
    if s != [] {
      assert s[0] in multiset(t);
      var i :| 0 <= i < |t| && t[i] == s[0];
      var rest := t[..i] + t[i + 1..];
      MultisetRemoveAt(t, i);
      assert s == [s[0]] + s[1..];
      assert multiset(s[1..]) == multiset(rest);
      SumOverRemoveAt(t, i, attr);
      SumOverPermutation(s[1..], rest, attr);
    }
  }

  /** Non-negative scores that sum to zero are each zero. */
  lemma {:induction false} ZeroSumMeansZeroScores(keys: seq<nat>, attr: map<nat, real>)
    requires Covers(keys, attr) && NonNegative(attr)
    requires SumOver(keys, attr) == 0.0
    ensures forall i :: 0 <= i < |keys| ==> attr[keys[i]] == 0.0
  {
    if keys != [] {
      ZeroSumMeansZeroScores(keys[1..], attr);
      forall i | 0 < i < |keys|
        ensures attr[keys[i]] == 0.0
      {
        assert keys[1..][i - 1] == keys[i];
      }
    }
  }

  /** Splitting off the first share of a sum divided by the total. */
  lemma ShareSplit(a: real, b: real, total: real)
    requires total != 0.0
    ensures (a + b) / total == a / total + b / total
  {
  }

  /**
   While the running share has not passed `r` but the remaining shares
   would carry it past `r`, the wheel stops on one of the candidates.
   */
  lemma {:induction false} SpinFinds(keys: seq<nat>, attr: map<nat, real>, total: real, r: real, upto: real)
    requires Covers(keys, attr) && total > 0.0
    requires upto <= r < upto + SumOver(keys, attr) / total
    ensures Spin(keys, attr, total, r, upto) in keys
  {
    assert keys != [];
    var w := attr[keys[0]] / total;
    if w + upto < r {
      ShareSplit(attr[keys[0]], SumOver(keys[1..], attr), total);
      SpinFinds(keys[1..], attr, total, r, upto + w);
    }
  }

  /**
   When the shares of all candidates fall short of the draw (which exact
   arithmetic rules out, but f32 rounding does not), the wheel returns the
   fallback index 0, whether or not 0 is a candidate.
   */
  lemma {:induction false} SpinShortfall(keys: seq<nat>, attr: map<nat, real>, total: real, r: real, upto: real)
    requires Covers(keys, attr) && NonNegative(attr) && total > 0.0
    requires upto + SumOver(keys, attr) / total < r
    ensures Spin(keys, attr, total, r, upto) == 0
  {
    if keys != [] {
      var w := attr[keys[0]] / total;
      ShareSplit(attr[keys[0]], SumOver(keys[1..], attr), total);
      assert SumOver(keys[1..], attr) / total >= 0.0;
      SpinShortfall(keys[1..], attr, total, r, upto + w);
    }
  }

  /**
   With exact arithmetic the later-round choice always names one of the
   candidates: for non-negative scores summing to `total`, a non-empty
   candidate list and a draw in [0, 1), the fallback is never reached. When
   all scores are zero, every share becomes 1 and the first candidate in
   iteration order wins.
   */
  lemma SelectChoosesCandidate(keys: seq<nat>, attr: map<nat, real>, total: real, r: real)
    requires Covers(keys, attr) && NonNegative(attr) && keys != []
    requires SumOver(keys, attr) == total
    requires 0.0 <= r < 1.0
    ensures Select(keys, attr, total, r) in keys
    ensures total == 0.0 ==> Select(keys, attr, total, r) == keys[0]
  {
    if total != 0.0 {
      assert total / total == 1.0;
      SpinFinds(keys, attr, total, r, 0.0);
    } else {
      assert Flatten(attr)[keys[0]] / MinPositive == 1.0;
    }
  }

  /** Lines 58-63: overwrite every score with `MinPositive`, key by key. */
  method FloorScores(attr: map<nat, real>) returns (flat: map<nat, real>)
    ensures flat == Flatten(attr)
    ensures flat.Keys == attr.Keys
    ensures forall k :: k in flat ==> flat[k] > 0.0
  {
    flat := attr;
    var rest := attr.Keys;
    while rest != {}
      invariant rest <= attr.Keys
      invariant flat.Keys == attr.Keys
      invariant forall k :: k in flat ==> flat[k] == if k in rest then attr[k] else MinPositive
      decreases rest
    {
      var k :| k in rest;
      flat := flat[k := MinPositive];
      rest := rest - {k};
    }
  }

  /**
   The roulette loop of lines 64-74: accumulate `score / total` in key order
   and return the first key at which the running share reaches `r`; return
   0 if none does.
   */
  method Roulette(keys: seq<nat>, attr: map<nat, real>, total: real, r: real) returns (next: nat)
    requires Covers(keys, attr) && total != 0.0
    ensures next == Spin(keys, attr, total, r, 0.0)
    ensures next in keys || next == 0
  {
    var upto := 0.0;
    var i := 0;
    while i < |keys|
      invariant 0 <= i <= |keys|
      invariant Spin(keys[i..], attr, total, r, upto) == Spin(keys, attr, total, r, 0.0)
    {
      var weight := attr[keys[i]] / total;
      assert keys[i..][1..] == keys[i + 1..];
      if weight + upto >= r {
        return keys[i];
      }
      upto := upto + weight;
      i := i + 1;
    }
    next := 0;
  }
}
