/** Sums of natural-number sequences, the `np.sum` / `com_size[:k].sum()`
    reductions the notebook utilities rely on. */
module Sums {

  /** Sum of a sequence, peeling off the last element (so that prefix sums
      `Sum(s[..k + 1]) == Sum(s[..k]) + s[k]` unfold directly). */
  function Sum(s: seq<nat>): nat
  {
    if s == [] then 0 else Sum(s[..|s| - 1]) + s[|s| - 1]
  }

  lemma SumPrefixStep(s: seq<nat>, k: nat)
    requires k < |s|
    ensures Sum(s[..k + 1]) == Sum(s[..k]) + s[k]
  {
    assert s[..k + 1][..k] == s[..k];
  }

  lemma {:induction false} SumAppend(a: seq<nat>, b: seq<nat>)
    ensures Sum(a + b) == Sum(a) + Sum(b)
    decreases |b|
  {
    if b == [] {
      assert a + b == a;
    } else {
      var b' := b[..|b| - 1];
      assert (a + b)[..|a + b| - 1] == a + b';
      SumAppend(a, b');
    }
  }

  /** Prefix sums never decrease. */
  lemma PrefixSumMonotone(s: seq<nat>, i: nat, j: nat)
    requires i <= j <= |s|
    ensures Sum(s[..i]) <= Sum(s[..j])
  {
    assert s[..j] == s[..i] + s[i..j];
    SumAppend(s[..i], s[i..j]);
  }

  /** The total splits at any point into a prefix and a suffix. */
  lemma SumSplit(s: seq<nat>, k: nat)
    requires k <= |s|
    ensures Sum(s) == Sum(s[..k]) + Sum(s[k..])
  {
    assert s == s[..k] + s[k..];
    SumAppend(s[..k], s[k..]);
  }

  /** Adding one to a single element adds one to the sum. */
  lemma {:induction false} SumIncrement(s: seq<nat>, i: nat)
    requires i < |s|
    ensures Sum(s[i := s[i] + 1]) == Sum(s) + 1
    decreases |s|
  {
    var t := s[i := s[i] + 1];
    if i == |s| - 1 {
      assert t[..|t| - 1] == s[..|s| - 1];
    } else {
      assert t[..|t| - 1] == s[..|s| - 1][i := s[i] + 1];
      SumIncrement(s[..|s| - 1], i);
    }
  }

  /** Pointwise sum of two sequences of the same length. */
  function Add(a: seq<nat>, b: seq<nat>): (r: seq<nat>)
    requires |a| == |b|
    ensures |r| == |a| && forall i :: 0 <= i < |a| ==> r[i] == a[i] + b[i]
  {
    seq(|a|, i requires 0 <= i < |a| => a[i] + b[i])
  }

  lemma {:induction false} SumAdd(a: seq<nat>, b: seq<nat>)
    requires |a| == |b|
    ensures Sum(Add(a, b)) == Sum(a) + Sum(b)
    decreases |a|
  {
    if a != [] {
      var k := |a| - 1;
      assert Add(a, b)[..k] == Add(a[..k], b[..k]);
      SumAdd(a[..k], b[..k]);
    }
  }

  /** A sequence that is zero everywhere except at `i` sums to its `i`-th element. */
  lemma {:induction false} SumSingle(s: seq<nat>, i: nat)
    requires i < |s|
    requires forall j :: 0 <= j < |s| && j != i ==> s[j] == 0
    ensures Sum(s) == s[i]
    decreases |s|
  {
    var k := |s| - 1;
    if i == k {
      SumZero(s[..k]);
    } else {
      SumSingle(s[..k], i);
    }
  }

  lemma {:induction false} SumZero(s: seq<nat>)
    requires forall j :: 0 <= j < |s| ==> s[j] == 0
    ensures Sum(s) == 0
    decreases |s|
  {
    if s != [] {
      SumZero(s[..|s| - 1]);
    }
  }
}
