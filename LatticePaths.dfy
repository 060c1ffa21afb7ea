/// Lattice paths written as sequences of steps: +1 goes up, 0 stays level,
/// -1 goes down. The height after a prefix is the sum of its steps.
module LatticePaths {

  /** The height reached by walking the steps of `s` from 0. */
  function Sum(s: seq<int>): int
    decreases |s|
  {
    if |s| == 0 then 0 else Sum(s[..|s| - 1]) + s[|s| - 1]
  }

  /** No prefix of `s` ends below zero: the path never dips under the axis. */
  ghost predicate NeverNegative(s: seq<int>) {
    forall k :: 0 <= k <= |s| ==> Sum(s[..k]) >= 0
  }

  /** A Dyck path: steps of +1 and -1, never below zero, ending at zero. */
  ghost predicate IsDyckPath(s: seq<int>) {
    && (forall i :: 0 <= i < |s| ==> s[i] == 1 || s[i] == -1)
    && NeverNegative(s)
    && Sum(s) == 0
  }

  /** A Motzkin path: steps of +1, 0 and -1, never below zero, ending at zero. */
  ghost predicate IsMotzkinPath(s: seq<int>) {
    && (forall i :: 0 <= i < |s| ==> -1 <= s[i] <= 1)
    && NeverNegative(s)
    && Sum(s) == 0
  }

  /** One more step adds its value to the height. */
  lemma SumStep(s: seq<int>, k: nat)
    requires k < |s|
    ensures Sum(s[..k + 1]) == Sum(s[..k]) + s[k]
  {
    assert s[..k + 1][..k] == s[..k];
  }

  lemma {:induction false} SumConcat(x: seq<int>, y: seq<int>)
    ensures Sum(x + y) == Sum(x) + Sum(y)
    decreases |y|
  {
    if |y| == 0 {
      assert x + y == x;
    } else {
      assert (x + y)[..|x + y| - 1] == x + y[..|y| - 1];
      SumConcat(x, y[..|y| - 1]);
    }
  }

  /** Replacing the step at `p` shifts the height after every prefix that contains it. */
  lemma {:induction false} SumUpdate(s: seq<int>, p: nat, v: int, k: nat)
    requires p < |s| && k <= |s|
    ensures Sum(s[p := v][..k]) == Sum(s[..k]) + (if p < k then v - s[p] else 0)
    decreases k
  {
    if k > 0 {
      SumStep(s[p := v], k - 1);
      SumStep(s, k - 1);
      SumUpdate(s, p, v, k - 1);
    }
  }

  /** The all-level path of length n. */
  function Zeros(n: nat): (z: seq<int>)
    ensures |z| == n && forall i :: 0 <= i < n ==> z[i] == 0
  {
    seq(n, _ => 0)
  }

  /** The path of k up-steps followed by k down-steps. */
  function Mountain(k: nat): (s: seq<int>)
    ensures |s| == 2 * k
  {
    seq(2 * k, i => if i < k then 1 else -1)
  }
}
