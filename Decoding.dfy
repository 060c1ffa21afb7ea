/// The decode step of the Motzkin iterator (`ConvertToMotzkin`): start from
/// the all-level path and write the steps of the current Dyck path, in
/// order, at the positions of the current combination, in the order the
/// combination lists them.
module Decoding {
  import opened Sequences
  import opened LatticePaths
  import opened Combinations

  /** The result of writing steps[i] at positions[i] for i = 0, 1, ..., |positions| - 1 in turn. */
  function Overwrite(s: seq<int>, positions: seq<nat>, steps: seq<int>): (r: seq<int>)
    requires |positions| <= |steps|
    requires forall i :: 0 <= i < |positions| ==> positions[i] < |s|
    ensures |r| == |s|
    decreases |positions|
  {
    if |positions| == 0 then s
    else
      var last := |positions| - 1;
      Overwrite(s, positions[..last], steps)[positions[last] := steps[last]]
  }

  /** The decoded path: the steps of `steps` at `positions`, level steps everywhere else. */
  function Decoded(n: nat, positions: seq<nat>, steps: seq<int>): (r: seq<int>)
    requires |positions| == |steps|
    requires forall i :: 0 <= i < |positions| ==> positions[i] < n
    ensures |r| == n
  {
    Overwrite(Zeros(n), positions, steps)
  }

  /** The positions of the non-level steps of a path. */
  ghost function Support(s: seq<int>): set<nat> {
    set p: nat | p < |s| && s[p] != 0
  }

  /** How many of the positions lie below k. */
  function CountBelow(positions: seq<nat>, k: nat): (c: nat)
    ensures c <= |positions|
    decreases |positions|
  {
    if |positions| == 0 then 0
    else CountBelow(positions[..|positions| - 1], k) + (if positions[|positions| - 1] < k then 1 else 0)
  }

  lemma {:induction false} CountBelowAll(positions: seq<nat>, k: nat)
    requires forall i :: 0 <= i < |positions| ==> positions[i] < k
    ensures CountBelow(positions, k) == |positions|
    decreases |positions|
  {
    if |positions| > 0 {
      CountBelowAll(positions[..|positions| - 1], k);
    }
  }

  /**
    * With distinct positions, every chosen position receives its own step
    * and every other position keeps its old value.
    */
  lemma {:induction false} OverwriteAt(s: seq<int>, positions: seq<nat>, steps: seq<int>)
    requires |positions| <= |steps|
    requires forall i :: 0 <= i < |positions| ==> positions[i] < |s|
    requires StrictlyIncreasing(positions)
    ensures forall i :: 0 <= i < |positions| ==> Overwrite(s, positions, steps)[positions[i]] == steps[i]
    ensures forall p :: 0 <= p < |s| && p !in positions ==> Overwrite(s, positions, steps)[p] == s[p]
    decreases |positions|
  {
    if |positions| > 0 {
      var last := |positions| - 1;
      var front := positions[..last];
      OverwriteAt(s, front, steps);
      forall i | 0 <= i < last ensures Overwrite(s, positions, steps)[positions[i]] == steps[i] {
        assert front[i] == positions[i] && positions[i] < positions[last];
      }
    }
  }

  /**
    * The decoded path keeps its length, carries steps[i] at positions[i]
    * and is level everywhere else.
    */
  lemma DecodedAt(n: nat, positions: seq<nat>, steps: seq<int>)
    requires IsCombination(positions, n, |steps|)
    ensures |Decoded(n, positions, steps)| == n
    ensures forall i :: 0 <= i < |positions| ==> Decoded(n, positions, steps)[positions[i]] == steps[i]
    ensures forall p :: 0 <= p < n && p !in positions ==> Decoded(n, positions, steps)[p] == 0
  {
    OverwriteAt(Zeros(n), positions, steps);
  }

  /** When no step is level, the non-level entries of the decoded path are exactly the chosen positions, one per step. */
  lemma DecodedSupport(n: nat, positions: seq<nat>, steps: seq<int>)
    requires IsCombination(positions, n, |steps|)
    requires forall i :: 0 <= i < |steps| ==> steps[i] != 0
    ensures Support(Decoded(n, positions, steps)) == Elements(positions)
    ensures |Support(Decoded(n, positions, steps))| == |steps|
  {
    var r := Decoded(n, positions, steps);
    DecodedAt(n, positions, steps);
    forall p | p in Elements(positions) ensures p in Support(r) {
      var i :| 0 <= i < |positions| && positions[i] == p;
      assert r[p] == steps[i];
    }
    DistinctCardinality(positions);
  }

  lemma {:induction false} SumOfZeros(n: nat, k: nat)
    requires k <= n
    ensures Sum(Zeros(n)[..k]) == 0
    decreases k
  {
    if k > 0 {
      SumStep(Zeros(n), k - 1);
      SumOfZeros(n, k - 1);
    }
  }

  /** The height of the decoded path after k steps is the height of `steps` after the steps placed below k. */
  lemma {:induction false} DecodedPrefix(n: nat, positions: seq<nat>, steps: seq<int>, k: nat)
    requires |positions| <= |steps| && k <= n
    requires forall i :: 0 <= i < |positions| ==> positions[i] < n
    requires StrictlyIncreasing(positions)
    ensures Sum(Overwrite(Zeros(n), positions, steps)[..k]) == Sum(steps[..CountBelow(positions, k)])
    decreases |positions|
  {
    if |positions| == 0 {
      SumOfZeros(n, k);
    } else {
      var last := |positions| - 1;
      var front, c := positions[..last], positions[last];
      var x := Overwrite(Zeros(n), front, steps);
      DecodedPrefix(n, front, steps, k);
      SumUpdate(x, c, steps[last], k);
      if c < k {
        OverwriteAt(Zeros(n), front, steps);
        CountBelowAll(front, k);
        SumStep(steps, last);
      }
    }
  }

  /** Placing a Dyck path on increasing positions of a level path gives a Motzkin path. */
  lemma DecodedIsMotzkin(n: nat, positions: seq<nat>, steps: seq<int>)
    requires IsCombination(positions, n, |steps|)
    requires IsDyckPath(steps)
    ensures IsMotzkinPath(Decoded(n, positions, steps))
  {
    var r := Decoded(n, positions, steps);
    DecodedAt(n, positions, steps);
    forall p | 0 <= p < n ensures -1 <= r[p] <= 1 {
      if p in positions {
        var i :| 0 <= i < |positions| && positions[i] == p;
      }
    }
    forall k | 0 <= k <= n ensures Sum(r[..k]) >= 0 {
      DecodedPrefix(n, positions, steps, k);
    }
    DecodedPrefix(n, positions, steps, n);
    CountBelowAll(positions, n);
    assert r[..n] == r && steps[..|steps|] == steps;
  }

  /** Different choices of positions or steps never decode to the same path. */
  lemma DecodedInjective(n: nat, positions: seq<nat>, steps: seq<int>, positions': seq<nat>, steps': seq<int>)
    requires IsCombination(positions, n, |steps|) && IsCombination(positions', n, |steps'|)
    requires forall i :: 0 <= i < |steps| ==> steps[i] != 0
    requires forall i :: 0 <= i < |steps'| ==> steps'[i] != 0
    requires Decoded(n, positions, steps) == Decoded(n, positions', steps')
    ensures positions == positions' && steps == steps'
  {
    DecodedSupport(n, positions, steps);
    DecodedSupport(n, positions', steps');
    IncreasingDeterminedByElements(positions, positions');
    DecodedAt(n, positions, steps);
    DecodedAt(n, positions', steps');
  }
}
