/// The Dyck-path collaborator of the Motzkin iterator. Its implementation is
/// not part of this model; only the interface the iterator uses is: a digit
/// that indexes a fixed table of the Dyck paths of half-length m, with
/// reset, advance, an end test and dereference. The table is built by the
/// first-return decomposition: a non-empty Dyck path is an up-step, a Dyck
/// path a, the down-step back to the axis, then a Dyck path b. Longer
/// first arches come first, so the two paths of half-length 2 appear as
/// [1, 1, -1, -1] and then [1, -1, 1, -1].
module DyckPaths {
  import opened Sequences
  import opened LatticePaths

  /** The Catalan numbers, by the recurrence C(m) = sum over i < m of C(i) * C(m - 1 - i). */
  function Catalan(m: nat): nat
    decreases m, 2
  {
    if m == 0 then 1 else CatalanSplit(m, m)
  }

  /** The terms of the Catalan recurrence whose first arch encloses fewer than j pairs. */
  function CatalanSplit(m: nat, j: nat): nat
    requires 1 <= m && j <= m
    decreases m, 1, j
  {
    if j == 0 then 0 else Catalan(j - 1) * Catalan(m - j) + CatalanSplit(m, j - 1)
  }

  lemma {:induction false} CatalanPositive(m: nat)
    ensures Catalan(m) >= 1
  {
    if m > 0 {
      CatalanPositive(m - 1);
      assert CatalanSplit(m, m) >= Catalan(m - 1) * Catalan(0);
    }
  }

  lemma CatalanValues()
    ensures Catalan(0) == 1 && Catalan(1) == 1 && Catalan(2) == 2
    ensures Catalan(3) == 5 && Catalan(4) == 14
  {
  }

  /** The path that steps up, follows a one level higher, steps down, then follows b. */
  function Wrapped(a: seq<int>, b: seq<int>): seq<int> {
    [1] + a + [-1] + b
  }

  /** Every path of `tails` wrapped under the arch `a`. */
  function Lift(a: seq<int>, tails: seq<seq<int>>): (r: seq<seq<int>>)
    ensures |r| == |tails|
    ensures forall i :: 0 <= i < |tails| ==> r[i] == Wrapped(a, tails[i])
  {
    seq(|tails|, i requires 0 <= i < |tails| => Wrapped(a, tails[i]))
  }

  /** All pairs (a, b) from `arches` and `tails`, the arch a varying slowest. */
  function Wrap(arches: seq<seq<int>>, tails: seq<seq<int>>): (r: seq<seq<int>>)
    ensures |r| == |arches| * |tails|
    decreases |arches|
  {
    if |arches| == 0 then []
    else
      assert |arches| * |tails| == |tails| + (|arches| - 1) * |tails|;
      Lift(arches[0], tails) + Wrap(arches[1..], tails)
  }

  /** The table of Dyck paths of half-length m. */
  function Dyck(m: nat): seq<seq<int>>
    decreases m, 2
  {
    if m == 0 then [[]] else DyckSplit(m, m)
  }

  /** The paths of half-length m whose first arch encloses fewer than j pairs, largest first arch first. */
  function DyckSplit(m: nat, j: nat): seq<seq<int>>
    requires 1 <= m && j <= m
    decreases m, 1, j
  {
    if j == 0 then [] else Wrap(Dyck(j - 1), Dyck(m - j)) + DyckSplit(m, j - 1)
  }

  /** Where a path first comes back to the axis: the least k >= 1 with a zero prefix sum, or |p| + 1. */
  ghost function FirstReturn(p: seq<int>): nat {
    FirstZeroFrom(p, 1)
  }

  ghost function FirstZeroFrom(p: seq<int>, k: nat): nat
    decreases |p| + 1 - k
  {
    if k > |p| then |p| + 1 else if Sum(p[..k]) == 0 then k else FirstZeroFrom(p, k + 1)
  }

  lemma {:induction false} FirstZeroFromAt(p: seq<int>, k: nat, K: nat)
    requires 1 <= k <= K <= |p| && Sum(p[..K]) == 0
    requires forall i :: k <= i < K ==> Sum(p[..i]) != 0
    ensures FirstZeroFrom(p, k) == K
    decreases K - k
  {
    if k < K {
      FirstZeroFromAt(p, k + 1, K);
    }
  }

  /** Wrapping two Dyck paths gives a Dyck path whose first return is right after the arch. */
  lemma {:induction false} WrappedIsDyck(a: seq<int>, b: seq<int>)
    requires IsDyckPath(a) && IsDyckPath(b)
    ensures IsDyckPath(Wrapped(a, b))
    ensures FirstReturn(Wrapped(a, b)) == |a| + 2
  {
    var p := Wrapped(a, b);
    var arch := [1] + a + [-1];
    assert Sum([1]) == 1 && Sum([-1]) == -1;
    SumConcat([1], a);
    SumConcat([1] + a, [-1]);
    assert Sum(arch) == 0;
    forall k | 0 <= k <= |p|
      ensures Sum(p[..k]) >= 0
      ensures 1 <= k <= |a| + 1 ==> Sum(p[..k]) >= 1
    {
      if 1 <= k <= |a| + 1 {
        assert p[..k] == [1] + a[..k - 1];
        SumConcat([1], a[..k - 1]);
      } else if k >= |a| + 2 {
        assert p[..k] == arch + b[..k - |a| - 2];
        SumConcat(arch, b[..k - |a| - 2]);
      }
    }
    assert p[..|p|] == p;
    assert p == arch + b;
    SumConcat(arch, b);
    assert p[..|a| + 2] == arch;
    FirstZeroFromAt(p, 1, |a| + 2);
  }

  /** Two wrapped paths with arches of equal length are equal only if arches and tails are. */
  lemma WrappedInjective(a: seq<int>, b: seq<int>, a': seq<int>, b': seq<int>)
    requires |a| == |a'| && Wrapped(a, b) == Wrapped(a', b')
    ensures a == a' && b == b'
  {
    var p := Wrapped(a, b);
    assert a == p[1..|a| + 1] && a' == p[1..|a| + 1];
    assert b == p[|a| + 2..] && b' == p[|a| + 2..];
  }

  /** Wrapping Dyck paths of half-lengths i and m - 1 - i gives Dyck paths of half-length m returning first at 2i + 2. */
  lemma {:induction false} WrapEntries(arches: seq<seq<int>>, tails: seq<seq<int>>, i: nat, rest: nat)
    requires forall t :: 0 <= t < |arches| ==> |arches[t]| == 2 * i && IsDyckPath(arches[t])
    requires forall t :: 0 <= t < |tails| ==> |tails[t]| == 2 * rest && IsDyckPath(tails[t])
    ensures forall t :: 0 <= t < |Wrap(arches, tails)| ==>
              && |Wrap(arches, tails)[t]| == 2 * (i + rest + 1)
              && IsDyckPath(Wrap(arches, tails)[t])
              && FirstReturn(Wrap(arches, tails)[t]) == 2 * i + 2
    decreases |arches|
  {
    if |arches| > 0 {
      WrapEntries(arches[1..], tails, i, rest);
      var w := Wrap(arches, tails);
      forall t | 0 <= t < |w|
        ensures |w[t]| == 2 * (i + rest + 1) && IsDyckPath(w[t]) && FirstReturn(w[t]) == 2 * i + 2
      {
        if t < |tails| {
          assert w[t] == Wrapped(arches[0], tails[t]);
          WrappedIsDyck(arches[0], tails[t]);
        } else {
          assert w[t] == Wrap(arches[1..], tails)[t - |tails|];
        }
      }
    }
  }

  /** The arch of every wrapped path is one of the arches it was built from. */
  lemma {:induction false} WrapArches(arches: seq<seq<int>>, tails: seq<seq<int>>, len: nat)
    requires forall t :: 0 <= t < |arches| ==> |arches[t]| == len
    ensures forall t :: 0 <= t < |Wrap(arches, tails)| ==>
              len + 1 <= |Wrap(arches, tails)[t]| && Wrap(arches, tails)[t][1..len + 1] in arches
    decreases |arches|
  {
    if |arches| > 0 {
      WrapArches(arches[1..], tails, len);
      var w := Wrap(arches, tails);
      forall t | 0 <= t < |w| ensures len + 1 <= |w[t]| && w[t][1..len + 1] in arches {
        if t < |tails| {
          assert w[t] == Wrapped(arches[0], tails[t]);
          assert w[t][1..len + 1] == arches[0];
        } else {
          assert w[t] == Wrap(arches[1..], tails)[t - |tails|];
          assert w[t][1..len + 1] in arches[1..];
        }
      }
    }
  }

  lemma {:induction false} WrapDistinct(arches: seq<seq<int>>, tails: seq<seq<int>>, len: nat)
    requires Distinct(arches) && Distinct(tails)
    requires forall t :: 0 <= t < |arches| ==> |arches[t]| == len
    ensures Distinct(Wrap(arches, tails))
    decreases |arches|
  {
    if |arches| > 0 {
      WrapDistinct(arches[1..], tails, len);
      WrapArches(arches[1..], tails, len);
      var w := Wrap(arches, tails);
      forall x, y | 0 <= x < y < |w| ensures w[x] != w[y] {
        if y < |tails| {
          assert w[x] == Wrapped(arches[0], tails[x]) && w[y] == Wrapped(arches[0], tails[y]);
          if w[x] == w[y] {
            WrappedInjective(arches[0], tails[x], arches[0], tails[y]);
          }
        } else if x >= |tails| {
          assert w[x] == Wrap(arches[1..], tails)[x - |tails|];
          assert w[y] == Wrap(arches[1..], tails)[y - |tails|];
        } else {
          assert w[x] == Wrapped(arches[0], tails[x]);
          assert w[x][1..len + 1] == arches[0];
          assert w[y] == Wrap(arches[1..], tails)[y - |tails|];
          assert arches[0] !in arches[1..];
        }
      }
    }
  }

  lemma {:induction false} DyckSize(m: nat)
    ensures |Dyck(m)| == Catalan(m)
    decreases m, 2
  {
    if m > 0 {
      DyckSplitSize(m, m);
    }
  }

  lemma {:induction false} DyckSplitSize(m: nat, j: nat)
    requires 1 <= m && j <= m
    ensures |DyckSplit(m, j)| == CatalanSplit(m, j)
    decreases m, 1, j
  {
    if j > 0 {
      DyckSize(j - 1);
      DyckSize(m - j);
      DyckSplitSize(m, j - 1);
    }
  }

  /** Every entry of the table is a Dyck path of half-length m. */
  lemma {:induction false} DyckEntries(m: nat)
    ensures forall t :: 0 <= t < |Dyck(m)| ==> |Dyck(m)[t]| == 2 * m && IsDyckPath(Dyck(m)[t])
    decreases m, 2
  {
    if m == 0 {
      var empty: seq<int> := [];
      assert empty[..0] == empty;
    } else {
      DyckSplitEntries(m, m);
    }
  }

  lemma {:induction false} DyckSplitEntries(m: nat, j: nat)
    requires 1 <= m && j <= m
    ensures forall t :: 0 <= t < |DyckSplit(m, j)| ==>
              && |DyckSplit(m, j)[t]| == 2 * m
              && IsDyckPath(DyckSplit(m, j)[t])
              && 2 <= FirstReturn(DyckSplit(m, j)[t]) <= 2 * j
    decreases m, 1, j
  {
    if j > 0 {
      DyckEntries(j - 1);
      DyckEntries(m - j);
      DyckSplitEntries(m, j - 1);
      WrapEntries(Dyck(j - 1), Dyck(m - j), j - 1, m - j);
      var w := Wrap(Dyck(j - 1), Dyck(m - j));
      var s := DyckSplit(m, j);
      forall t | 0 <= t < |s|
        ensures |s[t]| == 2 * m && IsDyckPath(s[t]) && 2 <= FirstReturn(s[t]) <= 2 * j
      {
        if t < |w| {
          assert s[t] == w[t];
        } else {
          assert s[t] == DyckSplit(m, j - 1)[t - |w|];
        }
      }
    }
  }

  /** No Dyck path is listed twice. */
  lemma {:induction false} DyckDistinct(m: nat)
    ensures Distinct(Dyck(m))
    decreases m, 2
  {
    if m > 0 {
      DyckSplitDistinct(m, m);
    }
  }

  lemma {:induction false} DyckSplitDistinct(m: nat, j: nat)
    requires 1 <= m && j <= m
    ensures Distinct(DyckSplit(m, j))
    decreases m, 1, j
  {
    if j > 0 {
      DyckDistinct(j - 1);
      DyckDistinct(m - j);
      DyckSplitDistinct(m, j - 1);
      DyckEntries(j - 1);
      DyckEntries(m - j);
      DyckSplitEntries(m, j - 1);
      WrapEntries(Dyck(j - 1), Dyck(m - j), j - 1, m - j);
      WrapDistinct(Dyck(j - 1), Dyck(m - j), 2 * (j - 1));
      var w := Wrap(Dyck(j - 1), Dyck(m - j));
      var rest := DyckSplit(m, j - 1);
      var s := DyckSplit(m, j);
      forall x, y | 0 <= x < y < |s| ensures s[x] != s[y] {
        if y < |w| {
          assert s[x] == w[x] && s[y] == w[y];
        } else if x >= |w| {
          assert s[x] == rest[x - |w|] && s[y] == rest[y - |w|];
        } else {
          assert s[x] == w[x] && FirstReturn(w[x]) == 2 * j;
          assert s[y] == rest[y - |w|] && FirstReturn(rest[y - |w|]) <= 2 * (j - 1);
        }
      }
    }
  }

  /** A Dyck-path iterator: the half-length and the position in the table. */
  datatype DyckDigit = DyckDigit(half: nat, index: nat) {

    /** `reset(m)`: the first Dyck path of half-length m, m up-steps followed by m down-steps. */
    function Reset(half': nat): (r: DyckDigit)
      ensures r.half == half' && !r.IsAtEnd()
      ensures r.Value() == Mountain(half')
    {
      CatalanPositive(half');
      DyckFirst(half');
      DyckDigit(half', 0)
    }

    /** `++`: the next path in the table, never the one just produced. */
    function Next(): (r: DyckDigit)
      ensures r.half == half
      ensures !IsAtEnd() && !r.IsAtEnd() ==> r.Value() != Value()
    {
      DyckDistinct(half);
      DyckSize(half);
      this.(index := index + 1)
    }

    /** `is_at_end`: every Dyck path in the table has been produced. */
    predicate IsAtEnd()
      ensures IsAtEnd() <==> index >= |Dyck(half)|
    {
      DyckSize(half);
      index >= Catalan(half)
    }

    /** `*it`: the current Dyck path. */
    function Value(): (p: seq<int>)
      requires !IsAtEnd()
      ensures |p| == 2 * half && IsDyckPath(p)
    {
      DyckSize(half);
      DyckEntries(half);
      Dyck(half)[index]
    }
  }

  /** The first Dyck path of each table is the mountain: its first arch is as large as it can be. */
  lemma {:induction false} DyckFirst(m: nat)
    ensures |Dyck(m)| > 0 && Dyck(m)[0] == Mountain(m)
    decreases m
  {
    if m > 0 {
      DyckFirst(m - 1);
      var arches := Dyck(m - 1);
      assert Dyck(m) == Wrap(arches, Dyck(0)) + DyckSplit(m, m - 1);
      assert Wrap(arches, Dyck(0)) == Lift(arches[0], [[]]) + Wrap(arches[1..], Dyck(0));
      assert Dyck(m)[0] == [1] + Mountain(m - 1) + [-1];
    }
  }

  /** Different positions of the same table hold different paths. */
  lemma DyckValueInjective(a: DyckDigit, b: DyckDigit)
    requires a.half == b.half && !a.IsAtEnd() && !b.IsAtEnd()
    requires a.Value() == b.Value()
    ensures a == b
  {
    DyckDistinct(a.half);
    DyckSize(a.half);
  }

  /** The two Dyck paths of half-length 2, in the order the iterator yields them. */
  lemma DyckOfHalfLengthTwo()
    ensures Dyck(1) == [[1, -1]]
    ensures Dyck(2) == [[1, 1, -1, -1], [1, -1, 1, -1]]
  {
    assert Lift([], [[]])[0] == [1, -1];
    assert Dyck(1) == [[1, -1]];
    assert Lift([1, -1], [[]])[0] == [1, 1, -1, -1];
    assert Lift([], [[1, -1]])[0] == [1, -1, 1, -1];
  }
}
