/// The combinations collaborator of the Motzkin iterator. Its implementation
/// is not part of this model; only the interface the iterator uses is: a
/// digit that indexes a fixed table of the k-subsets of {0, ..., n-1}, each
/// subset listed in increasing order and the table in colexicographic order
/// ({0,1}, {0,2}, {1,2}, {0,3}, ... for k = 2), with reset, advance, an end
/// test and dereference.
module Combinations {
  import opened Sequences

  /** The number of k-subsets of an n-set, by Pascal's rule. */
  function Binomial(n: nat, k: nat): nat {
    if k == 0 then 1 else if n == 0 then 0 else Binomial(n - 1, k) + Binomial(n - 1, k - 1)
  }

  lemma {:induction false} BinomialPositive(n: nat, k: nat)
    requires k <= n
    ensures Binomial(n, k) >= 1
    decreases n
  {
    if k > 0 {
      BinomialPositive(n - 1, k - 1);
    }
  }

  lemma {:induction false} BinomialVanishes(n: nat, k: nat)
    requires k > n
    ensures Binomial(n, k) == 0
    decreases n
  {
    if n > 0 {
      BinomialVanishes(n - 1, k);
      BinomialVanishes(n - 1, k - 1);
    }
  }

  /** There is exactly one way to choose all n elements. */
  lemma {:induction false} BinomialDiagonal(n: nat)
    ensures Binomial(n, n) == 1
    decreases n
  {
    if n > 0 {
      BinomialDiagonal(n - 1);
      BinomialVanishes(n - 1, n);
    }
  }

  /** `c` lists a k-subset of {0, ..., n-1} in increasing order. */
  ghost predicate IsCombination(c: seq<nat>, n: nat, k: nat) {
    && |c| == k
    && (forall i :: 0 <= i < |c| ==> c[i] < n)
    && StrictlyIncreasing(c)
  }

  /** The only n-subset of {0, ..., n-1} is the whole set, listed in order. */
  lemma FullCombination(c: seq<nat>, n: nat)
    requires IsCombination(c, n, n)
    ensures forall i :: 0 <= i < n ==> c[i] == i
  {
    forall i | 0 <= i < n ensures c[i] == i {
      AtLeastIndex(c, i);
      RoomAbove(c, n, i);
    }
  }

  lemma {:induction false} AtLeastIndex(c: seq<nat>, i: nat)
    requires StrictlyIncreasing(c) && i < |c|
    ensures c[i] >= i
    decreases i
  {
    if i > 0 {
      AtLeastIndex(c, i - 1);
    }
  }

  lemma {:induction false} RoomAbove(c: seq<nat>, n: nat, i: nat)
    requires StrictlyIncreasing(c) && i < |c|
    requires forall j :: 0 <= j < |c| ==> c[j] < n
    ensures c[i] + (|c| - 1 - i) < n
    decreases |c| - i
  {
    if i < |c| - 1 {
      RoomAbove(c, n, i + 1);
    }
  }

  /** Each subset of `t` with the element `x` added at the top. */
  function Extend(t: seq<seq<nat>>, x: nat): (r: seq<seq<nat>>)
    ensures |r| == |t|
    ensures forall i :: 0 <= i < |t| ==> r[i] == t[i] + [x]
  {
    seq(|t|, i requires 0 <= i < |t| => t[i] + [x])
  }

  /**
    * The k-subsets of {0, ..., n-1} in colexicographic order: first those
    * that avoid n-1, then those that contain it.
    */
  function Colex(n: nat, k: nat): seq<seq<nat>> {
    if k == 0 then [[]]
    else if n == 0 then []
    else Colex(n - 1, k) + Extend(Colex(n - 1, k - 1), n - 1)
  }

  lemma {:induction false} ColexSize(n: nat, k: nat)
    ensures |Colex(n, k)| == Binomial(n, k)
    decreases n
  {
    if k > 0 && n > 0 {
      ColexSize(n - 1, k);
      ColexSize(n - 1, k - 1);
    }
  }

  lemma {:induction false} ColexEntries(n: nat, k: nat)
    ensures forall t :: 0 <= t < |Colex(n, k)| ==> IsCombination(Colex(n, k)[t], n, k)
    decreases n
  {
    if k > 0 && n > 0 {
      ColexEntries(n - 1, k);
      ColexEntries(n - 1, k - 1);
      var avoid, contain := Colex(n - 1, k), Colex(n - 1, k - 1);
      forall t | 0 <= t < |Colex(n, k)| ensures IsCombination(Colex(n, k)[t], n, k) {
        if t >= |avoid| {
          var c := contain[t - |avoid|];
          assert Colex(n, k)[t] == c + [n - 1];
          assert IsCombination(c, n - 1, k - 1);
        }
      }
    }
  }

  /** No subset is listed twice. */
  lemma {:induction false} ColexDistinct(n: nat, k: nat)
    ensures Distinct(Colex(n, k))
    decreases n
  {
    if k > 0 && n > 0 {
      ColexDistinct(n - 1, k);
      ColexDistinct(n - 1, k - 1);
      ColexEntries(n - 1, k);
      ColexEntries(n - 1, k - 1);
      var avoid, contain := Colex(n - 1, k), Colex(n - 1, k - 1);
      var all := Colex(n, k);
      forall i, j | 0 <= i < j < |all| ensures all[i] != all[j] {
        if j < |avoid| {
        } else if i >= |avoid| {
          assert all[i] == contain[i - |avoid|] + [n - 1];
          assert all[j] == contain[j - |avoid|] + [n - 1];
          assert all[i][..k - 1] == contain[i - |avoid|];
          assert all[j][..k - 1] == contain[j - |avoid|];
        } else {
          assert IsCombination(avoid[i], n - 1, k);
          assert all[j][k - 1] == n - 1;
        }
      }
    }
  }

  /**
    * A combination iterator: the domain size `n`, the subset size `k` and
    * the position `index` in the table of k-subsets.
    */
  datatype CombDigit = CombDigit(n: nat, k: nat, index: nat) {

    /**
      * `reset(n, k)`: the first k-subset of {0, ..., n-1}, which is
      * {0, ..., k-1}; there is none when k > n.
      */
    function Reset(n': nat, k': nat): (r: CombDigit)
      ensures r.n == n' && r.k == k'
      ensures !r.IsAtEnd() <==> k' <= n'
      ensures !r.IsAtEnd() ==> forall i :: 0 <= i < k' ==> r.Value()[i] == i
    {
      if k' <= n' then
        BinomialPositive(n', k');
        ColexFirst(n', k');
        ColexSize(n', k');
        CombDigit(n', k', 0)
      else
        BinomialVanishes(n', k');
        CombDigit(n', k', 0)
    }

    /** `++`: the next subset in the table, never the one just produced. */
    function Next(): (r: CombDigit)
      ensures r.n == n && r.k == k
      ensures !IsAtEnd() && !r.IsAtEnd() ==> r.Value() != Value()
    {
      ColexDistinct(n, k);
      ColexSize(n, k);
      this.(index := index + 1)
    }

    /** `is_at_end`: every k-subset in the table has been produced. */
    predicate IsAtEnd()
      ensures IsAtEnd() <==> index >= |Colex(n, k)|
    {
      ColexSize(n, k);
      index >= Binomial(n, k)
    }

    /** `*it`: the current subset, in increasing order. */
    function Value(): (c: seq<nat>)
      requires !IsAtEnd()
      ensures IsCombination(c, n, k)
    {
      ColexSize(n, k);
      ColexEntries(n, k);
      Colex(n, k)[index]
    }
  }

  /** The first k-subset in colexicographic order is {0, ..., k-1}. */
  lemma {:induction false} ColexFirst(n: nat, k: nat)
    requires k <= n
    ensures |Colex(n, k)| > 0 && |Colex(n, k)[0]| == k
    ensures forall i :: 0 <= i < k ==> Colex(n, k)[0][i] == i
    decreases n
  {
    if k == n {
      OnlyFullSubset(n);
    } else if k > 0 {
      var avoid := Colex(n - 1, k);
      assert |avoid| > 0 && |avoid[0]| == k && forall i :: 0 <= i < k ==> avoid[0][i] == i by {
        ColexFirst(n - 1, k);
      }
      assert Colex(n, k) == avoid + Extend(Colex(n - 1, k - 1), n - 1);
    }
  }

  /** The table of n-subsets of {0, ..., n-1} holds the whole set alone. */
  lemma OnlyFullSubset(n: nat)
    ensures |Colex(n, n)| == 1 && |Colex(n, n)[0]| == n
    ensures forall i :: 0 <= i < n ==> Colex(n, n)[0][i] == i
  {
    ColexSize(n, n);
    BinomialDiagonal(n);
    ColexEntries(n, n);
    FullCombination(Colex(n, n)[0], n);
  }

  /** Different positions of the same table hold different subsets. */
  lemma CombValueInjective(a: CombDigit, b: CombDigit)
    requires a.n == b.n && a.k == b.k && !a.IsAtEnd() && !b.IsAtEnd()
    requires a.Value() == b.Value()
    ensures a == b
  {
    ColexDistinct(a.n, a.k);
    ColexSize(a.n, a.k);
  }

  /** The 1-subsets come in increasing order: the i-th one is {i}. */
  lemma {:induction false} ColexSingletons(n: nat)
    ensures |Colex(n, 1)| == n
    ensures forall i :: 0 <= i < n ==> Colex(n, 1)[i] == [i]
    decreases n
  {
    if n > 0 {
      var front, top := Colex(n - 1, 1), Extend(Colex(n - 1, 0), n - 1);
      assert |front| == n - 1 && forall i :: 0 <= i < n - 1 ==> front[i] == [i] by {
        ColexSingletons(n - 1);
      }
      assert |top| == 1 && top[0] == [n - 1] by {
        assert Colex(n - 1, 0)[0] == [];
      }
      assert Colex(n, 1) == front + top;
    }
  }

  lemma {:induction false} BinomialOne(n: nat)
    ensures Binomial(n, 1) == n
    decreases n
  {
    if n > 0 {
      BinomialOne(n - 1);
    }
  }

  /** Pairs with larger element b fill the positions from C(b, 2) up to C(b + 1, 2). */
  lemma {:induction false} PairPositionBound(n: nat, a: nat, b: nat)
    requires a < b < n
    ensures Binomial(b, 2) + a < Binomial(n, 2)
    decreases n
  {
    assert Binomial(n, 2) == Binomial(n - 1, 2) + Binomial(n - 1, 1);
    BinomialOne(n - 1);
    if b < n - 1 {
      PairPositionBound(n - 1, a, b);
    }
  }

  /**
    * The 2-subsets come ordered by their larger element, then by their
    * smaller one: {a, b} with a < b sits at position C(b, 2) + a.
    */
  lemma {:induction false} ColexPairs(n: nat, a: nat, b: nat)
    requires a < b < n
    ensures Binomial(b, 2) + a < Binomial(n, 2) == |Colex(n, 2)|
    ensures Colex(n, 2)[Binomial(b, 2) + a] == [a, b]
    decreases n
  {
    PairPositionBound(n, a, b);
    ColexSize(n, 2);
    if b < n - 1 {
      var t, front := Binomial(b, 2) + a, Colex(n - 1, 2);
      assert t < |front| && front[t] == [a, b] by {
        ColexPairs(n - 1, a, b);
      }
      assert Colex(n, 2) == front + Extend(Colex(n - 1, 1), n - 1);
      assert Colex(n, 2)[t] == front[t];
    } else {
      PairsWithTop(b, a);
    }
  }

  /** The pairs whose larger element is b come after the C(b, 2) pairs below b, ordered by the smaller one. */
  lemma PairsWithTop(b: nat, a: nat)
    requires a < b
    ensures Binomial(b, 2) + a < |Colex(b + 1, 2)|
    ensures Colex(b + 1, 2)[Binomial(b, 2) + a] == [a, b]
  {
    var front, back := Colex(b, 2), Extend(Colex(b, 1), b);
    assert Colex(b + 1, 2) == front + back;
    assert |back| == b && back[a] == [a, b] by {
      ColexSingletons(b);
    }
    ColexSize(b, 2);
    assert Colex(b + 1, 2)[|front| + a] == back[a];
  }
}
