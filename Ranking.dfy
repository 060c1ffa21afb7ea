/// The counting behind the Motzkin iterator. A position of the iterator is
/// three digits: `half`, half the number of non-flat steps; the index of the
/// Dyck path those steps follow; the index of the set of positions they
/// occupy. Ranks run through all positions with the combination digit
/// varying fastest and `half` slowest, so the rank of a position is a
/// mixed-radix number whose radices depend on `half`.
module Ranking {
  import opened Combinations
  import opened DyckPaths
  import Misc

  /** The three digits of an iterator position. */
  datatype Digits = Digits(half: nat, dyckIndex: nat, combIndex: nat)

  /**
    * The number of length-n Motzkin paths with fewer than 2d non-flat
    * steps: the sum over k < d of C(n, 2k) * Catalan(k).
    */
  function Offset(n: nat, d: nat): nat {
    if d == 0 then 0 else Offset(n, d - 1) + Binomial(n, 2 * (d - 1)) * Catalan(d - 1)
  }

  /**
    * `motzkin(n)`: the number of Motzkin paths of length n, the sum over
    * 2k <= n of C(n, 2k) * Catalan(k). There is always at least the path
    * of level steps.
    */
  function MotzkinNumber(n: nat): (m: nat)
    ensures m >= 1
  {
    assert Offset(n, 1) == 1;
    OffsetMonotone(n, 1, n / 2 + 1);
    Offset(n, n / 2 + 1)
  }

  lemma {:induction false} OffsetMonotone(n: nat, d: nat, e: nat)
    requires d <= e
    ensures Offset(n, d) <= Offset(n, e)
    decreases e
  {
    if d < e {
      OffsetMonotone(n, d, e - 1);
    }
  }

  /** Beyond half the length there are no more non-flat pairs to add. */
  lemma {:induction false} OffsetSaturates(n: nat, d: nat)
    requires 2 * d > n
    ensures Offset(n, d) == MotzkinNumber(n)
    decreases d
  {
    if d > n / 2 + 1 {
      BinomialVanishes(n, 2 * (d - 1));
      OffsetSaturates(n, d - 1);
    }
  }

  /** A position is valid: its half fits the length and both indices are inside their tables. */
  ghost predicate InRange(n: nat, p: Digits) {
    && 2 * p.half <= n
    && p.dyckIndex < Catalan(p.half)
    && p.combIndex < Binomial(n, 2 * p.half)
  }

  /** The rank of a position: the paths with a smaller half, then whole rounds of the combination digit, then the combination index. */
  function Rank(n: nat, p: Digits): nat {
    Offset(n, p.half) + p.dyckIndex * Binomial(n, 2 * p.half) + p.combIndex
  }

  /** A valid position ranks among the paths with its own half. */
  lemma RankWithinHalf(n: nat, p: Digits)
    requires InRange(n, p)
    ensures Offset(n, p.half) <= Rank(n, p) < Offset(n, p.half + 1)
  {
    var b, c := Binomial(n, 2 * p.half), Catalan(p.half);
    Misc.MulLeft(p.dyckIndex, c - 1, b);
    assert (c - 1) * b + b == b * c;
  }

  /** Every valid position has a rank below motzkin(n). */
  lemma RankBelowMotzkin(n: nat, p: Digits)
    requires InRange(n, p)
    ensures Rank(n, p) < MotzkinNumber(n)
  {
    RankWithinHalf(n, p);
    OffsetMonotone(n, p.half + 1, n / 2 + 1);
  }

  /** A rank below motzkin(n) that has passed Offset(n, d) leaves room for 2d steps. */
  lemma HalfFits(n: nat, d: nat, r: nat)
    requires Offset(n, d) <= r < MotzkinNumber(n)
    ensures 2 * d <= n
  {
    if 2 * d > n {
      OffsetSaturates(n, d);
    }
  }

  /**
    * One `++` of the odometer. The combination digit advances; when it runs
    * out, the Dyck digit advances and the combination digit starts over at
    * size 2 * half; when the Dyck digit runs out too, half grows by one and
    * the Dyck digit starts over at the new half-length.
    */
  function Successor(n: nat, p: Digits): (q: Digits)
    ensures q.half == p.half || q.half == p.half + 1
    ensures q.half == p.half + 1 <==>
              p.combIndex + 1 >= Binomial(n, 2 * p.half) && p.dyckIndex + 1 >= Catalan(p.half)
    ensures p.combIndex + 1 >= Binomial(n, 2 * p.half) ==> q.combIndex == 0
    ensures p.combIndex + 1 < Binomial(n, 2 * p.half) ==> q == p.(combIndex := p.combIndex + 1)
  {
    if p.combIndex + 1 < Binomial(n, 2 * p.half) then
      p.(combIndex := p.combIndex + 1)
    else if p.dyckIndex + 1 < Catalan(p.half) then
      Digits(p.half, p.dyckIndex + 1, 0)
    else
      Digits(p.half + 1, 0, 0)
  }

  /**
    * Every `++` before the end moves to the position of the next rank, and
    * that position is valid: the carries never run a digit off its table.
    */
  lemma SuccessorRank(n: nat, p: Digits)
    requires InRange(n, p) && Rank(n, p) + 1 < MotzkinNumber(n)
    ensures InRange(n, Successor(n, p))
    ensures Rank(n, Successor(n, p)) == Rank(n, p) + 1
  {
    var b, c := Binomial(n, 2 * p.half), Catalan(p.half);
    if p.combIndex + 1 < b {
    } else if p.dyckIndex + 1 < c {
      assert (p.dyckIndex + 1) * b == p.dyckIndex * b + b;
    } else {
      var d := p.half + 1;
      assert Offset(n, d) == Rank(n, p) + 1 by {
        assert p.dyckIndex + 1 == c && p.combIndex + 1 == b;
        assert (p.dyckIndex + 1) * b == p.dyckIndex * b + b;
        assert Offset(n, d) == Offset(n, p.half) + b * c;
      }
      HalfFits(n, d, Rank(n, p) + 1);
      CatalanPositive(d);
      BinomialPositive(n, 2 * d);
    }
  }

  /** Different valid positions have different ranks. */
  lemma RankInjective(n: nat, p: Digits, q: Digits)
    requires InRange(n, p) && InRange(n, q) && Rank(n, p) == Rank(n, q)
    ensures p == q
  {
    RankWithinHalf(n, p);
    RankWithinHalf(n, q);
    if p.half < q.half {
      OffsetMonotone(n, p.half + 1, q.half);
    } else if q.half < p.half {
      OffsetMonotone(n, q.half + 1, p.half);
    } else {
      var b := Binomial(n, 2 * p.half);
      var t := p.dyckIndex * b + p.combIndex;
      Misc.DivModOf(t, b, p.dyckIndex, p.combIndex);
      Misc.DivModOf(t, b, q.dyckIndex, q.combIndex);
    }
  }

  /** The position of rank r: the inverse of Rank. */
  function Unrank(n: nat, r: nat): (p: Digits)
    requires r < MotzkinNumber(n)
    ensures InRange(n, p) && Rank(n, p) == r
  {
    UnrankFrom(n, r, 0)
  }

  /** The position of rank r, searching the halves from d upwards. */
  function UnrankFrom(n: nat, r: nat, d: nat): (p: Digits)
    requires Offset(n, d) <= r < MotzkinNumber(n)
    ensures InRange(n, p) && Rank(n, p) == r
    decreases n - 2 * d
  {
    HalfFits(n, d, r);
    if r < Offset(n, d + 1) then
      var b := Binomial(n, 2 * d);
      var q := r - Offset(n, d);
      BinomialPositive(n, 2 * d);
      QuotientBelow(q, b, Catalan(d));
      Digits(d, q / b, q % b)
    else
      UnrankFrom(n, r, d + 1)
  }

  lemma QuotientBelow(q: nat, b: nat, c: nat)
    requires b > 0 && q < b * c
    ensures q / b < c
  {
    if q / b >= c {
      Misc.MulLeft(c, q / b, b);
      assert false;
    }
  }

  /** Unranking the rank of a valid position gives that position back. */
  lemma UnrankRank(n: nat, p: Digits)
    requires InRange(n, p)
    ensures Rank(n, p) < MotzkinNumber(n)
    ensures Unrank(n, Rank(n, p)) == p
  {
    RankBelowMotzkin(n, p);
    RankInjective(n, p, Unrank(n, Rank(n, p)));
  }

  /** The first Motzkin numbers, as counted by the odometer. */
  lemma MotzkinValues()
    ensures MotzkinNumber(0) == 1 && MotzkinNumber(1) == 1
    ensures MotzkinNumber(2) == 2 && MotzkinNumber(3) == 4
  {
    CatalanValues();
    BinomialValues();
    assert Offset(0, 1) == 1 && Offset(1, 1) == 1 && Offset(2, 1) == 1 && Offset(3, 1) == 1;
    assert MotzkinNumber(2) == Offset(2, 2) == 1 + Binomial(2, 2) * Catalan(1);
    assert MotzkinNumber(3) == Offset(3, 2) == 1 + Binomial(3, 2) * Catalan(1);
  }

  /** There are nine Motzkin paths of length 4. */
  lemma MotzkinOfFour()
    ensures MotzkinNumber(4) == 9
  {
    CatalanValues();
    BinomialValues();
  }

  lemma BinomialValues()
    ensures Binomial(2, 2) == 1 && Binomial(3, 2) == 3
    ensures Binomial(4, 2) == 6 && Binomial(4, 4) == 1
  {
    assert Binomial(1, 2) == 0 && Binomial(2, 3) == 0 && Binomial(3, 4) == 0;
    assert Binomial(1, 1) == 1 && Binomial(2, 2) == 1 && Binomial(3, 3) == 1;
    assert Binomial(2, 1) == 2 && Binomial(3, 1) == 3 && Binomial(3, 2) == 3;
  }
}
