/// The Motzkin path enumerator `basic_motzkin_paths`: its forward iterator,
/// which runs the three-digit odometer of module Ranking and decodes every
/// position into a path with the step of module Decoding, the range object
/// holding the `begin` and `end` iterators, and `to_string`.
module Motzkin {
  import opened Sequences
  import opened LatticePaths
  import opened Combinations
  import opened DyckPaths
  import opened Ranking
  import opened Decoding

  /** The path of length n an iterator shows at position p. */
  function PathOf(n: nat, p: Digits): (path: seq<int>)
    requires InRange(n, p)
    ensures |path| == n && IsMotzkinPath(path)
  {
    var positions := CombDigit(n, 2 * p.half, p.combIndex).Value();
    var steps := DyckDigit(p.half, p.dyckIndex).Value();
    DecodedIsMotzkin(n, positions, steps);
    Decoded(n, positions, steps)
  }

  /** The r-th path of length n in the order of the iterator. */
  function PathAt(n: nat, r: nat): (path: seq<int>)
    requires r < MotzkinNumber(n)
    ensures |path| == n && IsMotzkinPath(path)
  {
    PathOf(n, Unrank(n, r))
  }

  /** Every path the iterator yields for length n, in order. */
  function Enumeration(n: nat): (paths: seq<seq<int>>)
    ensures |paths| == MotzkinNumber(n)
  {
    seq(MotzkinNumber(n), r requires 0 <= r < MotzkinNumber(n) => PathAt(n, r))
  }

  /** The path at a position has exactly 2 * half non-level steps, at the positions of its combination. */
  lemma PathOfNonLevel(n: nat, p: Digits)
    requires InRange(n, p)
    ensures |Support(PathOf(n, p))| == 2 * p.half
    ensures Support(PathOf(n, p)) == Elements(CombDigit(n, 2 * p.half, p.combIndex).Value())
  {
    var steps := DyckDigit(p.half, p.dyckIndex).Value();
    assert forall i :: 0 <= i < |steps| ==> steps[i] != 0;
    DecodedSupport(n, CombDigit(n, 2 * p.half, p.combIndex).Value(), steps);
  }

  /** Different positions decode to different paths. */
  lemma PathOfInjective(n: nat, p: Digits, q: Digits)
    requires InRange(n, p) && InRange(n, q)
    requires PathOf(n, p) == PathOf(n, q)
    ensures p == q
  {
    var a, b := CombDigit(n, 2 * p.half, p.combIndex), CombDigit(n, 2 * q.half, q.combIndex);
    var u, v := DyckDigit(p.half, p.dyckIndex), DyckDigit(q.half, q.dyckIndex);
    assert forall i :: 0 <= i < |u.Value()| ==> u.Value()[i] != 0;
    assert forall i :: 0 <= i < |v.Value()| ==> v.Value()[i] != 0;
    DecodedInjective(n, a.Value(), u.Value(), b.Value(), v.Value());
    CombValueInjective(a, b);
    DyckValueInjective(u, v);
  }

  /** Different ranks give different paths. */
  lemma PathAtInjective(n: nat, i: nat, j: nat)
    requires i < MotzkinNumber(n) && j < MotzkinNumber(n)
    requires PathAt(n, i) == PathAt(n, j)
    ensures i == j
  {
    PathOfInjective(n, Unrank(n, i), Unrank(n, j));
  }

  /**
    * The enumeration holds motzkin(n) Motzkin paths of length n and yields
    * none of them twice.
    */
  lemma EnumerationDistinct(n: nat)
    ensures |Enumeration(n)| == MotzkinNumber(n)
    ensures forall i :: 0 <= i < |Enumeration(n)| ==> |Enumeration(n)[i]| == n && IsMotzkinPath(Enumeration(n)[i])
    ensures Distinct(Enumeration(n))
  {
    var paths := Enumeration(n);
    forall i, j | 0 <= i < j < |paths| ensures paths[i] != paths[j] {
      if paths[i] == paths[j] {
        PathAtInjective(n, i, j);
      }
    }
  }

  /** The paths of the first k ranks, in order. */
  function FirstPaths(n: nat, k: nat): (paths: seq<seq<int>>)
    requires k <= MotzkinNumber(n)
    ensures |paths| == k
  {
    if k == 0 then [] else FirstPaths(n, k - 1) + [PathAt(n, k - 1)]
  }

  /** The paths of all ranks make up the enumeration. */
  lemma FirstPathsAll(n: nat, k: nat)
    requires k == MotzkinNumber(n)
    ensures FirstPaths(n, k) == Enumeration(n)
  {
    FirstPathsAt(n, k);
  }

  lemma {:induction false} FirstPathsAt(n: nat, k: nat)
    requires k <= MotzkinNumber(n)
    ensures forall r :: 0 <= r < k ==> FirstPaths(n, k)[r] == PathAt(n, r)
    decreases k
  {
    if k > 0 {
      FirstPathsAt(n, k - 1);
      var front := FirstPaths(n, k - 1);
      assert FirstPaths(n, k) == front + [PathAt(n, k - 1)];
      forall r | 0 <= r < k
        ensures FirstPaths(n, k)[r] == PathAt(n, r)
      {
        if r < k - 1 {
          assert FirstPaths(n, k)[r] == front[r];
        }
      }
    }
  }

  /** The first path is the level one. */
  lemma FirstPathIsLevel(n: nat)
    ensures PathAt(n, 0) == Zeros(n)
  {
    assert Offset(n, 1) == 1;
    assert Unrank(n, 0) == Digits(0, 0, 0);
  }

  /**
    * After the level path come the paths with one arch: the path with its
    * up-step at a and its down-step at b (a < b) has rank 1 + C(b, 2) + a.
    */
  lemma PathsWithOneArch(n: nat, a: nat, b: nat)
    requires a < b < n
    ensures 1 + Binomial(b, 2) + a < MotzkinNumber(n)
    ensures PathAt(n, 1 + Binomial(b, 2) + a) == Zeros(n)[a := 1][b := -1]
  {
    var p := Digits(1, 0, Binomial(b, 2) + a);
    OneArchPosition(n, a, b);
    UnrankRank(n, p);
  }

  /** The position with one arch whose combination is {a, b}, its rank and its path. */
  lemma OneArchPosition(n: nat, a: nat, b: nat)
    requires a < b < n
    ensures var p := Digits(1, 0, Binomial(b, 2) + a);
            && InRange(n, p) && Rank(n, p) == 1 + Binomial(b, 2) + a
            && PathOf(n, p) == Zeros(n)[a := 1][b := -1]
  {
    var c := Binomial(b, 2) + a;
    var p := Digits(1, 0, c);
    assert InRange(n, p) && CombDigit(n, 2, c).Value() == [a, b] by {
      ColexPairs(n, a, b);
      CatalanValues();
    }
    assert Rank(n, p) == 1 + c by {
      assert Offset(n, 1) == 1;
    }
    assert DyckDigit(1, 0).Value() == [1, -1] by {
      DyckOfHalfLengthTwo();
    }
    OneArchDecoded(n, a, b);
  }

  /** Decoding the Dyck path of one arch onto {a, b} puts its up-step at a and its down-step at b. */
  lemma OneArchDecoded(n: nat, a: nat, b: nat)
    requires a < b < n
    ensures Decoded(n, [a, b], [1, -1]) == Zeros(n)[a := 1][b := -1]
  {
    var positions: seq<nat> := [a, b];
    assert positions[..1] == [a] && [a][..0] == [];
    calc {
      Decoded(n, positions, [1, -1]);
      Overwrite(Zeros(n), [a], [1, -1])[b := -1];
      Overwrite(Zeros(n), [], [1, -1])[a := 1][b := -1];
    }
  }

  /**
    * The last paths of an even length 2m are those with no level step:
    * the Dyck paths of half-length m, in the order of their own table.
    */
  lemma LastPathsAreDyck(m: nat, j: nat)
    requires j < Catalan(m)
    ensures Offset(2 * m, m) + j < MotzkinNumber(2 * m)
    ensures PathAt(2 * m, Offset(2 * m, m) + j) == DyckDigit(m, j).Value()
  {
    var n, p := 2 * m, Digits(m, j, 0);
    var r := Offset(n, m) + j;
    assert InRange(n, p) && Rank(n, p) == r by {
      BinomialDiagonal(n);
    }
    assert r < MotzkinNumber(n) && Unrank(n, r) == p by {
      UnrankRank(n, p);
    }
    assert PathOf(n, p) == DyckDigit(m, j).Value() by {
      DecodedEverywhere(n, DyckDigit(m, j).Value());
    }
  }

  /** When every position is chosen, decoding leaves the steps as they are. */
  lemma DecodedEverywhere(n: nat, steps: seq<int>)
    requires |steps| == n
    ensures Binomial(n, n) == 1
    ensures Decoded(n, CombDigit(n, n, 0).Value(), steps) == steps
  {
    BinomialDiagonal(n);
    var positions := CombDigit(n, n, 0).Value();
    FullCombination(positions, n);
    DecodedAt(n, positions, steps);
    var path := Decoded(n, positions, steps);
    forall i | 0 <= i < n ensures path[i] == steps[i] {
      assert positions[i] == i;
    }
  }

  /** The character `to_string` writes for a step: `delim[1 - step]`. */
  function Render(path: seq<int>, delim: string): (s: string)
    requires forall i :: 0 <= i < |path| ==> 0 <= 1 - path[i] < |delim|
  {
    seq(|path|, i requires 0 <= i < |path| => delim[1 - path[i]])
  }

  /**
    * `to_string(data, delim)`: one character per step, pushed back in
    * order: `delim[0]` for an up-step, `delim[1]` for a level step and
    * `delim[2]` for a down-step.
    */
  method ToString(path: seq<int>, delim: string := "(-)") returns (s: string)
    requires forall i :: 0 <= i < |path| ==> 0 <= 1 - path[i] < |delim|
    ensures s == Render(path, delim)
    ensures |s| == |path|
    ensures forall i :: 0 <= i < |path| && path[i] == 1 ==> s[i] == delim[0]
    ensures forall i :: 0 <= i < |path| && path[i] == 0 ==> s[i] == delim[1]
    ensures forall i :: 0 <= i < |path| && path[i] == -1 ==> s[i] == delim[2]
  {
    s := "";
    for k := 0 to |path|
      invariant s == Render(path[..k], delim)
    {
      s := s + [delim[1 - path[k]]];
    }
    assert path[..|path|] == path;
  }

  /** With three different delimiters, two paths with steps in {-1, 0, 1} that render alike are equal. */
  lemma RenderInjective(path: seq<int>, path': seq<int>, delim: string)
    requires |delim| == 3 && delim[0] != delim[1] && delim[1] != delim[2] && delim[0] != delim[2]
    requires forall i :: 0 <= i < |path| ==> -1 <= path[i] <= 1
    requires forall i :: 0 <= i < |path'| ==> -1 <= path'[i] <= 1
    requires Render(path, delim) == Render(path', delim)
    ensures path == path'
  {
    assert |path| == |Render(path, delim)|;
    forall i | 0 <= i < |path| ensures path[i] == path'[i] {
      assert Render(path, delim)[i] == Render(path', delim)[i];
    }
  }

  /** The paths of length 4 as the class documentation lists them, by rank. */
  function ListedPath(k: nat): seq<int>
    requires k < 9
  {
    match k
    case 0 => [0, 0, 0, 0]
    case 1 => [1, -1, 0, 0]
    case 2 => [1, 0, -1, 0]
    case 3 => [0, 1, -1, 0]
    case 4 => [1, 0, 0, -1]
    case 5 => [0, 1, 0, -1]
    case 6 => [0, 0, 1, -1]
    case 7 => [1, 1, -1, -1]
    case 8 => [1, -1, 1, -1]
  }

  /** Their renderings with the delimiters "(-)". */
  function ListedString(k: nat): string
    requires k < 9
  {
    match k
    case 0 => "----"
    case 1 => "()--"
    case 2 => "(-)-"
    case 3 => "-()-"
    case 4 => "(--)"
    case 5 => "-(-)"
    case 6 => "--()"
    case 7 => "(())"
    case 8 => "()()"
  }

  /** The path of rank 1 + C(b, 2) + a of length 4, entry by entry. */
  lemma ArchOfFour(n: nat, k: nat, a: nat, b: nat, p: seq<int>)
    requires n == 4 && a < b < n && k == 1 + Binomial(b, 2) + a && p == PathAt(n, k)
    ensures |p| == 4 && p[a] == 1 && p[b] == -1
    ensures forall i :: 0 <= i < 4 && i != a && i != b ==> p[i] == 0
  {
    PathsWithOneArch(n, a, b);
  }

  /** A path of length 4 with one arch from a to b is the listed path of rank 1 + C(b, 2) + a. */
  lemma ListedArch(k: nat, a: nat, b: nat, p: seq<int>)
    requires 1 <= k < 7 && a < b < 4 && k == 1 + Binomial(b, 2) + a
    requires |p| == 4 && p[a] == 1 && p[b] == -1
    requires forall i :: 0 <= i < 4 && i != a && i != b ==> p[i] == 0
    ensures p == ListedPath(k)
  {
  }

  /** Rank 0 of the listing. */
  lemma LevelOfFour(n: nat, p: seq<int>)
    requires n == 4 && p == PathAt(n, 0)
    ensures p == ListedPath(0)
  {
    assert p == Zeros(n) by { FirstPathIsLevel(n); }
    ListedLevel(n);
  }

  /** The level path of length 4. */
  lemma ListedLevel(n: nat)
    requires n == 4
    ensures Zeros(n) == ListedPath(0)
  {
  }

  /** Ranks 1 to 6 of the listing: one arch each. */
  lemma ArchesOfFour(n: nat, k: nat, p: seq<int>)
    requires n == 4 && 1 <= k < 7 && p == PathAt(n, k)
    ensures p == ListedPath(k)
  {
    var a, b := ArchEnds(k);
    ArchOfFour(n, k, a, b, p);
    ListedArch(k, a, b, p);
  }

  /** The ends of the single arch of the listed path of rank k. */
  lemma ArchEnds(k: nat) returns (a: nat, b: nat)
    requires 1 <= k < 7
    ensures a < b < 4 && k == 1 + Binomial(b, 2) + a
  {
    a, b := if k == 1 then 0 else if k == 2 then 0 else if k == 3 then 1 else if k == 4 then 0 else if k == 5 then 1 else 2,
            if k == 1 then 1 else if k < 4 then 2 else 3;
  }

  /** Ranks 7 and 8 of the listing: the Dyck paths of half-length 2. */
  lemma DyckOfFour(n: nat, k: nat, p: seq<int>)
    requires n == 4 && 7 <= k < 9 && p == PathAt(n, k)
    ensures p == ListedPath(k)
  {
    var m := n / 2;
    assert m == 2 && 2 * m == n;
    OffsetOfFour(n);
    var d := DyckDigit(m, k - 7);
    assert p == d.Value() by {
      LastPathsAreDyck(m, k - 7);
    }
    ListedDyck(k);
  }

  /** The paths of length 4 with fewer than two arches take ranks 0 to 6. */
  lemma OffsetOfFour(n: nat)
    requires n == 4
    ensures Offset(n, n / 2) == 7
  {
    assert Binomial(n, 2) == 6;
  }

  /** The Dyck paths of half-length 2 are the last two listed paths. */
  lemma ListedDyck(k: nat)
    requires 7 <= k < 9
    ensures Dyck(2)[k - 7] == ListedPath(k)
  {
    DyckOfHalfLengthTwo();
  }

  /**
    * The documented example: iterating over the paths of length n = 4
    * yields, at rank k, the k-th listed path, and `to_string` with "(-)"
    * turns it into the k-th listed string. The length is a parameter
    * equal to 4 rather than a literal, so that the verifier does not
    * evaluate the whole enumeration.
    */
  lemma ListingOfFour(n: nat, k: nat, p: seq<int>)
    requires n == 4 && k < 9 && p == PathAt(n, k)
    ensures p == ListedPath(k)
    ensures Render(p, "(-)") == ListedString(k)
  {
    ListedRender(k);
    if k == 0 {
      LevelOfFour(n, p);
    } else if k < 7 {
      ArchesOfFour(n, k, p);
    } else {
      DyckOfFour(n, k, p);
    }
  }

  /** Each listed path renders with "(-)" to the listed string. */
  lemma ListedRender(k: nat)
    requires k < 9
    ensures Render(ListedPath(k), "(-)") == ListedString(k)
  {
  }

  /**
    * The state of an iterator over paths of length n is consistent: the
    * digits agree with each other and with n, they are the position of
    * rank `id` (of the last rank once `id` has reached motzkin(n)), and
    * `contents` is the path at that position.
    */
  ghost predicate Consistent(n: nat, id: nat, comb: CombDigit, dyck: DyckDigit, half: nat, contents: seq<int>) {
    var p := Digits(half, dyck.index, comb.index);
    && comb.n == n && comb.k == 2 * half && dyck.half == half
    && InRange(n, p)
    && id <= MotzkinNumber(n)
    && Rank(n, p) == (if id < MotzkinNumber(n) then id else id - 1)
    && contents == PathOf(n, p)
  }

  /** A step to rank r before the end moves a consistent state to the successor position and its path. */
  lemma AdvanceKeepsConsistency(n: nat, r: nat, comb: CombDigit, dyck: DyckDigit, half: nat, contents: seq<int>)
    requires 0 < r < MotzkinNumber(n) && Consistent(n, r - 1, comb, dyck, half, contents)
    ensures var q := Successor(n, Digits(half, dyck.index, comb.index));
            && InRange(n, q) && Rank(n, q) == r
            && Consistent(n, r, CombDigit(n, 2 * q.half, q.combIndex), DyckDigit(q.half, q.dyckIndex), q.half, PathOf(n, q))
            && PathOf(n, q) == PathAt(n, r)
  {
    var p := Digits(half, dyck.index, comb.index);
    SuccessorRank(n, p);
    UnrankRank(n, Successor(n, p));
  }

  /**
    * The forward iterator. Its position is the three digits `nonzeroHalved`
    * (half the number of non-level steps), the Dyck digit and the
    * combination digit; `data` holds the decoded path and `id` counts the
    * `++` steps taken since the beginning.
    */
  class Iterator {
    var id: nat
    var data: array<int>
    var comb: CombDigit
    var dyck: DyckDigit
    var nonzeroHalved: nat

    /** The odometer digits of the iterator. */
    ghost function Position(): Digits
      reads this
    {
      Digits(nonzeroHalved, dyck.index, comb.index)
    }

    /**
      * The iterator is consistent: the digits agree with each other and
      * with the path length, they are the position of rank `id` (of the
      * last rank once `id` has reached motzkin(n)), and `data` is the path
      * at that position.
      */
    ghost predicate Valid()
      reads this, data
    {
      Consistent(data.Length, id, comb, dyck, nonzeroHalved, data[..])
    }

    /** `iterator(n)`: the beginning of the paths of length n, the level path. */
    constructor(n: nat)
      ensures Valid() && fresh(data)
      ensures id == 0 && nonzeroHalved == 0 && data.Length == n
      ensures data[..] == Zeros(n) == PathAt(n, 0)
    {
      id := 0;
      data := new int[n](_ => 0);
      comb := CombDigit(n, 0, 0);
      dyck := DyckDigit(0, 0);
      nonzeroHalved := 0;
      new;
      assert data[..] == Zeros(n);
      FirstPathIsLevel(n);
    }

    /** `iterator()`: an iterator over the paths of length 0. */
    constructor Empty()
      ensures fresh(data) && data.Length == 0
      ensures id == 0 && nonzeroHalved == 0 && comb == CombDigit(0, 0, 0) && dyck == DyckDigit(0, 0)
    {
      id := 0;
      data := new int[0];
      comb := CombDigit(0, 0, 0);
      dyck := DyckDigit(0, 0);
      nonzeroHalved := 0;
    }

    /** The copy constructor: a deep copy, sharing no state with the original. */
    constructor Copy(other: Iterator)
      ensures fresh(data)
      ensures id == other.id && comb == other.comb && dyck == other.dyck && nonzeroHalved == other.nonzeroHalved
      ensures data[..] == other.data[..]
      ensures other.Valid() ==> Valid()
    {
      var a := new int[other.data.Length];
      for i := 0 to a.Length
        invariant a[..i] == other.data[..i]
      {
        a[i] := other.data[i];
      }
      assert a[..] == a[..a.Length];
      id := other.id;
      data := a;
      comb := other.comb;
      dyck := other.dyck;
      nonzeroHalved := other.nonzeroHalved;
    }

    /**
      * `++it`: count the step; unless that reaches the end, advance the
      * combination digit and carry into the Dyck digit and `nonzeroHalved`
      * as needed, then decode. The iterator moves to the next position and
      * shows the path of its new rank; at the end only `id` changes.
      */
    method Next()
      requires Valid() && id < MotzkinNumber(data.Length)
      modifies this, data
      ensures Valid() && data == old(data) && id == old(id) + 1
      ensures id == MotzkinNumber(data.Length) ==>
                && Position() == old(Position()) && data[..] == old(data[..])
                && comb == old(comb) && dyck == old(dyck)
      ensures id < MotzkinNumber(data.Length) ==>
                && Position() == Successor(data.Length, old(Position()))
                && data[..] == PathAt(data.Length, id)
      ensures nonzeroHalved == old(nonzeroHalved) || nonzeroHalved == old(nonzeroHalved) + 1
    {
      id := id + 1;
      var n := data.Length;
      if id == MotzkinNumber(n) {
        return;
      }
      ghost var before := Position();
      AdvanceKeepsConsistency(n, id, comb, dyck, nonzeroHalved, data[..]);
      Carry();
      ConvertToMotzkin();
      assert data[..] == PathOf(n, Successor(n, before));
    }

    /**
      * The digit part of `++`: advance the combination digit; when it runs
      * out, advance the Dyck digit, moving to the next half-length when
      * that runs out too, and restart the combination digit with twice
      * the (possibly new) half-length. The digits move to the successor
      * position; nothing else changes.
      */
    method Carry()
      requires comb.k == 2 * nonzeroHalved && dyck.half == nonzeroHalved
      modifies this
      ensures Position() == Successor(comb.n, old(Position()))
      ensures comb.n == old(comb.n) && comb.k == 2 * nonzeroHalved && dyck.half == nonzeroHalved
      ensures nonzeroHalved == old(nonzeroHalved) || nonzeroHalved == old(nonzeroHalved) + 1
      ensures id == old(id) && data == old(data)
    {
      var n := comb.n;
      comb := comb.Next();
      if comb.IsAtEnd() {
        dyck := dyck.Next();
        if dyck.IsAtEnd() {
          nonzeroHalved := nonzeroHalved + 1;
          dyck := dyck.Reset(nonzeroHalved);
        }
        comb := comb.Reset(n, 2 * nonzeroHalved);
      }
    }

    /**
      * The decode step: clear the path, then write the i-th step of the
      * Dyck path at the i-th position of the combination. The result is a
      * Motzkin path carrying the Dyck steps at the chosen positions and
      * level steps everywhere else.
      */
    method ConvertToMotzkin()
      requires comb.n == data.Length && comb.k == 2 * dyck.half
      requires !comb.IsAtEnd() && !dyck.IsAtEnd()
      modifies data
      ensures data[..] == Decoded(data.Length, comb.Value(), dyck.Value())
      ensures forall i :: 0 <= i < |comb.Value()| ==> data[comb.Value()[i]] == dyck.Value()[i]
      ensures forall p :: 0 <= p < data.Length && p !in comb.Value() ==> data[p] == 0
      ensures IsMotzkinPath(data[..])
    {
      for i := 0 to data.Length
        invariant forall j :: 0 <= j < i ==> data[j] == 0
      {
        data[i] := 0;
      }
      assert data[..] == Zeros(data.Length);
      var positions := comb.Value();
      var steps := dyck.Value();
      for count := 0 to |positions|
        invariant data[..] == Overwrite(Zeros(data.Length), positions[..count], steps)
      {
        assert positions[..count + 1][..count] == positions[..count];
        data[positions[count]] := steps[count];
      }
      assert positions[..|positions|] == positions;
      DecodedAt(data.Length, positions, steps);
      DecodedIsMotzkin(data.Length, positions, steps);
    }

    /**
      * `--it`: nothing at the beginning; otherwise only `id` goes back.
      * The digits and the path stay where they are, so only the end
      * iterator stays consistent.
      */
    method Prev()
      modifies this
      ensures id == if old(id) == 0 then 0 else old(id) - 1
      ensures data == old(data) && comb == old(comb) && dyck == old(dyck)
      ensures nonzeroHalved == old(nonzeroHalved)
      ensures old(Valid()) && old(id) == MotzkinNumber(data.Length) ==> Valid()
    {
      if id == 0 {
        return;
      }
      id := id - 1;
    }

    /** `*it`: the path at the iterator, the `id`-th one (the last one at the end). */
    function Current(): (path: seq<int>)
      reads this, data
      requires Valid()
      ensures id < MotzkinNumber(data.Length) ==> path == PathAt(data.Length, id)
      ensures id == MotzkinNumber(data.Length) ==> path == PathAt(data.Length, id - 1)
      ensures |path| == data.Length && IsMotzkinPath(path)
    {
      UnrankRank(data.Length, Position());
      data[..]
    }

    /** `==`: iterators compare by `id` alone. */
    predicate Equals(other: Iterator)
      reads this, other
      ensures Equals(other) <==> Distance(this, other) == 0
    {
      id == other.id
    }

    /** `!=`: the negation of `==`. */
    predicate NotEquals(other: Iterator)
      reads this, other
      ensures NotEquals(other) <==> !Equals(other)
    {
      id != other.id
    }

    /** `lhs - rhs`: the signed number of `++` steps from `rhs` to `lhs`. */
    static function Distance(lhs: Iterator, rhs: Iterator): (d: int)
      reads lhs, rhs
      ensures rhs.id + d == lhs.id
    {
      lhs.id as int - rhs.id as int
    }

    /**
      * `reset(n)`: `id` goes back to 0, the path becomes n up-steps
      * followed by n down-steps and the Dyck digit restarts at half-length
      * n; the combination digit and `nonzeroHalved` are not touched.
      */
    method Reset(n: nat)
      modifies this
      ensures fresh(data) && data[..] == Mountain(n)
      ensures id == 0 && dyck == DyckDigit(n, 0)
      ensures !dyck.IsAtEnd() && data[..] == dyck.Value() && IsDyckPath(data[..])
      ensures nonzeroHalved == old(nonzeroHalved)
    {
      id := 0;
      var a := new int[2 * n];
      for i := 0 to n
        modifies a
        invariant forall j :: 0 <= j < i ==> a[j] == 1
      {
        a[i] := 1;
      }
      for i := n to 2 * n
        modifies a
        invariant forall j :: 0 <= j < n ==> a[j] == 1
        invariant forall j :: n <= j < i ==> a[j] == -1
      {
        a[i] := -1;
      }
      assert a[..] == Mountain(n);
      data := a;
      dyck := dyck.Reset(n);
    }
  }

  /** For two consistent iterators over the same length, `==` holds exactly when they show the same path. */
  lemma EqualsMeansSamePath(a: Iterator, b: Iterator)
    requires a.Valid() && b.Valid() && a.data.Length == b.data.Length
    requires a.id < MotzkinNumber(a.data.Length) && b.id < MotzkinNumber(b.data.Length)
    ensures a.Equals(b) <==> a.Current() == b.Current()
  {
    var n := a.data.Length;
    if a.Current() == b.Current() {
      PathAtInjective(n, a.id, b.id);
    }
  }

  /** For two consistent iterators before the end, `lhs - rhs` is the difference of the ranks of their positions. */
  lemma DistanceIsRankDifference(lhs: Iterator, rhs: Iterator)
    requires lhs.Valid() && rhs.Valid() && lhs.data.Length == rhs.data.Length
    requires lhs.id < MotzkinNumber(lhs.data.Length) && rhs.id < MotzkinNumber(rhs.data.Length)
    ensures Iterator.Distance(lhs, rhs) == Rank(lhs.data.Length, lhs.Position()) - Rank(rhs.data.Length, rhs.Position())
  {
  }

  /**
    * `basic_motzkin_paths(n)`: the paths of length n, with `begin` at the
    * level path and `end` an empty iterator whose `id` is motzkin(n).
    */
  class MotzkinPaths {
    const n: nat
    const begin: Iterator
    const end: Iterator

    constructor(n: nat)
      ensures this.n == n && fresh(begin) && fresh(begin.data) && fresh(end) && begin != end
      ensures begin.Valid() && begin.id == 0 && begin.data.Length == n && begin.data[..] == Zeros(n)
      ensures end.id == MotzkinNumber(n)
    {
      this.n := n;
      begin := new Iterator(n);
      var e := new Iterator.Empty();
      e.id := MotzkinNumber(n);
      end := e;
    }

    /** `size()`: motzkin(n), the number of paths of length n; never 0. */
    function Size(): (s: nat)
      ensures s >= 1
      ensures s == |Enumeration(n)|
    {
      MotzkinNumber(n)
    }
  }

  /**
    * `for (const auto& x : X)` over `basic_motzkin_paths X(n)`: a copy of
    * `begin` advanced until it equals `end`, collecting every path it
    * shows. The result is the whole enumeration, in order.
    */
  method ListPaths(n: nat) returns (paths: seq<seq<int>>)
    ensures paths == Enumeration(n)
  {
    var motzkin := new MotzkinPaths(n);
    var it := new Iterator.Copy(motzkin.begin);
    paths := Traverse(it, motzkin.end);
  }

  /** The loop of a range-for: advance `it` from the beginning until it equals `end`, collecting the paths. */
  method Traverse(it: Iterator, end: Iterator) returns (paths: seq<seq<int>>)
    requires it.Valid() && it.id == 0 && it != end
    requires end.id == MotzkinNumber(it.data.Length)
    modifies it, it.data
    ensures it.data == old(it.data) && it.id == end.id
    ensures paths == Enumeration(it.data.Length)
  {
    var n := it.data.Length;
    paths := [];
    while it.NotEquals(end)
      invariant it.Valid() && it.data.Length == n && it.data == old(it.data)
      invariant it.id <= MotzkinNumber(n) && paths == FirstPaths(n, it.id)
      decreases MotzkinNumber(n) - it.id
    {
      paths := paths + [it.Current()];
      it.Next();
    }
    FirstPathsAll(n, it.id);
  }
}
