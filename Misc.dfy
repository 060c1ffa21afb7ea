/// The small integer helpers of the library: C++'s truncating remainder and
/// a modulo that is never negative, absolute value, sign, clamping, the
/// linearisation of a two-dimensional table index and exponentiation by
/// squaring. Every helper is modelled on unbounded integers except
/// `TwoDToOneD`, whose `unsigned` arithmetic is written out.
module Misc {

  /** 2^32: the number of values of a C++ `unsigned`. */
  const UNSIGNED_RANGE: nat := 0x1_0000_0000

  /** A value of a 32-bit C++ `unsigned`. */
  type Unsigned = x: nat | x < UNSIGNED_RANGE

  function Min(a: int, b: int): int { if a <= b then a else b }

  function Max(a: int, b: int): int { if a <= b then b else a }

  /** The templated `abs`: the argument when it is positive, its negation otherwise. */
  function Abs(a: int): (r: int)
    ensures r >= 0
    ensures r == a || r == -a
  {
    if a > 0 then a else -a
  }

  /**
    * C++'s built-in `%`: the quotient is truncated toward zero, so the
    * remainder takes the sign of the dividend, e.g. (-7) % 3 == -1.
    */
  function TruncRem(a: int, b: int): (r: int)
    requires b != 0
    ensures Abs(r) < Abs(b)
    ensures a >= 0 ==> r >= 0
    ensures a < 0 ==> r <= 0
    ensures (a - r) % Abs(b) == 0
  {
    var m := Abs(b);
    if a >= 0 then
      DivModOf(a - a % m, m, a / m, 0);
      a % m
    else
      DivModOf(a + (-a) % m, m, -((-a) / m), 0);
      -((-a) % m)
  }

  /**
    * `modulo(a, b)`: the C++ remainder, moved up by `b` when it is negative.
    * For a positive modulus this is the mathematical residue in [0, b).
    * For a negative modulus the result can be negative: it lies strictly
    * between 2b and -b.
    */
  function Modulo(a: int, b: int): (r: int)
    requires b != 0
    ensures b > 0 ==> 0 <= r < b && r == a % b
    ensures b < 0 ==> 2 * b < r < -b
    ensures (r - a) % Abs(b) == 0
  {
    var t := TruncRem(a, b);
    var r := if t < 0 then t + b else t;
    ModuloResidue(a, b, t, r);
    r
  }

  /** Moving the C++ remainder up by b keeps it congruent to a; for b > 0 it is then the residue. */
  lemma ModuloResidue(a: int, b: int, t: int, r: int)
    requires b != 0 && t == TruncRem(a, b) && r == (if t < 0 then t + b else t)
    ensures b > 0 ==> r == a % b
    ensures (r - a) % Abs(b) == 0
  {
    var m := Abs(b);
    var k := (a - t) / m;
    assert a - t == k * m;
    var s := if b > 0 then 1 else -1;
    assert b == s * m;
    if t < 0 {
      DivModOf(t + b - a, m, s - k, 0);
      if b > 0 {
        DivModOf(a, b, k - 1, t + b);
      }
    } else {
      DivModOf(t - a, m, -k, 0);
      if b > 0 {
        DivModOf(a, b, k, t);
      }
    }
  }

  /** The documented example, (-7) % 3 is -1 in C++ and `modulo(-7, 3)` is 2; with a negative modulus the result leaves [0, |b|). */
  lemma ModuloExample()
    ensures TruncRem(-7, 3) == -1
    ensures Modulo(-7, 3) == 2
    ensures Modulo(-7, -3) == -4
  {
  }

  /**
    * `twoD_to_oneD(x, y, width, height)`: both coordinates are reduced modulo
    * the table's sides and the cell is numbered row by row. The product and
    * the sum are taken in 32-bit `unsigned` arithmetic, so they wrap around;
    * when the table has at most 2^32 cells nothing wraps, the index lies
    * inside the table, and both coordinates can be read back from it.
    */
  function TwoDToOneD(x: Unsigned, y: Unsigned, width: Unsigned, height: Unsigned): (r: nat)
    requires width > 0 && height > 0
    ensures r < UNSIGNED_RANGE
    ensures width * height <= UNSIGNED_RANGE ==>
              && r < width * height
              && r % width == x % width
              && r / width == y % height
  {
    var row, column := y % height, x % width;
    var v := row * width + column;
    if width * height <= UNSIGNED_RANGE then
      LinearIndexInTable(row, column, width, height);
      DivModOf(v, UNSIGNED_RANGE, 0, v);
      v % UNSIGNED_RANGE
    else
      v % UNSIGNED_RANGE
  }

  /** The cell (row, column) of a width-by-height table is numbered below width * height, and the number determines the cell. */
  lemma LinearIndexInTable(row: nat, column: nat, width: nat, height: nat)
    requires row < height && column < width
    ensures row * width + column < width * height
    ensures (row * width + column) % width == column
    ensures (row * width + column) / width == row
  {
    assert row * width <= (height - 1) * width by {
      MulLeft(row, height - 1, width);
    }
    assert (height - 1) * width + width == height * width;
    DivModOf(row * width + column, width, row, column);
  }

  /** Multiplying by a non-negative factor keeps the order. */
  lemma MulLeft(a: int, b: int, c: int)
    requires a <= b && c >= 0
    ensures a * c <= b * c
  {
  }

  /** Division by a positive number has a unique quotient and remainder. */
  lemma DivModOf(t: int, w: int, q: int, r: int)
    requires w > 0 && 0 <= r < w && t == q * w + r
    ensures t / w == q && t % w == r
  {
    var q', r' := t / w, t % w;
    assert t == q' * w + r';
    if q' < q {
      MulLeft(q' + 1, q, w);
      assert false;
    } else if q' > q {
      MulLeft(q + 1, q', w);
      assert false;
    }
  }

  /** `signof(x)`: 1 for a positive argument, -1 for a negative one, 0 for zero; it is x / |x| when x is not zero. */
  function SignOf(x: int): (s: int)
    ensures x > 0 ==> s == 1
    ensures x < 0 ==> s == -1
    ensures x == 0 ==> s == 0
    ensures s * Abs(x) == x
  {
    BoolToInt(0 < x) - BoolToInt(x < 0)
  }

  /** C++'s conversion of a comparison result to an integer. */
  function BoolToInt(b: bool): int { if b then 1 else 0 }

  /**
    * `Clamped(x, a, b)`: the bounds are swapped when they come in decreasing
    * order, then x is raised to the lower bound and cut down to the upper
    * one. The result lies in the interval the two bounds span, is x when x
    * is already inside, and is the nearer bound otherwise; none of this
    * depends on the order in which the bounds are given.
    */
  method Clamped(x: int, a: int, b: int) returns (r: int)
    ensures Min(a, b) <= r <= Max(a, b)
    ensures Min(a, b) <= x <= Max(a, b) ==> r == x
    ensures x < Min(a, b) ==> r == Min(a, b)
    ensures x > Max(a, b) ==> r == Max(a, b)
  {
    var lo, hi := a, b;
    if lo > hi {
      lo, hi := hi, lo;
    }
    r := x;
    if r < lo {
      r := lo;
    }
    if r > hi {
      r := hi;
    }
  }

  /** The n-th power of a, by repeated multiplication. */
  function Power(a: int, n: nat): int
  {
    if n == 0 then 1 else a * Power(a, n - 1)
  }

  lemma {:induction false} PowerAdd(a: int, m: nat, k: nat)
    ensures Power(a, m + k) == Power(a, m) * Power(a, k)
    decreases m
  {
    if m > 0 {
      PowerAdd(a, m - 1, k);
    }
  }

  lemma {:induction false} PowerOfSquare(a: int, k: nat)
    ensures Power(a * a, k) == Power(a, 2 * k)
    decreases k
  {
    if k > 0 {
      PowerOfSquare(a, k - 1);
      PowerAdd(a, 2, 2 * k - 2);
    }
  }

  /**
    * `pow(a, n)`: square-and-multiply. The loop keeps
    * r * base^e == a^n while the exponent is halved.
    */
  method Pow(a: int, n: nat) returns (r: int)
    ensures r == Power(a, n)
  {
    r := 1;
    var base, e := a, n;
    while e > 0
      invariant r * Power(base, e) == Power(a, n)
      decreases e
    {
      PowerOfSquare(base, e / 2);
      if e % 2 == 1 {
        PowerAdd(base, 1, e - 1);
        assert Power(base, e) == base * Power(base * base, e / 2);
        r := r * base;
      } else {
        assert Power(base, e) == Power(base * base, e / 2);
      }
      e := e / 2;
      base := base * base;
    }
  }
}
