# Motzkin path enumeration, modelled in Dafny

This project models the Motzkin path enumerator of the Discreture library
(`basic_motzkin_paths` and its forward `iterator`) and the small integer
helpers the library keeps in `Misc.hpp`.

A Motzkin path of length n is a sequence of n steps from {1, 0, -1} whose
running sums never go below zero and whose total is zero. The iterator is a
three-digit odometer:

- `nonzeroHalved` (d), half the number of non-level steps;
- a Dyck-path digit over the Dyck paths of half-length d;
- a combination digit over the 2d-subsets of the n positions.

Every `++` advances the combination digit. When that digit runs out, `++`
carries into the Dyck digit, and when that also runs out, into d. The new
position is then decoded: the path is cleared, and the i-th step of the Dyck
path is written at the i-th chosen position.

The model is organised by the structure of the program:

| module | file | what it holds |
|---|---|---|
| `Misc` | Misc.dfy | `abs`, C++'s truncating `%`, `modulo`, `twoD_to_oneD` with 32-bit `unsigned` wrap-around, `Clamped`, `signof`, `pow` |
| `Sequences` | Sequences.dfy | distinctness, the set of values of a sequence, strictly increasing sequences |
| `LatticePaths` | LatticePaths.dfy | prefix sums, the Dyck and Motzkin path predicates |
| `Combinations` | Combinations.dfy | the combinations collaborator, as a digit indexing the table of k-subsets in colexicographic order |
| `DyckPaths` | DyckPaths.dfy | the Dyck-path collaborator, as a digit indexing the table of Dyck paths of a half-length, built by first-return decomposition |
| `Ranking` | Ranking.dfy | the odometer on values: its positions, the rank of a position, the successor (one `++`), unranking and `motzkin(n)` |
| `Decoding` | Decoding.dfy | the decode step on values: writing the Dyck steps at the chosen positions of a level path |
| `Motzkin` | Motzkin.dfy | the `Iterator` class over an `array<int>`, the `MotzkinPaths` range object, `to_string`, and a range-for client |

`Iterator` is a class whose fields are the fields of the C++ iterator. Its
methods `Next`, `Prev`, `ConvertToMotzkin` and `Reset` update them in place.
Each method is proved against the value-level model: `Next` moves the digits
to `Successor` and the path to `PathAt(n, id)`.

The two collaborators, `basic_combinations` and `basic_dyck_paths`, are not
part of this model. They appear only through the interface the iterator
uses: reset, advance, end test and dereference, over a fixed table. The
order of the combination table is colexicographic, which is the order the
class documentation's example shows. The order of the Dyck table is fixed
by first-return decomposition, largest first arch first, which gives the two
Dyck paths of half-length 2 in the documented order; for longer Dyck paths
the order is a modelling choice. `motzkin(n)` is defined by the sum over
k of C(n, 2k) * Catalan(k), which is also what the odometer counts.

Where the documentation and the code disagree, the model follows the code.
The class comment (`Motzkin.hpp:13`) speaks of paths to (0, 2n), but the
constructor builds paths of length n (`Motzkin.hpp:110`), and so does the
model. `reset(n)` resizes to 2n (`Motzkin.hpp:189`); it is modelled as
written.

## Model

| member | source | states |
|---|---|---|
| Misc.Abs | include/Discreture/Misc.hpp:34-41 | the result is non-negative and is either the argument or its negation |
| Misc.TruncRem | include/Discreture/Misc.hpp:53 | C++'s `%`: smaller than the modulus in absolute value, with the sign of the dividend, and congruent to the dividend |
| Misc.Modulo | include/Discreture/Misc.hpp:43-57 | for a positive modulus b the result lies in [0, b) and is the residue of a; for a negative modulus it lies strictly between 2b and -b; for any modulus it is congruent to a |
| Misc.ModuloExample | include/Discreture/Misc.hpp:46 | the documented case: (-7) % 3 is -1, `modulo(-7, 3)` is 2; with a negative modulus, `modulo(-7, -3)` is -4 |
| Misc.TwoDToOneD | include/Discreture/Misc.hpp:59-67 | the index fits an `unsigned`; when the table has at most 2^32 cells it lies below width * height, and the column and row come back from it as index % width and index / width |
| Misc.LinearIndexInTable | include/Discreture/Misc.hpp:66 | the row-by-row number of a cell is below the table size and determines the cell |
| Misc.Clamped | include/Discreture/Misc.hpp:69-85 | the result lies between the smaller and the larger bound, is x when x is inside, and is the nearer bound otherwise, whatever order the bounds come in |
| Misc.SignOf | include/Discreture/Misc.hpp:87-95 | 1 for positive, -1 for negative, 0 for zero; sign times absolute value gives back x |
| Misc.Pow | include/Discreture/Misc.hpp:99-114 | square-and-multiply returns a to the power n, with the loop invariant r * base^e == a^n |
| Combinations.CombDigit.Reset | include/Discreture/Motzkin.hpp:138 | `reset(n, k)` gives a digit over the k-subsets of n positions; it has a first subset exactly when k <= n, and that subset is {0, ..., k-1} |
| Combinations.CombDigit.Next | include/Discreture/Motzkin.hpp:122 | `++` stays in the same table and, when both are inside it, shows a different subset from the one before |
| Combinations.CombDigit.IsAtEnd | include/Discreture/Motzkin.hpp:123 | `is_at_end` holds exactly when the index has passed every entry of the table |
| Combinations.CombDigit.Value | include/Discreture/Motzkin.hpp:213 | the subset the combination digit dereferences to is a strictly increasing 2d-subset of the n positions |
| Combinations.ColexDistinct | include/Discreture/Motzkin.hpp:122-123 | the combination table lists no subset twice |
| Combinations.CombValueInjective | include/Discreture/Motzkin.hpp:122-123 | two combination digits of the same table that show the same subset are at the same index |
| Combinations.ColexPairs | include/Discreture/Motzkin.hpp:23-28 | the 2-subset {a, b} with a < b sits at index C(b, 2) + a: ordered by the larger element, then the smaller, as the example lists them |
| DyckPaths.DyckDigit.Reset | include/Discreture/Motzkin.hpp:135 | `reset(m)` gives a digit over the Dyck paths of half-length m that is not at its end and shows m up-steps followed by m down-steps |
| DyckPaths.DyckDigit.Next | include/Discreture/Motzkin.hpp:127 | `++` keeps the half-length and, when both are inside the table, shows a different path from the one before |
| DyckPaths.DyckDigit.IsAtEnd | include/Discreture/Motzkin.hpp:129 | `is_at_end` holds exactly when the index has passed every entry of the table |
| DyckPaths.DyckDigit.Value | include/Discreture/Motzkin.hpp:215 | the path the Dyck digit dereferences to has length 2d and is a Dyck path |
| DyckPaths.DyckDistinct | include/Discreture/Motzkin.hpp:127 | the Dyck table lists no path twice |
| DyckPaths.DyckValueInjective | include/Discreture/Motzkin.hpp:127 | two Dyck digits of the same half-length that show the same path are at the same index |
| DyckPaths.DyckOfHalfLengthTwo | include/Discreture/Motzkin.hpp:29-30 | the Dyck paths of half-length 2 come as (()) then ()() |
| Ranking.Successor | include/Discreture/Motzkin.hpp:122-138 | the carry rule: d stays or grows by exactly one, and grows exactly when both the combination and the Dyck digit run out; the combination restarts at index 0 whenever it runs out; otherwise only the combination index moves |
| Ranking.SuccessorRank | include/Discreture/Motzkin.hpp:115-144 | before the end, one `++` moves a valid position to a valid position of the next rank |
| Ranking.RankInjective | include/Discreture/Motzkin.hpp:115-144 | different valid positions have different ranks, so no position is reached twice |
| Ranking.UnrankRank | include/Discreture/Motzkin.hpp:115-144 | the position of each rank below motzkin(n) is recovered from its rank |
| Ranking.MotzkinNumber | include/Discreture/Motzkin.hpp:119 | `motzkin(n)` is at least 1: there is always the level path |
| Ranking.MotzkinValues | include/Discreture/Motzkin.hpp:96 | motzkin(0..3) are 1, 1, 2, 4 |
| Ranking.MotzkinOfFour | include/Discreture/Motzkin.hpp:18-30 | there are nine paths of length 4 |
| Decoding.DecodedAt | include/Discreture/Motzkin.hpp:205-218 | the i-th step is at the i-th chosen position, and every other entry is level |
| Decoding.DecodedSupport | include/Discreture/Motzkin.hpp:205-218 | with non-level steps, the non-level entries are exactly the chosen positions, one per step |
| Decoding.DecodedIsMotzkin | include/Discreture/Motzkin.hpp:13-15 | decoding a Dyck path onto increasing positions gives a Motzkin path of length n |
| Decoding.DecodedInjective | include/Discreture/Motzkin.hpp:205-218 | different (positions, Dyck path) pairs decode to different paths |
| Motzkin.PathOf | include/Discreture/Motzkin.hpp:205-218 | the path shown at a valid position has length n and is a Motzkin path |
| Motzkin.PathOfNonLevel | include/Discreture/Motzkin.hpp:213-217 | the path at a position has exactly 2d non-level steps, at the positions of its combination |
| Motzkin.PathAtInjective | include/Discreture/Motzkin.hpp:115-144 | different ranks show different paths |
| Motzkin.EnumerationDistinct | include/Discreture/Motzkin.hpp:13-15 | the enumeration has motzkin(n) entries, each a Motzkin path of length n, none repeated |
| Motzkin.FirstPathIsLevel | include/Discreture/Motzkin.hpp:22 | rank 0 shows the level path |
| Motzkin.PathsWithOneArch | include/Discreture/Motzkin.hpp:23-28 | the paths with one arch come right after the level path: up at a and down at b is rank 1 + C(b, 2) + a |
| Motzkin.LastPathsAreDyck | include/Discreture/Motzkin.hpp:29-30 | for length 2m the last Catalan(m) ranks show the Dyck paths of half-length m, in the Dyck table's order |
| Motzkin.ToString | include/Discreture/Motzkin.hpp:64-73 | one character per step: `delim[0]` for an up-step, `delim[1]` for a level step, `delim[2]` for a down-step |
| Motzkin.RenderInjective | include/Discreture/Motzkin.hpp:64-73 | with three distinct symbols, different paths render to different strings |
| Motzkin.ListingOfFour | include/Discreture/Motzkin.hpp:18-48 | for length 4, the path of rank k is the k-th of the nine documented paths, and `to_string` with "(-)" renders it as the k-th documented string |
| Motzkin.AdvanceKeepsConsistency | include/Discreture/Motzkin.hpp:115-144 | a step before the end takes a consistent iterator state to the successor position, whose path is the path of the next rank |
| Motzkin.Iterator.constructor | include/Discreture/Motzkin.hpp:110-112 | `iterator(n)` is consistent, at id 0 with d = 0, and shows the level path of length n, which is the path of rank 0 |
| Motzkin.Iterator.Empty | include/Discreture/Motzkin.hpp:108 | `iterator()`: id 0, d 0, an empty path and digits at their start |
| Motzkin.Iterator.Copy | include/Discreture/Motzkin.hpp:198-203 | the copy has fresh storage holding the same path and the same digits, and is consistent when the original is |
| Motzkin.Iterator.Next | include/Discreture/Motzkin.hpp:115-144 | id grows by one; at the end nothing else changes; otherwise the digits move to the successor position and the path is the path of the new rank; consistency is kept and d grows by at most one |
| Motzkin.Iterator.Carry | include/Discreture/Motzkin.hpp:122-140 | the digit part of `++` moves the digits to the successor position, keeps the combination over n positions with size 2d, and changes neither id nor the path |
| Motzkin.Iterator.ConvertToMotzkin | include/Discreture/Motzkin.hpp:205-218 | the path becomes the decoded path: the i-th Dyck step at the i-th chosen position, zero elsewhere, and a Motzkin path |
| Motzkin.Iterator.Prev | include/Discreture/Motzkin.hpp:146-157 | nothing happens at id 0; otherwise only id decreases by one; the end iterator stays consistent |
| Motzkin.Iterator.Current | include/Discreture/Motzkin.hpp:159-162 | the dereferenced path is the path of rank id (of the last rank at the end) |
| Motzkin.Iterator.Equals | include/Discreture/Motzkin.hpp:176-179 | `==` compares the ids alone: it holds exactly when `lhs - rhs` is 0 |
| Motzkin.Iterator.NotEquals | include/Discreture/Motzkin.hpp:181-184 | `!=` is the negation of `==` |
| Motzkin.EqualsMeansSamePath | include/Discreture/Motzkin.hpp:176-179 | for consistent iterators before the end, `==` on ids holds exactly when they show the same path |
| Motzkin.Iterator.Distance | include/Discreture/Motzkin.hpp:169-172 | `lhs - rhs` is the signed number of steps from rhs to lhs |
| Motzkin.DistanceIsRankDifference | include/Discreture/Motzkin.hpp:169-174 | for consistent iterators before the end, `lhs - rhs` is the difference of the ranks of their positions |
| Motzkin.Iterator.Reset | include/Discreture/Motzkin.hpp:186-196 | id becomes 0, the path becomes n up-steps then n down-steps in fresh storage, the Dyck digit restarts at half-length n and the path is its first Dyck path, d is untouched, and the combination digit is left unspecified |
| Motzkin.MotzkinPaths.constructor | include/Discreture/Motzkin.hpp:85-88 | `begin` is a consistent iterator at id 0 showing the level path; `end` has id motzkin(n) |
| Motzkin.MotzkinPaths.Size | include/Discreture/Motzkin.hpp:96 | `size()` is motzkin(n), never zero, and is the length of the enumeration |
| Motzkin.ListPaths | include/Discreture/Motzkin.hpp:18-20 | a range-for over `basic_motzkin_paths(n)` collects exactly the enumeration, in rank order |
| Motzkin.Traverse | include/Discreture/Motzkin.hpp:18-20 | advancing a copy of `begin` until it equals `end` visits every rank once, in order |

## Left out

- `linear_convert` (`Misc.hpp:15-18`) and `pow` on floating-point types: floating-point arithmetic is not modelled.
- The `long` and `long long` overloads of `abs` (`Misc.hpp:23-32`): they call the C library, and the templated `abs` gives the same result.
- Misc.Abs, Misc.Modulo, Misc.Pow, Misc.SignOf: fixed-width overflow is not modelled. The results are exact on unbounded integers, so `abs` of the most negative value and overflowing powers are not captured.
- Motzkin.Iterator.Distance: the conversion of the unsigned ids to `long long` is not modelled; ids are unbounded naturals.
- The internals of `basic_combinations`, `basic_dyck_paths` and `motzkin()` are not part of this model. The collaborators are tables with the documented interface. The Dyck table order beyond half-length 2 is a modelling choice.
- Motzkin.Iterator.Next: advancing the end iterator is a precondition, not modelled behaviour, and so is advancing an inconsistent iterator.
- Motzkin.Iterator.Prev: it does not restore the digits or the path (the source marks this as not implemented). The model states only the change of id, and claims consistency only for the step back from the end.
- Motzkin.Iterator.Reset: the effect of the one-argument `comb.reset(0)` belongs to the unseen collaborator, so the value of the combination digit after `reset` is unspecified. No consistency is claimed after `reset`, because the path it builds (length 2n) does not match the digits.
- Motzkin.Iterator.Empty: no consistency is stated for the default iterator; in `MotzkinPaths` it serves only as the `end` sentinel, whose id is set to motzkin(n).
- Motzkin.ToString: the source indexes `delim` without a check; the model requires every index `1 - step` to lie inside `delim`.
- Motzkin.ListingOfFour: the nine documented paths and strings are stated for each rank below 9 of a length n equal to 4, not as one literal equation on `Enumeration(4)`. Together with MotzkinOfFour, which gives nine ranks, this is the whole documented listing.
- Misc.Modulo: the documented range [0, b) is stated for b > 0 only. For b < 0 the code returns values between 2b and -b, for example `modulo(-7, -3)` is -4, and the model states that range instead.
- Completeness, that every Motzkin path of length n appears in the enumeration, is not proved. Proved are the count, that every entry is a Motzkin path, and that no entry repeats.
- The benchmark driver `benchmarks/perms.cpp`: timing and printing only.
