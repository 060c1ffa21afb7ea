/// Facts about sequences used by the enumeration tables.
module Sequences {

  /** No value occurs twice in `s`. */
  ghost predicate Distinct<T>(s: seq<T>) {
    forall i, j :: 0 <= i < j < |s| ==> s[i] != s[j]
  }

  /** The values occurring in `s`. */
  ghost function Elements<T>(s: seq<T>): set<T> {
    set i | 0 <= i < |s| :: s[i]
  }

  /** Every entry of `s` is smaller than every later one. */
  ghost predicate StrictlyIncreasing(s: seq<nat>) {
    forall i, j :: 0 <= i < j < |s| ==> s[i] < s[j]
  }

  /** A strictly increasing sequence is determined by the set of its values. */
  lemma {:induction false} IncreasingDeterminedByElements(s: seq<nat>, t: seq<nat>)
    requires StrictlyIncreasing(s) && StrictlyIncreasing(t)
    requires Elements(s) == Elements(t)
    ensures s == t
    decreases |s|
  {
    if |s| == 0 {
      if |t| > 0 {
        LastIsElement(t);
      }
    } else {
      LastIsElement(s);
      assert |t| > 0;
      LastIsElement(t);
      LastIsLargest(s, t[|t| - 1]);
      LastIsLargest(t, s[|s| - 1]);
      var s', t' := s[..|s| - 1], t[..|t| - 1];
      ElementsOfFront(s);
      ElementsOfFront(t);
      IncreasingDeterminedByElements(s', t');
      assert s == s' + [s[|s| - 1]] && t == t' + [t[|t| - 1]];
    }
  }

  /** Every value of an increasing sequence is at most its last entry. */
  lemma LastIsLargest(s: seq<nat>, x: nat)
    requires StrictlyIncreasing(s) && x in Elements(s)
    ensures x <= s[|s| - 1]
  {
    var i :| 0 <= i < |s| && s[i] == x;
  }

  /** Dropping the last entry of an increasing sequence removes exactly that value. */
  lemma ElementsOfFront(s: seq<nat>)
    requires StrictlyIncreasing(s) && |s| > 0
    ensures Elements(s[..|s| - 1]) == Elements(s) - {s[|s| - 1]}
  {
    var s' := s[..|s| - 1];
    forall x | x in Elements(s) && x != s[|s| - 1] ensures x in Elements(s') {
      var i :| 0 <= i < |s| && s[i] == x;
      assert s'[i] == x;
    }
  }

  lemma LastIsElement<T>(s: seq<T>)
    requires |s| > 0
    ensures s[|s| - 1] in Elements(s)
  {
  }

  /** A sequence without repetitions has as many values as entries. */
  lemma {:induction false} DistinctCardinality<T>(s: seq<T>)
    requires Distinct(s)
    ensures |Elements(s)| == |s|
    decreases |s|
  {
    if |s| > 0 {
      var s' := s[..|s| - 1];
      DistinctCardinality(s');
      assert Elements(s) == Elements(s') + {s[|s| - 1]} by {
        forall x | x in Elements(s) ensures x in Elements(s') + {s[|s| - 1]} {
          var i :| 0 <= i < |s| && s[i] == x;
          if i < |s| - 1 {
            assert s'[i] == x;
          }
        }
      }
      assert s[|s| - 1] !in Elements(s');
    }
  }
}
