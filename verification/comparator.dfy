/**
 * The comparator every comparison of the merge goes through: the ordering of
 * the frontier and the tie test. Values are unbounded integers, compared
 * either by their natural order (`T::cmp`, as `merge_iters` and
 * `merge_iters_detailed` do) or by its reverse (`|x, y| y.cmp(x)`, the
 * comparator the documentation passes to `merge_iters_by`).
 */
module Comparator {

  datatype Ordering = Less | Equal | Greater

  /** The comparators the model covers. */
  datatype Order = Natural | Reversed

  /** `x` comes strictly before `y` under `ord`. */
  predicate Before(ord: Order, x: int, y: int)
  {
    match ord
    case Natural => x < y
    case Reversed => y < x
  }

  /** `cmp(x, y)`: a total order whose `Equal` is equality of values. */
  function Compare(ord: Order, x: int, y: int): (r: Ordering)
    ensures r == Equal <==> x == y
    ensures r == Less <==> Before(ord, x, y)
    ensures r == Greater <==> Before(ord, y, x)
  {
    if Before(ord, x, y) then Less else if x == y then Equal else Greater
  }

  /** Sorted and free of duplicates under `ord`: what every source must be. */
  ghost predicate StrictlyIncreasing(ord: Order, s: seq<int>)
  {
    forall i, j :: 0 <= i < j < |s| ==> Before(ord, s[i], s[j])
  }

  ghost function Elems<T>(s: seq<T>): set<T>
  {
    set x | x in s
  }

  function Reverse(s: seq<int>): seq<int>
  {
    seq(|s|, i requires 0 <= i < |s| => s[|s| - 1 - i])
  }

  lemma ElemsEmpty<T>(s: seq<T>)
    ensures Elems(s) == {} <==> s == []
  {
    if s != [] {
      assert s[0] in Elems(s);
    }
  }

  /** Every element of a strictly increasing sequence is at most its last one. */
  lemma AtMostLast(ord: Order, s: seq<int>, x: int)
    requires StrictlyIncreasing(ord, s) && x in s
    ensures x == s[|s| - 1] || Before(ord, x, s[|s| - 1])
  {
    var i :| 0 <= i < |s| && s[i] == x;
    if i < |s| - 1 {
      assert Before(ord, s[i], s[|s| - 1]);
    }
  }

  /** The last element of a strictly increasing sequence occurs nowhere before it. */
  lemma LastIsNew(ord: Order, s: seq<int>, x: int)
    requires StrictlyIncreasing(ord, s + [x])
    ensures x !in s
    ensures Elems(s + [x]) == Elems(s) + {x}
  {
    forall i | 0 <= i < |s|
      ensures Before(ord, s[i], x)
    {
      assert (s + [x])[i] == s[i] && (s + [x])[|s|] == x;
    }
  }

  lemma TailElems(ord: Order, s: seq<int>)
    requires StrictlyIncreasing(ord, s) && s != []
    ensures StrictlyIncreasing(ord, s[1..])
    ensures Elems(s[1..]) == Elems(s) - {s[0]}
  {
    forall i, j | 0 <= i < j < |s| - 1
      ensures Before(ord, s[1..][i], s[1..][j])
    {
      assert s[1..][i] == s[i + 1] && s[1..][j] == s[j + 1];
    }
    forall x
      ensures x in Elems(s[1..]) <==> x in Elems(s) && x != s[0]
    {
      if x in s[1..] {
        var i :| 0 <= i < |s| - 1 && s[1..][i] == x;
        assert s[i + 1] == x && Before(ord, s[0], s[i + 1]);
      }
      if x in s && x != s[0] {
        var i :| 0 <= i < |s| && s[i] == x;
        assert s[1..][i - 1] == x;
      }
    }
  }

  /**
   * A strictly increasing sequence is determined by its set of elements: the
   * sorted, deduplicated union of the sources is one particular sequence.
   */
  lemma {:induction false} IncreasingUnique(ord: Order, a: seq<int>, b: seq<int>)
    requires StrictlyIncreasing(ord, a) && StrictlyIncreasing(ord, b)
    requires Elems(a) == Elems(b)
    ensures a == b
  {
    if a == [] {
      ElemsEmpty(b);
    } else {
      assert a[0] in Elems(b);
      assert b != [];
      assert b[0] in Elems(a);
      var i :| 0 <= i < |a| && a[i] == b[0];
      var j :| 0 <= j < |b| && b[j] == a[0];
      assert a[0] == b[0];
      TailElems(ord, a);
      TailElems(ord, b);
      IncreasingUnique(ord, a[1..], b[1..]);
      assert a == [a[0]] + a[1..];
      assert b == [b[0]] + b[1..];
    }
  }

  /**
   * Reversing an ascending sequence gives a sequence that is strictly
   * increasing under the reversed comparator, with the same elements.
   */
  lemma ReverseFlipsOrder(s: seq<int>)
    requires StrictlyIncreasing(Natural, s)
    ensures StrictlyIncreasing(Reversed, Reverse(s))
    ensures Elems(Reverse(s)) == Elems(s)
  {
    var r := Reverse(s);
    forall i, j | 0 <= i < j < |r|
      ensures Before(Reversed, r[i], r[j])
    {
      assert Before(Natural, s[|s| - 1 - j], s[|s| - 1 - i]);
    }
    forall x
      ensures x in Elems(r) <==> x in Elems(s)
    {
      if x in s {
        var i :| 0 <= i < |s| && s[i] == x;
        assert r[|s| - 1 - i] == x;
      }
      if x in r {
        var i :| 0 <= i < |r| && r[i] == x;
        assert s[|s| - 1 - i] == x;
      }
    }
  }
}
