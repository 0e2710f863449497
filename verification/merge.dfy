/**
 * `MergeIterator` (src/merge.rs:7-110): the lazy union of sorted, deduplicated
 * sources, emitting each distinct value once.
 */
module Merge {
  import opened Wrappers
  import opened Comparator
  import opened Frontier

  /** `out` is the sorted, deduplicated union of `srcs` under `ord`. */
  ghost predicate IsUnion(ord: Order, srcs: seq<seq<int>>, out: seq<int>)
  {
    StrictlyIncreasing(ord, out) && Elems(out) == AllValues(srcs)
  }

  class MergeIterator {
    /** What each source iterator still had to yield when the merge was built. */
    const srcs: seq<seq<int>>
    /** The comparator `cmp`. */
    const ord: Order
    /** The source cursors: `iters`. */
    const pos: array<nat>
    /** The frontier: `heap`. */
    var heap: seq<Entry>
    /** Every value returned by `Next` so far. */
    ghost var emitted: seq<int>

    ghost predicate Valid()
      reads this, pos
    {
      && (forall i :: 0 <= i < |srcs| ==> StrictlyIncreasing(ord, srcs[i]))
      && FrontierInvariant(srcs, pos[..], heap)
      && Consistent(ord, srcs, pos[..], heap, emitted)
    }

    /**
     * `merge_iters_by(iters, cmp)`, and `merge_iters(iters)` with the natural
     * order: pull the first value of every source into the frontier.
     */
    constructor (srcs: seq<seq<int>>, ord: Order)
      requires forall i :: 0 <= i < |srcs| ==> StrictlyIncreasing(ord, srcs[i])
      ensures Valid() && fresh(pos)
      ensures this.srcs == srcs && this.ord == ord && emitted == []
      ensures forall i :: 0 <= i < |srcs| ==> pos[i] == if srcs[i] == [] then 0 else 1
      ensures forall e :: e in heap <==> e.src < |srcs| && srcs[e.src] != [] && e.value == srcs[e.src][0]
    {
      this.srcs := srcs;
      this.ord := ord;
      var cursors := new nat[|srcs|](_ => 0);
      var h := Seed(srcs, cursors);
      pos := cursors;
      heap := h;
      emitted := [];
    }

    /**
     * `next`: take the top entry, refill or pop it, then consume every further
     * top entry that compares `Equal` to the value taken, and return that
     * value; return `None`, changing nothing, once the frontier is empty.
     * Unlike the detailed iterator, this one keeps none of the tied entries.
     */
    method Next() returns (r: Option<int>)
      requires Valid()
      modifies this, pos
      ensures Valid()
      ensures r.None? <==> old(heap) == []
      ensures r.None? ==> heap == old(heap) && pos[..] == old(pos[..]) && emitted == old(emitted)
      ensures r.Some? ==> r.value == Top(ord, old(heap)).value && emitted == old(emitted) + [r.value]
      ensures r.Some? ==> forall e :: e in heap ==> Compare(ord, r.value, e.value) == Less
      ensures r.Some? ==> forall i :: 0 <= i < |srcs| ==>
                (r.value in srcs[i] <==> Taken(pos[..], heap, i) == Taken(old(pos[..]), old(heap), i) + 1)
      ensures r.Some? ==> forall i :: 0 <= i < |srcs| && r.value !in srcs[i] ==>
                Taken(pos[..], heap, i) == Taken(old(pos[..]), old(heap), i)
    {
      if heap == [] {
        return None;
      }
      ghost var c0, h0 := pos[..], heap;
      var sel, _, h', S := TakeGroup(ord, srcs, pos, heap);
      heap := h';
      var res := sel.value;
      StepKeepsConsistent(ord, srcs, c0, h0, pos[..], heap, S, res, sel, emitted);
      emitted := emitted + [res];
      r := Some(res);
    }
  }

  /**
   * `merge_iters_by(&mut iters, cmp).collect()`, as the documentation and the
   * tests use it (src/merge.rs:18-20, 44-46, 229-250): drain a fresh
   * iterator. The result is the sorted, deduplicated union of the sources,
   * and afterwards every source is exhausted.
   */
  method Merge(srcs: seq<seq<int>>, ord: Order) returns (out: seq<int>, cursors: seq<nat>)
    requires forall i :: 0 <= i < |srcs| ==> StrictlyIncreasing(ord, srcs[i])
    ensures StrictlyIncreasing(ord, out)
    ensures Elems(out) == AllValues(srcs)
    ensures |cursors| == |srcs| && forall i :: 0 <= i < |srcs| ==> cursors[i] == |srcs[i]|
  {
    var it := new MergeIterator(srcs, ord);
    out := [];
    var done := false;
    while !done
      invariant fresh(it.pos)
      invariant it.Valid() && it.srcs == srcs && it.ord == ord
      invariant out == it.emitted
      invariant done ==> it.heap == []
      decreases AllValues(srcs) - Elems(out), !done
    {
      var r := it.Next();
      if r.Some? {
        LastIsNew(ord, out, r.value);
        out := out + [r.value];
      } else {
        done := true;
      }
    }
    DrainedCoversAll(ord, srcs, it.pos[..], out);
    cursors := it.pos[..];
  }

  /** The first documented example (src/merge.rs:14-20, 229-236). */
  lemma DocumentedUnion(out: seq<int>)
    requires IsUnion(Natural, [[1, 2, 3, 4, 5], [3, 4, 5, 6, 7], [2, 3, 4]], out)
    ensures out == [1, 2, 3, 4, 5, 6, 7]
  {
    var srcs := [[1, 2, 3, 4, 5], [3, 4, 5, 6, 7], [2, 3, 4]];
    var expected := [1, 2, 3, 4, 5, 6, 7];
    assert Elems(expected) == AllValues(srcs) by {
      forall x | x in expected
        ensures x in AllValues(srcs)
      {
        if x <= 5 {
          InAllValues(srcs, 0, x - 1);
        } else {
          InAllValues(srcs, 1, x - 3);
        }
      }
    }
    IncreasingUnique(Natural, out, expected);
  }

  /** The reversed example (src/merge.rs:40-46, 241-248). */
  lemma DocumentedReversedUnion(out: seq<int>)
    requires IsUnion(Reversed, [[5, 4, 3, 2, 1], [7, 6, 5, 4, 3], [4, 3, 2]], out)
    ensures out == [7, 6, 5, 4, 3, 2, 1]
  {
    var srcs := [[5, 4, 3, 2, 1], [7, 6, 5, 4, 3], [4, 3, 2]];
    var expected := [7, 6, 5, 4, 3, 2, 1];
    assert Elems(expected) == AllValues(srcs) by {
      forall x | x in expected
        ensures x in AllValues(srcs)
      {
        if x <= 5 {
          InAllValues(srcs, 0, 5 - x);
        } else {
          InAllValues(srcs, 1, 7 - x);
        }
      }
    }
    IncreasingUnique(Reversed, out, expected);
  }

  /**
   * The inputs and asserted results of the tests `test_merge` and
   * `test_merge_by` (src/merge.rs:229-250), proved of the model: draining
   * gives the asserted values and leaves the second source exhausted.
   */
  method MergeExamples() returns (asc: seq<int>, ascCursors: seq<nat>, desc: seq<int>, descCursors: seq<nat>)
    ensures asc == [1, 2, 3, 4, 5, 6, 7] && |ascCursors| == 3 && ascCursors[1] == 5
    ensures desc == [7, 6, 5, 4, 3, 2, 1] && |descCursors| == 3 && descCursors[1] == 5
  {
    asc, ascCursors := Merge([[1, 2, 3, 4, 5], [3, 4, 5, 6, 7], [2, 3, 4]], Natural);
    DocumentedUnion(asc);
    desc, descCursors := Merge([[5, 4, 3, 2, 1], [7, 6, 5, 4, 3], [4, 3, 2]], Reversed);
    DocumentedReversedUnion(desc);
  }

  /**
   * Reversing the comparator on reversed sources reverses the merged output
   * and keeps its values.
   */
  lemma ReversedComparator(srcs: seq<seq<int>>, a: seq<int>, b: seq<int>)
    requires forall i :: 0 <= i < |srcs| ==> StrictlyIncreasing(Natural, srcs[i])
    requires IsUnion(Natural, srcs, a)
    requires IsUnion(Reversed, seq(|srcs|, i requires 0 <= i < |srcs| => Reverse(srcs[i])), b)
    ensures b == Reverse(a)
  {
    var rs := seq(|srcs|, i requires 0 <= i < |srcs| => Reverse(srcs[i]));
    forall i | 0 <= i < |srcs|
      ensures Elems(rs[i]) == Elems(srcs[i])
    {
      ReverseFlipsOrder(srcs[i]);
    }
    assert AllValues(rs) == AllValues(srcs) by {
      forall x
        ensures x in AllValues(rs) <==> x in AllValues(srcs)
      {
        if x in AllValues(rs) {
          var i :| 0 <= i < |rs| && x in rs[i];
          assert x in Elems(rs[i]);
        }
        if x in AllValues(srcs) {
          var i :| 0 <= i < |srcs| && x in srcs[i];
          assert x in Elems(srcs[i]);
        }
      }
    }
    ReverseFlipsOrder(a);
    IncreasingUnique(Reversed, b, Reverse(a));
  }

  /** No sources: the merge is empty from the start. */
  lemma NoSources(ord: Order, out: seq<int>)
    requires IsUnion(ord, [], out)
    ensures out == []
  {
    ElemsEmpty(out);
  }

  /** An empty source among others changes nothing: the output is the one without it. */
  lemma EmptySourceIsInert(ord: Order, srcs: seq<seq<int>>, k: nat, a: seq<int>, b: seq<int>)
    requires k <= |srcs|
    requires IsUnion(ord, srcs, a)
    requires IsUnion(ord, srcs[..k] + [[]] + srcs[k..], b)
    ensures a == b
  {
    var with := srcs[..k] + [[]] + srcs[k..];
    forall x
      ensures x in AllValues(with) <==> x in AllValues(srcs)
    {
      if x in AllValues(with) {
        var i :| 0 <= i < |with| && x in with[i];
        if i < k {
          assert with[i] == srcs[i];
        } else {
          assert with[i] == srcs[i - 1];
        }
      }
      if x in AllValues(srcs) {
        var i :| 0 <= i < |srcs| && x in srcs[i];
        if i < k {
          assert with[i] == srcs[i];
        } else {
          assert with[i + 1] == srcs[i];
        }
      }
    }
    IncreasingUnique(ord, a, b);
  }
}
