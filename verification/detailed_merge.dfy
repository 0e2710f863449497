/**
 * `DetailedMergeIterator` (src/merge.rs:112-222): the lazy union of sorted,
 * deduplicated sources that emits, for each distinct value, the group of
 * `(source index, value)` entries of every source holding it.
 */
module DetailedMerge {
  import opened Wrappers
  import opened Comparator
  import opened Frontier

  /** The value a group stands for: that of its last entry, the source selected first. */
  function GroupValue(g: seq<Entry>): int
  {
    if g == [] then 0 else g[|g| - 1].value
  }

  function GroupValues(gs: seq<seq<Entry>>): seq<int>
  {
    seq(|gs|, k requires 0 <= k < |gs| => GroupValue(gs[k]))
  }

  lemma GroupValuesAppend(gs: seq<seq<Entry>>, g: seq<Entry>)
    ensures GroupValues(gs + [g]) == GroupValues(gs) + [GroupValue(g)]
  {
  }

  /** All emitted entries, group after group. */
  function Flatten(gs: seq<seq<Entry>>): seq<Entry>
  {
    if gs == [] then [] else Flatten(gs[..|gs| - 1]) + gs[|gs| - 1]
  }

  /** The values of the entries of source `i`, in order. */
  function Project(s: seq<Entry>, i: nat): seq<int>
  {
    if s == [] then []
    else Project(s[..|s| - 1], i) + (if s[|s| - 1].src == i then [s[|s| - 1].value] else [])
  }

  /**
   * A well-formed group: non-empty, every entry holds the group's value,
   * no source appears twice, and the sources present are exactly those whose
   * sequences hold the value.
   */
  ghost predicate GroupOk(srcs: seq<seq<int>>, g: seq<Entry>)
  {
    && g != []
    && (forall e :: e in g ==> e.value == GroupValue(g) && e.src < |srcs|)
    && DistinctSources(g)
    && (forall i :: 0 <= i < |srcs| ==> (i in Sources(g) <==> GroupValue(g) in srcs[i]))
  }

  /**
   * `groups` is what draining the detailed merge of `srcs` yields: well-formed
   * groups, one per distinct value, in strictly increasing order of value,
   * covering every value, and keeping each source's values in order.
   */
  ghost predicate IsDetailedUnion(ord: Order, srcs: seq<seq<int>>, groups: seq<seq<Entry>>)
  {
    && (forall g :: g in groups ==> GroupOk(srcs, g))
    && StrictlyIncreasing(ord, GroupValues(groups))
    && Elems(GroupValues(groups)) == AllValues(srcs)
    && (forall i :: 0 <= i < |srcs| ==> Project(Flatten(groups), i) == srcs[i])
  }

  /** Projection onto one source distributes over concatenation. */
  lemma {:induction false} ProjectConcat(a: seq<Entry>, b: seq<Entry>, i: nat)
    ensures Project(a + b, i) == Project(a, i) + Project(b, i)
  {
    if b == [] {
      assert a + b == a;
    } else {
      var b' := b[..|b| - 1];
      assert (a + b)[..|a + b| - 1] == a + b';
      ProjectConcat(a, b', i);
    }
  }

  /**
   * In a group of distinct sources that all hold `v`, source `i` contributes
   * `[v]` if present and nothing otherwise.
   */
  lemma {:induction false} ProjectGroup(g: seq<Entry>, v: int, i: nat)
    requires DistinctSources(g)
    requires forall e :: e in g ==> e.value == v
    ensures Project(g, i) == if i in Sources(g) then [v] else []
  {
    if g != [] {
      var g' := g[..|g| - 1];
      var last := g[|g| - 1];
      assert g == g' + [last];
      forall e | e in g'
        ensures e.src != last.src
      {
        var m :| 0 <= m < |g'| && g'[m] == e;
        assert g[m] == e;
      }
      assert Sources(g) == Sources(g') + {last.src};
      ProjectGroup(g', v, i);
    }
  }

  /** A group of distinct sources has one entry per source it names. */
  lemma {:induction false} DistinctCount(g: seq<Entry>)
    requires DistinctSources(g)
    ensures |Sources(g)| == |g|
  {
    if g != [] {
      var g' := g[..|g| - 1];
      var last := g[|g| - 1];
      assert g == g' + [last];
      forall e | e in g'
        ensures e.src != last.src
      {
        var m :| 0 <= m < |g'| && g'[m] == e;
        assert g[m] == e;
      }
      assert Sources(g) == Sources(g') + {last.src};
      DistinctCount(g');
    }
  }

  /**
   * The entries recorded by one `next`, followed by the one taken first, form
   * a well-formed group when `S`, their sources, is exactly the set of
   * sources holding `v`.
   */
  lemma GroupFormed(srcs: seq<seq<int>>, S: set<nat>, v: int, sel: Entry, details: seq<Entry>)
    requires forall i :: i in S ==> i < |srcs|
    requires forall i :: 0 <= i < |srcs| ==> (i in S <==> v in srcs[i])
    requires sel.value == v && sel.src in S
    requires forall f :: f in details ==> f.value == v
    requires DistinctSources(details) && Sources(details) == S - {sel.src}
    ensures GroupOk(srcs, details + [sel]) && GroupValue(details + [sel]) == v
    ensures Sources(details + [sel]) == S
  {
    var g := details + [sel];
    AppendDistinct(details, sel);
    assert GroupValue(g) == v;
    forall e | e in g
      ensures e.value == v && e.src < |srcs|
    {
      assert e.src in Sources(g);
    }
  }

  /**
   * Appending a group whose sources are exactly those that advanced, each by
   * one value `v`, keeps every source's projection equal to what it has
   * yielded so far.
   */
  lemma {:induction false} GroupConserves(srcs: seq<seq<int>>, c0: seq<nat>, h0: seq<Entry>,
                                          c: seq<nat>, h: seq<Entry>, S: set<nat>, v: int,
                                          g: seq<Entry>, emitted: seq<seq<Entry>>)
    requires |c0| == |srcs| && |c| == |srcs|
    requires forall i :: 0 <= i < |srcs| ==> Taken(c0, h0, i) <= |srcs[i]|
    requires forall i :: 0 <= i < |srcs| ==> Project(Flatten(emitted), i) == srcs[i][..Taken(c0, h0, i)]
    requires Consumed(srcs, c0, h0, c, h, S, v)
    requires forall e :: e in g ==> e.value == v
    requires DistinctSources(g) && Sources(g) == S
    ensures forall i :: 0 <= i < |srcs| ==>
              Project(Flatten(emitted + [g]), i) == srcs[i][..Taken(c, h, i)]
  {
    var gs := emitted + [g];
    assert gs[..|gs| - 1] == emitted;
    assert Flatten(gs) == Flatten(emitted) + g;
    forall i | 0 <= i < |srcs|
      ensures Project(Flatten(gs), i) == srcs[i][..Taken(c, h, i)]
    {
      ProjectConcat(Flatten(emitted), g, i);
      ProjectGroup(g, v, i);
      if i in S {
        assert srcs[i][..Taken(c, h, i)] == srcs[i][..Taken(c0, h0, i)] + [v];
      }
    }
  }

  /**
   * The state of a detailed merge: sorted sources, a well-formed frontier, a
   * history of well-formed groups whose values are consistent with the
   * frontier, and every source's entries in the history equal to what that
   * source has yielded.
   */
  ghost predicate DetailedInv(ord: Order, srcs: seq<seq<int>>, c: seq<nat>, h: seq<Entry>, emitted: seq<seq<Entry>>)
  {
    && (forall i :: 0 <= i < |srcs| ==> StrictlyIncreasing(ord, srcs[i]))
    && FrontierInvariant(srcs, c, h)
    && Consistent(ord, srcs, c, h, GroupValues(emitted))
    && (forall g :: g in emitted ==> GroupOk(srcs, g))
    && (forall i :: 0 <= i < |srcs| ==> Project(Flatten(emitted), i) == srcs[i][..Taken(c, h, i)])
  }

  /**
   * The group `details + [sel]` that one `next` emits is well formed, and
   * appending it keeps the emitted history consistent with the frontier and
   * conserves every source's values.
   */
  lemma EmitGroup(ord: Order, srcs: seq<seq<int>>, c0: seq<nat>, h0: seq<Entry>,
                  c: seq<nat>, h: seq<Entry>, S: set<nat>, v: int, sel: Entry,
                  details: seq<Entry>, emitted: seq<seq<Entry>>)
    requires DetailedInv(ord, srcs, c0, h0, emitted) && FrontierInvariant(srcs, c, h)
    requires Consumed(srcs, c0, h0, c, h, S, v)
    requires sel in h0 && sel.value == v && sel.src in S
    requires forall e :: e in h ==> Before(ord, v, e.value)
    requires forall f :: f in details ==> f.value == v
    requires DistinctSources(details) && Sources(details) == S - {sel.src}
    ensures GroupOk(srcs, details + [sel]) && GroupValue(details + [sel]) == v
    ensures DetailedInv(ord, srcs, c, h, emitted + [details + [sel]])
  {
    var g := details + [sel];
    StepKeepsConsistent(ord, srcs, c0, h0, c, h, S, v, sel, GroupValues(emitted));
    GroupFormed(srcs, S, v, sel, details);
    assert GroupValues(emitted + [g]) == GroupValues(emitted) + [v];
    forall i | 0 <= i < |srcs|
      ensures Taken(c0, h0, i) <= |srcs[i]|
    {
    }
    GroupConserves(srcs, c0, h0, c, h, S, v, g, emitted);
    forall g' | g' in emitted + [g]
      ensures GroupOk(srcs, g')
    {
      if g' != g {
        assert g' in emitted;
      }
    }
  }

  class DetailedMergeIterator {
    /** What each source iterator still had to yield when the merge was built. */
    const srcs: seq<seq<int>>
    /** The comparator `cmp`. */
    const ord: Order
    /** The source cursors: `iters`. */
    const pos: array<nat>
    /** The frontier: `heap`. */
    var heap: seq<Entry>
    /** Every group returned by `Next` so far. */
    ghost var emitted: seq<seq<Entry>>

    ghost predicate Valid()
      reads this, pos
    {
      DetailedInv(ord, srcs, pos[..], heap, emitted)
    }

    /**
     * `merge_iters_detailed_by(iters, cmp)`, and `merge_iters_detailed(iters)`
     * with the natural order: pull the first value of every source into the
     * frontier.
     */
    constructor (srcs: seq<seq<int>>, ord: Order)
      requires forall i :: 0 <= i < |srcs| ==> StrictlyIncreasing(ord, srcs[i])
      ensures Valid() && fresh(pos)
      ensures this.srcs == srcs && this.ord == ord && emitted == []
      ensures forall i :: 0 <= i < |srcs| ==> pos[i] == if srcs[i] == [] then 0 else 1
      ensures forall e :: e in heap <==> e.src < |srcs| && srcs[e.src] != [] && e.value == srcs[e.src][0]
    {
      this.srcs := srcs;
      this.ord := ord;
      var cursors := new nat[|srcs|](_ => 0);
      var h := Seed(srcs, cursors);
      pos := cursors;
      heap := h;
      emitted := [];
    }

    /**
     * `next`: take the top entry, refill or pop it, then consume every further
     * top entry that compares `Equal` to the value taken, recording each as it
     * was; return the recorded entries followed by the one taken first, or
     * `None`, changing nothing, once the frontier is empty.
     */
    method Next() returns (r: Option<seq<Entry>>)
      requires Valid()
      modifies this, pos
      ensures Valid()
      ensures r.None? <==> old(heap) == []
      ensures r.None? ==> heap == old(heap) && pos[..] == old(pos[..]) && emitted == old(emitted)
      ensures r.Some? ==> GroupOk(srcs, r.value) && emitted == old(emitted) + [r.value]
      ensures r.Some? ==> r.value[|r.value| - 1] == Top(ord, old(heap))
      ensures r.Some? ==> forall e :: e in heap ==> Compare(ord, GroupValue(r.value), e.value) == Less
    {
      if heap == [] {
        return None;
      }
      ghost var c0, h0 := pos[..], heap;
      var sel, ties, h', S := TakeGroup(ord, srcs, pos, heap);
      heap := h';
      EmitGroup(ord, srcs, c0, h0, pos[..], heap, S, sel.value, sel, ties, emitted);
      var details := ties + [sel];
      emitted := emitted + [details];
      r := Some(details);
    }
  }

  /**
   * `merge_iters_detailed_by(&mut iters, cmp).collect()`, as the
   * documentation and the tests use it (src/merge.rs:144-149, 253-271): drain
   * a fresh iterator. Every group is well formed, the groups' values are the
   * sorted, deduplicated union of the sources, keeping the entries of source
   * `i` gives back source `i`, and afterwards every source is exhausted.
   */
  method MergeDetailed(srcs: seq<seq<int>>, ord: Order) returns (groups: seq<seq<Entry>>, cursors: seq<nat>)
    requires forall i :: 0 <= i < |srcs| ==> StrictlyIncreasing(ord, srcs[i])
    ensures forall g :: g in groups ==> GroupOk(srcs, g)
    ensures StrictlyIncreasing(ord, GroupValues(groups))
    ensures Elems(GroupValues(groups)) == AllValues(srcs)
    ensures forall i :: 0 <= i < |srcs| ==> Project(Flatten(groups), i) == srcs[i]
    ensures |cursors| == |srcs| && forall i :: 0 <= i < |srcs| ==> cursors[i] == |srcs[i]|
  {
    var it := new DetailedMergeIterator(srcs, ord);
    groups := [];
    var done := false;
    while !done
      invariant fresh(it.pos)
      invariant it.Valid() && it.srcs == srcs && it.ord == ord
      invariant groups == it.emitted
      invariant done ==> it.heap == []
      decreases AllValues(srcs) - Elems(GroupValues(groups)), !done
    {
      var r := it.Next();
      if r.Some? {
        GroupValuesAppend(groups, r.value);
        LastIsNew(ord, GroupValues(groups), GroupValue(r.value));
        groups := groups + [r.value];
      } else {
        done := true;
      }
    }
    DrainedCoversAll(ord, srcs, it.pos[..], GroupValues(groups));
    cursors := it.pos[..];
  }

  /**
   * The documented detailed example (src/merge.rs:119-124, 253-259): sources
   * `[1, 2]` and `[2, 3]` give `[(0, 1)]`, then both `(1, 2)` and `(0, 2)` in
   * one group, then `[(1, 3)]`.
   */
  lemma DocumentedDetailed(groups: seq<seq<Entry>>)
    requires IsDetailedUnion(Natural, [[1, 2], [2, 3]], groups)
    ensures |groups| == 3
    ensures groups[0] == [Entry(0, 1)]
    ensures |groups[1]| == 2 && Elems(groups[1]) == {Entry(1, 2), Entry(0, 2)}
    ensures groups[2] == [Entry(1, 3)]
  {
    var srcs := [[1, 2], [2, 3]];
    var expected := [1, 2, 3];
    assert Elems(expected) == AllValues(srcs) by {
      InAllValues(srcs, 0, 0);
      InAllValues(srcs, 0, 1);
      InAllValues(srcs, 1, 1);
    }
    IncreasingUnique(Natural, GroupValues(groups), expected);
    assert |groups| == 3;
    assert GroupValue(groups[0]) == 1 && GroupValue(groups[1]) == 2 && GroupValue(groups[2]) == 3 by {
      assert GroupValues(groups)[0] == GroupValue(groups[0]);
      assert GroupValues(groups)[1] == GroupValue(groups[1]);
      assert GroupValues(groups)[2] == GroupValue(groups[2]);
    }
    assert groups[0] in groups && groups[1] in groups && groups[2] in groups;
    SingleSourceGroup(srcs, groups[0], 0);
    SingleSourceGroup(srcs, groups[2], 1);
    var g := groups[1];
    assert Sources(g) == {0, 1};
    DistinctCount(g);
    forall e | e in g
      ensures e == Entry(1, 2) || e == Entry(0, 2)
    {
      assert e.src in Sources(g);
    }
    assert 0 in Sources(g) && 1 in Sources(g);
  }

  /**
   * The documented example with the reversed comparator (src/merge.rs:144-149,
   * 264-271): sources `[2, 1]` and `[3, 2]` give `[(1, 3)]`, then both
   * `(0, 2)` and `(1, 2)` in one group, then `[(0, 1)]`.
   */
  lemma DocumentedDetailedReversed(groups: seq<seq<Entry>>)
    requires IsDetailedUnion(Reversed, [[2, 1], [3, 2]], groups)
    ensures |groups| == 3
    ensures groups[0] == [Entry(1, 3)]
    ensures |groups[1]| == 2 && Elems(groups[1]) == {Entry(0, 2), Entry(1, 2)}
    ensures groups[2] == [Entry(0, 1)]
  {
    var srcs := [[2, 1], [3, 2]];
    var expected := [3, 2, 1];
    assert Elems(expected) == AllValues(srcs) by {
      InAllValues(srcs, 0, 0);
      InAllValues(srcs, 0, 1);
      InAllValues(srcs, 1, 0);
    }
    IncreasingUnique(Reversed, GroupValues(groups), expected);
    assert |groups| == 3;
    assert GroupValue(groups[0]) == 3 && GroupValue(groups[1]) == 2 && GroupValue(groups[2]) == 1 by {
      assert GroupValues(groups)[0] == GroupValue(groups[0]);
      assert GroupValues(groups)[1] == GroupValue(groups[1]);
      assert GroupValues(groups)[2] == GroupValue(groups[2]);
    }
    assert groups[0] in groups && groups[1] in groups && groups[2] in groups;
    SingleSourceGroup(srcs, groups[0], 1);
    SingleSourceGroup(srcs, groups[2], 0);
    var g := groups[1];
    assert Sources(g) == {0, 1};
    DistinctCount(g);
    forall e | e in g
      ensures e == Entry(0, 2) || e == Entry(1, 2)
    {
      assert e.src in Sources(g);
    }
    assert 0 in Sources(g) && 1 in Sources(g);
  }

  /**
   * The inputs and asserted results of the tests `test_merge_detailed` and
   * `test_merge_detailed_by` (src/merge.rs:253-271), proved of the model:
   * draining gives the asserted groups, up to the order of entries inside the
   * tied group, and leaves the second source exhausted.
   */
  method DetailedExamples() returns (asc: seq<seq<Entry>>, ascCursors: seq<nat>, desc: seq<seq<Entry>>, descCursors: seq<nat>)
    ensures |asc| == 3 && asc[0] == [Entry(0, 1)] && asc[2] == [Entry(1, 3)]
    ensures |asc[1]| == 2 && Elems(asc[1]) == {Entry(1, 2), Entry(0, 2)}
    ensures |ascCursors| == 2 && ascCursors[1] == 2
    ensures |desc| == 3 && desc[0] == [Entry(1, 3)] && desc[2] == [Entry(0, 1)]
    ensures |desc[1]| == 2 && Elems(desc[1]) == {Entry(0, 2), Entry(1, 2)}
    ensures |descCursors| == 2 && descCursors[1] == 2
  {
    asc, ascCursors := MergeDetailed([[1, 2], [2, 3]], Natural);
    DocumentedDetailed(asc);
    desc, descCursors := MergeDetailed([[2, 1], [3, 2]], Reversed);
    DocumentedDetailedReversed(desc);
  }

  /** A well-formed group whose value only source `i` holds is `[(i, value)]`. */
  lemma SingleSourceGroup(srcs: seq<seq<int>>, g: seq<Entry>, i: nat)
    requires GroupOk(srcs, g) && i < |srcs|
    requires forall j :: 0 <= j < |srcs| ==> (GroupValue(g) in srcs[j] <==> j == i)
    ensures g == [Entry(i, GroupValue(g))]
  {
    assert Sources(g) == {i} by {
      forall j | j in Sources(g)
        ensures j == i
      {
        var e :| e in g && e.src == j;
      }
    }
    DistinctCount(g);
    assert g[0] in g && g[0].src in Sources(g);
  }
}
