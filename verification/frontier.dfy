/**
 * The frontier of the lazy k-way merge of src/merge.rs, shared by
 * `MergeIterator` and `DetailedMergeIterator`.
 *
 * Source `i` is the finite sequence `srcs[i]` of the values its iterator still
 * had to yield when the merge was built; its iterator is the cursor `pos[i]`,
 * the number of values pulled from it so far (`iter.next()` yields
 * `srcs[i][pos[i]]` and moves the cursor, or yields nothing once
 * `pos[i] == |srcs[i]|`).
 *
 * The frontier is the heap's backing vector: a sequence of
 * `(source index, value)` entries with at most one entry per source that is
 * not exhausted. Its operations are the ones the heap offers the merge: peek at
 * a minimal entry, replace the value of that entry in place, or pop it. When
 * several entries are minimal, the model peeks at the first minimal slot
 * (`MinPos`), which stands in for whichever one the heap's sift order
 * exposes. Only `TakeGroup` (`sel == Top(ord, h)`) and, through it,
 * `DetailedMergeIterator.Next` (the group's last entry) depend on that
 * choice; every other contract holds for any minimal entry.
 */
module Frontier {
  import opened Comparator

  /** An entry `(usize, T)` of the heap. */
  datatype Entry = Entry(src: nat, value: int)

  /** The sources that have an entry in `h`. */
  ghost function Sources(h: seq<Entry>): set<nat>
  {
    set e | e in h :: e.src
  }

  ghost predicate DistinctSources(h: seq<Entry>)
  {
    forall k, l :: 0 <= k < l < |h| ==> h[k].src != h[l].src
  }

  /**
   * The frontier invariant: every entry is the value its source yielded last
   * (the one just before its cursor), no source has two entries, and a source
   * without an entry is exhausted.
   */
  ghost predicate FrontierInvariant(srcs: seq<seq<int>>, cursors: seq<nat>, h: seq<Entry>)
  {
    && |cursors| == |srcs|
    && (forall i :: 0 <= i < |srcs| ==> cursors[i] <= |srcs[i]|)
    && (forall e :: e in h ==>
          e.src < |srcs| && 0 < cursors[e.src] && e.value == srcs[e.src][cursors[e.src] - 1])
    && DistinctSources(h)
    && (forall i :: 0 <= i < |srcs| && i !in Sources(h) ==> cursors[i] == |srcs[i]|)
  }

  /**
   * How many values of source `i` have left the merge: every value pulled
   * from it except the one still pending in the frontier.
   */
  ghost function Taken(cursors: seq<nat>, h: seq<Entry>, i: nat): nat
    requires i < |cursors|
  {
    if i in Sources(h) && 0 < cursors[i] then cursors[i] - 1 else cursors[i]
  }

  /** The entries of `h` that hold `v`. */
  ghost function Ties(h: seq<Entry>, v: int): set<Entry>
  {
    set e | e in h && e.value == v
  }

  /** Every value held by some source. */
  ghost function AllValues(srcs: seq<seq<int>>): set<int>
  {
    set i, x | 0 <= i < |srcs| && x in srcs[i] :: x
  }

  lemma InAllValues(srcs: seq<seq<int>>, i: nat, p: nat)
    requires i < |srcs| && p < |srcs[i]|
    ensures srcs[i][p] in AllValues(srcs)
  {
    var x := srcs[i][p];
    assert x in srcs[i];
    assert exists j, y :: 0 <= j < |srcs| && y in srcs[j] && y == x;
  }

  /**
   * The first slot holding a minimal entry. It stands in for the entry the
   * heap's `peek`/`peek_mut` exposes, which is some minimal entry but, among
   * several, not necessarily the first. The heap is built on the reversed
   * comparator (src/merge.rs:58-60), so its maximum is a minimum under the
   * caller's comparator.
   */
  function MinPos(ord: Order, h: seq<Entry>): (k: nat)
    requires h != []
    ensures k < |h|
    ensures forall j :: 0 <= j < |h| ==> !Before(ord, h[j].value, h[k].value)
  {
    if |h| == 1 then 0
    else
      var k := MinPos(ord, h[..|h| - 1]);
      if Before(ord, h[|h| - 1].value, h[k].value) then |h| - 1 else k
  }

  /** The entry at the top of the heap. */
  function Top(ord: Order, h: seq<Entry>): (e: Entry)
    requires h != []
    ensures e in h
    ensures forall f :: f in h ==> !Before(ord, f.value, e.value)
  {
    h[MinPos(ord, h)]
  }

  lemma SourcesUpdate(h: seq<Entry>, k: nat, f: Entry)
    requires k < |h| && f.src == h[k].src
    ensures Sources(h[k := f]) == Sources(h)
  {
    var h' := h[k := f];
    forall i
      ensures i in Sources(h') <==> i in Sources(h)
    {
      if i in Sources(h') {
        var e :| e in h' && e.src == i;
        var m :| 0 <= m < |h'| && h'[m] == e;
        assert h[m].src == i;
      }
      if i in Sources(h) {
        var e :| e in h && e.src == i;
        var m :| 0 <= m < |h| && h[m] == e;
        assert h'[m].src == i;
      }
    }
  }

  lemma SourcesRemove(h: seq<Entry>, k: nat)
    requires k < |h| && DistinctSources(h)
    ensures DistinctSources(h[..k] + h[k + 1..])
    ensures Sources(h[..k] + h[k + 1..]) == Sources(h) - {h[k].src}
    ensures forall f :: f in h[..k] + h[k + 1..] ==> f in h && f.src != h[k].src
  {
    var h' := h[..k] + h[k + 1..];
    assert forall m :: 0 <= m < |h'| ==> h'[m] == h[if m < k then m else m + 1];
    forall i
      ensures i in Sources(h') <==> i in Sources(h) && i != h[k].src
    {
      if i in Sources(h) && i != h[k].src {
        var e :| e in h && e.src == i;
        var m :| 0 <= m < |h| && h[m] == e;
        assert m != k;
        assert h'[if m < k then m else m - 1] == e;
      }
    }
  }

  /**
   * Construction of the frontier (src/merge.rs:52-57, 160-165): pull the first
   * value of every source, in index order, and keep an entry for each source
   * that yielded one.
   */
  method Seed(srcs: seq<seq<int>>, pos: array<nat>) returns (h: seq<Entry>)
    requires pos.Length == |srcs|
    requires forall i :: 0 <= i < pos.Length ==> pos[i] == 0
    modifies pos
    ensures FrontierInvariant(srcs, pos[..], h)
    ensures forall i :: 0 <= i < |srcs| ==> pos[i] == if srcs[i] == [] then 0 else 1
    ensures forall e :: e in h <==> e.src < |srcs| && srcs[e.src] != [] && e.value == srcs[e.src][0]
    ensures forall i :: 0 <= i < |srcs| ==> Taken(pos[..], h, i) == 0
  {
    h := [];
    for i := 0 to |srcs|
      invariant forall j :: 0 <= j < i ==> pos[j] == if srcs[j] == [] then 0 else 1
      invariant forall j :: i <= j < |srcs| ==> pos[j] == 0
      invariant forall e :: e in h <==> e.src < i && srcs[e.src] != [] && e.value == srcs[e.src][0]
      invariant DistinctSources(h)
    {
      if pos[i] < |srcs[i]| {
        var x := srcs[i][pos[i]];
        pos[i] := pos[i] + 1;
        h := h + [Entry(i, x)];
      }
    }
    forall i | 0 <= i < |srcs| && srcs[i] != []
      ensures i in Sources(h)
    {
      assert Entry(i, srcs[i][0]) in h;
    }
  }

  /**
   * The frontier went from `(c, h)` to `(c', h')` by using entry `e`: its
   * value was the next value of its source to leave the merge, exactly that
   * source gave up one value, and every entry now in the frontier is an old
   * entry of another source or the refilled entry of `e`'s source, holding
   * the value that follows `e`'s.
   */
  ghost predicate Advanced(srcs: seq<seq<int>>, c: seq<nat>, h: seq<Entry>,
                           c': seq<nat>, h': seq<Entry>, e: Entry)
    requires |c| == |srcs| && |c'| == |srcs| && e.src < |srcs|
  {
    && Taken(c, h, e.src) < |srcs[e.src]|
    && e.value == srcs[e.src][Taken(c, h, e.src)]
    && (forall i :: 0 <= i < |srcs| ==>
          Taken(c', h', i) == Taken(c, h, i) + (if i == e.src then 1 else 0))
    && (forall f :: f in h' ==>
          || (f.src != e.src && f in h)
          || (&& f.src == e.src
              && Taken(c, h, e.src) + 1 < |srcs[e.src]|
              && f.value == srcs[e.src][Taken(c, h, e.src) + 1]))
  }

  /**
   * One use of the top entry (src/merge.rs:84-91, 95-100, 193-200, 204-211):
   * pull the next value of the entry's source; if there is one, swap it into
   * the entry in place and give back the old value, otherwise pop the entry.
   * Either way the entry as it was is returned.
   */
  method AdvanceEntry(srcs: seq<seq<int>>, pos: array<nat>, h: seq<Entry>, k: nat)
    returns (e: Entry, h': seq<Entry>)
    requires FrontierInvariant(srcs, pos[..], h) && k < |h|
    modifies pos
    ensures e == h[k]
    ensures FrontierInvariant(srcs, pos[..], h')
    ensures old(pos[e.src]) < |srcs[e.src]| ==>
              && pos[..] == old(pos[..])[e.src := old(pos[e.src]) + 1]
              && h' == h[k := Entry(e.src, srcs[e.src][old(pos[e.src])])]
    ensures old(pos[e.src]) == |srcs[e.src]| ==>
              pos[..] == old(pos[..]) && h' == h[..k] + h[k + 1..]
    ensures Advanced(srcs, old(pos[..]), h, pos[..], h', e)
  {
    e := h[k];
    var i := e.src;
    assert e in h;
    assert i in Sources(h);
    if pos[i] < |srcs[i]| {
      var x := srcs[i][pos[i]];
      pos[i] := pos[i] + 1;
      h' := h[k := Entry(i, x)];
      SourcesUpdate(h, k, Entry(i, x));
      forall f | f in h'
        ensures f.src != i ==> f in h
        ensures f.src == i ==> f == Entry(i, x)
      {
        var m :| 0 <= m < |h'| && h'[m] == f;
        if m != k {
          assert h[m] == f;
          assert h[m].src != h[k].src;
        }
      }
    } else {
      h' := h[..k] + h[k + 1..];
      SourcesRemove(h, k);
    }
  }

  /**
   * The invariant of the tie-consuming loop of `next` (src/merge.rs:93-104,
   * 202-215), for a call that started from `(c0, h0)` and took value `v`:
   * the sources in `S` each gave up `v`, no pending entry comes before `v`,
   * and the entries of sources in `S` now come after it.
   */
  ghost predicate TieLoop(ord: Order, srcs: seq<seq<int>>, c0: seq<nat>, h0: seq<Entry>,
                          c: seq<nat>, h: seq<Entry>, S: set<nat>, v: int)
  {
    && |c0| == |srcs|
    && FrontierInvariant(srcs, c, h)
    && Consumed(srcs, c0, h0, c, h, S, v)
    && (forall e :: e in h ==> !Before(ord, e.value, v))
    && (forall e :: e in h && e.src in S ==> Before(ord, v, e.value))
  }

  /** Taking the top entry starts the tie loop. */
  lemma FirstTake(ord: Order, srcs: seq<seq<int>>, c0: seq<nat>, h0: seq<Entry>,
                  c: seq<nat>, h: seq<Entry>, e: Entry)
    requires forall i :: 0 <= i < |srcs| ==> StrictlyIncreasing(ord, srcs[i])
    requires FrontierInvariant(srcs, c0, h0) && FrontierInvariant(srcs, c, h)
    requires e in h0 && forall f :: f in h0 ==> !Before(ord, f.value, e.value)
    requires Advanced(srcs, c0, h0, c, h, e)
    ensures TieLoop(ord, srcs, c0, h0, c, h, {e.src}, e.value)
  {
    forall f | f in h && f.src == e.src
      ensures Before(ord, e.value, f.value)
    {
      var t := Taken(c0, h0, e.src);
      assert Before(ord, srcs[e.src][t], srcs[e.src][t + 1]);
    }
  }

  /**
   * Consuming an entry that ties with `v` keeps the tie loop's invariant,
   * with one more source consumed and one tie fewer in the frontier.
   */
  lemma ConsumeTie(ord: Order, srcs: seq<seq<int>>, c0: seq<nat>, h0: seq<Entry>,
                   c: seq<nat>, h: seq<Entry>, S: set<nat>, v: int,
                   c': seq<nat>, h': seq<Entry>, e: Entry)
    requires forall i :: 0 <= i < |srcs| ==> StrictlyIncreasing(ord, srcs[i])
    requires TieLoop(ord, srcs, c0, h0, c, h, S, v)
    requires e in h && e.value == v
    requires FrontierInvariant(srcs, c', h')
    requires Advanced(srcs, c, h, c', h', e)
    ensures e.src !in S
    ensures TieLoop(ord, srcs, c0, h0, c', h', S + {e.src}, v)
    ensures Ties(h', v) < Ties(h, v)
  {
    assert e.src !in S;
    var t := Taken(c, h, e.src);
    forall f | f in h' && f.src == e.src
      ensures Before(ord, v, f.value)
    {
      assert Before(ord, srcs[e.src][t], srcs[e.src][t + 1]);
    }
    assert e in Ties(h, v) && e !in Ties(h', v);
  }

  /**
   * What one `next` does to the frontier: every source in `S` gave up exactly
   * one value, equal to `v`; every other source gave up nothing.
   */
  ghost predicate Consumed(srcs: seq<seq<int>>, c0: seq<nat>, h0: seq<Entry>,
                           c: seq<nat>, h: seq<Entry>, S: set<nat>, v: int)
    requires |c0| == |srcs| && |c| == |srcs|
  {
    && (forall i :: i in S ==>
          && i < |srcs|
          && Taken(c0, h0, i) < |srcs[i]|
          && srcs[i][Taken(c0, h0, i)] == v
          && Taken(c, h, i) == Taken(c0, h0, i) + 1)
    && (forall i :: 0 <= i < |srcs| && i !in S ==> Taken(c, h, i) == Taken(c0, h0, i))
  }

  /**
   * The values emitted so far, `out`, agree with the state of the frontier:
   * they are strictly increasing, they all come from the sources, every value
   * that has left the merge was emitted, and everything still pending comes
   * after the last emitted value.
   */
  ghost predicate Consistent(ord: Order, srcs: seq<seq<int>>, cursors: seq<nat>, h: seq<Entry>, out: seq<int>)
    requires |cursors| == |srcs|
  {
    && StrictlyIncreasing(ord, out)
    && (forall x :: x in out ==> x in AllValues(srcs))
    && (forall i, p :: 0 <= i < |srcs| && 0 <= p < Taken(cursors, h, i) && p < |srcs[i]| ==> srcs[i][p] in out)
    && (out != [] ==> forall e :: e in h ==> Before(ord, out[|out| - 1], e.value))
  }

  /**
   * A `next` call that takes a minimal entry of value `v` and every entry that
   * ties with it keeps the emitted values consistent with the frontier once
   * `v` is appended, and the sources it consumed are exactly those that hold
   * `v`.
   */
  lemma {:induction false} StepKeepsConsistent(ord: Order, srcs: seq<seq<int>>,
                                               c0: seq<nat>, h0: seq<Entry>,
                                               c: seq<nat>, h: seq<Entry>,
                                               S: set<nat>, v: int, sel: Entry, out: seq<int>)
    requires forall i :: 0 <= i < |srcs| ==> StrictlyIncreasing(ord, srcs[i])
    requires FrontierInvariant(srcs, c0, h0) && FrontierInvariant(srcs, c, h)
    requires Consistent(ord, srcs, c0, h0, out)
    requires Consumed(srcs, c0, h0, c, h, S, v)
    requires sel in h0 && sel.value == v
    requires forall e :: e in h ==> Before(ord, v, e.value)
    ensures Consistent(ord, srcs, c, h, out + [v])
    ensures forall i :: 0 <= i < |srcs| ==> (i in S <==> v in srcs[i])
  {
    var out' := out + [v];
    InAllValues(srcs, sel.src, c0[sel.src] - 1);
    if out != [] {
      assert Before(ord, out[|out| - 1], v);
    }
    forall i, j | 0 <= i < j < |out'|
      ensures Before(ord, out'[i], out'[j])
    {
      if j == |out| {
        AtMostLast(ord, out, out[i]);
      }
    }
    forall i, p | 0 <= i < |srcs| && 0 <= p < Taken(c, h, i) && p < |srcs[i]|
      ensures srcs[i][p] in out'
    {
      if p < Taken(c0, h0, i) {
        assert srcs[i][p] in out;
      }
    }
    forall i, p | 0 <= i < |srcs| && Taken(c, h, i) <= p < |srcs[i]|
      ensures Before(ord, v, srcs[i][p])
    {
      assert i in Sources(h);
      var e :| e in h && e.src == i;
      assert e.value == srcs[i][Taken(c, h, i)];
    }
    forall i, p | 0 <= i < |srcs| && 0 <= p < Taken(c0, h0, i) && p < |srcs[i]|
      ensures Before(ord, srcs[i][p], v)
    {
      AtMostLast(ord, out, srcs[i][p]);
    }
    forall i | 0 <= i < |srcs|
      ensures i in S <==> v in srcs[i]
    {
      if v in srcs[i] {
        var p :| 0 <= p < |srcs[i]| && srcs[i][p] == v;
      }
    }
  }

  /**
   * Once the frontier is empty, every source is exhausted and every value of
   * every source has been emitted.
   */
  lemma DrainedCoversAll(ord: Order, srcs: seq<seq<int>>, c: seq<nat>, out: seq<int>)
    requires FrontierInvariant(srcs, c, [])
    requires Consistent(ord, srcs, c, [], out)
    ensures forall i :: 0 <= i < |srcs| ==> c[i] == |srcs[i]| && Taken(c, [], i) == |srcs[i]|
    ensures Elems(out) == AllValues(srcs)
  {
    forall x
      ensures x in Elems(out) <==> x in AllValues(srcs)
    {
      if x in AllValues(srcs) {
        var i, p :| 0 <= i < |srcs| && 0 <= p < |srcs[i]| && srcs[i][p] == x;
        assert Taken(c, [], i) == |srcs[i]|;
      }
    }
  }

  /**
   * The work of one `next` on a non-empty frontier (src/merge.rs:84-104,
   * 193-215): use the top entry `sel`, then, while the top of the frontier
   * compares `Equal` to `sel`'s value, use that entry too. `ties` records the
   * tied entries in the order they were used; `S` is the set of sources that
   * gave up a value. Afterwards exactly the sources in `S` have given up one
   * value each, `sel`'s value, and everything still pending comes strictly
   * after it.
   */
  method TakeGroup(ord: Order, srcs: seq<seq<int>>, pos: array<nat>, h: seq<Entry>)
    returns (sel: Entry, ties: seq<Entry>, h': seq<Entry>, ghost S: set<nat>)
    requires forall i :: 0 <= i < |srcs| ==> StrictlyIncreasing(ord, srcs[i])
    requires FrontierInvariant(srcs, pos[..], h) && h != []
    modifies pos
    ensures sel == Top(ord, h)
    ensures FrontierInvariant(srcs, pos[..], h')
    ensures Consumed(srcs, old(pos[..]), h, pos[..], h', S, sel.value)
    ensures sel.src in S
    ensures forall e :: e in h' ==> Before(ord, sel.value, e.value)
    ensures forall f :: f in ties ==> f.value == sel.value
    ensures DistinctSources(ties) && Sources(ties) == S - {sel.src}
  {
    ghost var c0 := pos[..];
    var k := MinPos(ord, h);
    sel, h' := AdvanceEntry(srcs, pos, h, k);
    var v := sel.value;
    ties := [];
    S := {sel.src};
    FirstTake(ord, srcs, c0, h, pos[..], h', sel);
    while h' != []
      invariant TieLoop(ord, srcs, c0, h, pos[..], h', S, v)
      invariant forall f :: f in ties ==> f.value == v
      invariant DistinctSources(ties)
      invariant sel.src in S && Sources(ties) == S - {sel.src}
      decreases Ties(h', v)
    {
      var t := MinPos(ord, h');
      if Compare(ord, v, h'[t].value) == Equal {
        ghost var c, hc := pos[..], h';
        var tied;
        tied, h' := AdvanceEntry(srcs, pos, h', t);
        ConsumeTie(ord, srcs, c0, h, c, hc, S, v, pos[..], h', tied);
        AppendDistinct(ties, tied);
        ties := ties + [tied];
        S := S + {tied.src};
      } else {
        assert forall e :: e in h' ==> Before(ord, v, e.value);
        break;
      }
    }
  }

  /** Appending an entry of a new source keeps the sources distinct. */
  lemma AppendDistinct(g: seq<Entry>, e: Entry)
    requires DistinctSources(g) && e.src !in Sources(g)
    ensures DistinctSources(g + [e])
    ensures Sources(g + [e]) == Sources(g) + {e.src}
  {
    forall k | 0 <= k < |g|
      ensures g[k].src != e.src
    {
      assert g[k] in g;
    }
  }
}
