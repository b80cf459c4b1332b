/**
 * The LCP-interval sweep of apultra_build_suffix_array (matchfinder.c:111-163).
 *
 * The rank entries are read in rank order.  An interval is identified by the
 * order in which it was opened (0 is the root); `depth[x]` is the LCP field
 * of interval x, tag bits included, which is what every comparison of the
 * sweep uses, and the ghost `ext[x]` the ranks it spans.  When the sweep
 * ends (LcpTree), the intervals are the LCP intervals of the rank order,
 * each once, numbered by their leftmost boundary of their own depth;
 * `intervals[x]` links every interval other than the root to its parent,
 * the interval just enclosing it; and `pos_data[p]` links each position to
 * the deepest interval holding its rank.
 */
module IntervalTree {
  import opened Layout

  /** The LCP field of the boundary before rank r; both ends of the order count as depth 0. */
  function BoundaryDepth(ranks: seq<u64>, r: int): (d: nat)
    ensures d < LCP_LIMIT
  {
    if 1 <= r < |ranks| then LcpOf(ranks[r]) else 0
  }

  /** The depth of the interval just enclosing ranks lo..hi: the deeper of the two boundaries around them. */
  function Enclosing(ranks: seq<u64>, lo: int, hi: int): (d: nat)
    ensures d == BoundaryDepth(ranks, lo) || d == BoundaryDepth(ranks, hi + 1)
    ensures d >= BoundaryDepth(ranks, lo) && d >= BoundaryDepth(ranks, hi + 1)
  {
    var a, b := BoundaryDepth(ranks, lo), BoundaryDepth(ranks, hi + 1);
    if a < b then b else a
  }

  /** The depth of the deepest interval that holds rank k: the deeper boundary around it. */
  function LeafDepth(ranks: seq<u64>, k: int): (d: nat)
    ensures d == BoundaryDepth(ranks, k) || d == BoundaryDepth(ranks, k + 1)
    ensures d >= BoundaryDepth(ranks, k) && d >= BoundaryDepth(ranks, k + 1)
  {
    Enclosing(ranks, k, k)
  }

  /** Depths of the intervals opened so far: the root is 0, and every id fits the position field. */
  ghost predicate Depths(depth: seq<nat>)
  {
    && 1 <= |depth| < POS_LIMIT
    && depth[0] == 0
    && (forall x :: 0 <= x < |depth| ==> depth[x] < LCP_LIMIT)
  }

  /** v refers to interval PosOf(v) and carries that interval's depth in its LCP field. */
  ghost predicate LinksTo(v: u64, depth: seq<nat>)
    requires Depths(depth)
  {
    PosOf(v) < |depth| && v == Pack(PosOf(v), depth[PosOf(v)])
  }

  /** The entry of interval x links to a strictly shallower interval: its parent. */
  ghost predicate ParentLink(v: u64, depth: seq<nat>, x: nat)
    requires Depths(depth) && x < |depth|
  {
    LinksTo(v, depth) && depth[PosOf(v)] < depth[x]
  }

  /**
   * The stack of open intervals: slot k holds the packed reference of
   * interval ids[k]; slot 0 is the root; ids and depths strictly increase
   * upwards, so slot k is at least k deep.
   */
  ghost predicate OpenStack(open: seq<u64>, ids: seq<nat>, depth: seq<nat>)
  {
    && Depths(depth)
    && 1 <= |ids| <= |open|
    && ids[0] == 0
    && (forall k :: 0 <= k < |ids| ==> ids[k] < |depth| && depth[ids[k]] >= k)
    && (forall k :: 0 <= k < |ids| ==> open[k] == Pack(ids[k], depth[ids[k]]))
    && (forall a, b :: 0 <= a < b < |ids| ==> ids[a] < ids[b])
    && (forall k :: 0 < k < |ids| ==> depth[ids[k - 1]] < depth[ids[k]])
  }

  /** Every interval opened so far and no longer on the stack has its parent link; the root entry is 0. */
  ghost predicate ClosedLinks(intervals: seq<u64>, ids: seq<nat>, depth: seq<nat>)
  {
    && Depths(depth)
    && |depth| <= |intervals|
    && intervals[0] == 0
    && (forall x :: 1 <= x < |depth| && x !in ids ==> ParentLink(intervals[x], depth, x))
  }

  /** The positions of ranks 0..upto-1 link to an interval as deep as the deeper boundary around their rank. */
  ghost predicate LeafLinks(posData: seq<u64>, ranks: seq<u64>, depth: seq<nat>, upto: nat)
    requires Depths(depth) && upto <= |ranks|
  {
    forall k :: 0 <= k < upto ==>
      && PosOf(ranks[k]) < |posData|
      && LinksTo(posData[PosOf(ranks[k])], depth)
      && depth[PosOf(posData[PosOf(ranks[k])])] == LeafDepth(ranks, k)
  }

  /** The rank entries name distinct positions of the window. */
  ghost predicate DistinctPositions(ranks: seq<u64>)
  {
    && (forall r :: 0 <= r < |ranks| ==> PosOf(ranks[r]) < |ranks|)
    && (forall a, b :: 0 <= a < b < |ranks| ==> PosOf(ranks[a]) != PosOf(ranks[b]))
  }

  /** Opening a new interval keeps the parent links made so far. */
  lemma GrowClosed(intervals: seq<u64>, ids: seq<nat>, depth: seq<nat>, d: nat)
    requires ClosedLinks(intervals, ids, depth)
    requires d < LCP_LIMIT && |depth| < |intervals| && |depth| + 1 < POS_LIMIT
    ensures ClosedLinks(intervals, ids + [|depth|], depth + [d])
  {
    var depth' := depth + [d];
    forall x | 1 <= x < |depth'| && x !in ids + [|depth|]
      ensures ParentLink(intervals[x], depth', x)
    {
      assert ParentLink(intervals[x], depth, x);
    }
  }

  /** Opening a new interval keeps the leaf links made so far. */
  lemma GrowLeaves(posData: seq<u64>, ranks: seq<u64>, depth: seq<nat>, d: nat, upto: nat)
    requires Depths(depth) && upto <= |ranks| && LeafLinks(posData, ranks, depth, upto)
    requires d < LCP_LIMIT && |depth| + 1 < POS_LIMIT
    ensures LeafLinks(posData, ranks, depth + [d], upto)
  {
    var depth' := depth + [d];
    forall k | 0 <= k < upto
      ensures LinksTo(posData[PosOf(ranks[k])], depth')
      ensures depth'[PosOf(posData[PosOf(ranks[k])])] == LeafDepth(ranks, k)
    {
      assert LinksTo(posData[PosOf(ranks[k])], depth);
    }
  }

  /** Pushing an interval deeper than the top, as line 131 and line 149 do. */
  lemma Push(open: seq<u64>, ids: seq<nat>, depth: seq<nat>, d: nat)
    requires OpenStack(open, ids, depth) && |open| == LCP_LIMIT
    requires depth[ids[|ids| - 1]] < d < LCP_LIMIT && |depth| + 1 < POS_LIMIT
    ensures |ids| < |open|
    ensures OpenStack(open[|ids| := Pack(|depth|, d)], ids + [|depth|], depth + [d])
  {
    var open', ids', depth' := open[|ids| := Pack(|depth|, d)], ids + [|depth|], depth + [d];
    assert forall k :: 0 <= k < |ids| ==> depth'[ids'[k]] == depth[ids[k]];
  }

  /** Popping the top of the stack, as line 137 does. */
  lemma Pop(open: seq<u64>, ids: seq<nat>, depth: seq<nat>)
    requires OpenStack(open, ids, depth) && |ids| >= 2
    ensures OpenStack(open, ids[..|ids| - 1], depth)
    ensures ids[|ids| - 1] !in ids[..|ids| - 1]
  {
  }

  /** Closing the top interval with a link to v, as lines 142, 150 and 154 do. */
  lemma CloseTop(intervals: seq<u64>, open: seq<u64>, ids: seq<nat>, depth: seq<nat>, v: u64)
    requires ClosedLinks(intervals, ids, depth) && OpenStack(open, ids, depth) && |ids| >= 2
    requires ParentLink(v, depth, ids[|ids| - 1])
    ensures ClosedLinks(intervals[ids[|ids| - 1] := v], ids[..|ids| - 1], depth)
  {
    var x0 := ids[|ids| - 1];
    assert x0 >= 1;
    var iv := intervals[x0 := v];
    forall x | 1 <= x < |depth| && x !in ids[..|ids| - 1]
      ensures ParentLink(iv[x], depth, x)
    {
    }
  }

  /**
   * Lines 149-150: the top interval is closed and replaced on the stack by a
   * new interval of depth d, shallower than it and deeper than the one
   * below, which becomes its parent.
   */
  lemma Interpose(intervals: seq<u64>, open: seq<u64>, ids: seq<nat>, depth: seq<nat>, d: nat)
    requires ClosedLinks(intervals, ids, depth) && OpenStack(open, ids, depth) && |ids| >= 2
    requires depth[ids[|ids| - 2]] < d < depth[ids[|ids| - 1]]
    requires |depth| < |intervals| && |depth| + 1 < POS_LIMIT
    ensures var ids', depth' := ids[..|ids| - 1] + [|depth|], depth + [d];
      && OpenStack(open[|ids| - 1 := Pack(|depth|, d)], ids', depth')
      && ClosedLinks(intervals[ids[|ids| - 1] := Pack(|depth|, d)], ids', depth')
  {
    var x0 := ids[|ids| - 1];
    var v := Pack(|depth|, d);
    var ids', depth' := ids[..|ids| - 1] + [|depth|], depth + [d];
    GrowClosed(intervals, ids, depth, d);
    assert forall k :: 0 <= k < |ids| ==> depth'[ids[k]] == depth[ids[k]];
    assert OpenStack(open[|ids| - 1 := v], ids', depth') by {
      assert forall k :: 0 <= k < |ids| - 1 ==> ids'[k] == ids[k];
    }
    var iv := intervals[x0 := v];
    assert x0 >= 1;
    forall x | 1 <= x < |depth'| && x !in ids'
      ensures ParentLink(iv[x], depth', x)
    {
    }
  }

  /** Linking the position of rank k, as lines 128, 132, 135 and 162 do. */
  lemma LinkLeaf(posData: seq<u64>, ranks: seq<u64>, depth: seq<nat>, k: nat, v: u64)
    requires Depths(depth) && k < |ranks| && DistinctPositions(ranks) && |ranks| <= |posData|
    requires LeafLinks(posData, ranks, depth, k)
    requires LinksTo(v, depth) && depth[PosOf(v)] == LeafDepth(ranks, k)
    ensures LeafLinks(posData[PosOf(ranks[k]) := v], ranks, depth, k + 1)
  {
  }

  /*
   * The ranks each interval spans.  None of this is stored by the sweep: it
   * is the ghost account of which ranks an interval id stands for, kept
   * alongside the tables and proved to be the LCP intervals of the order.
   */

  /** Ranks lo..hi, and the boundary whose read opened the interval; hi is fixed when it closes. */
  datatype Extent = Extent(lo: nat, hi: nat, at: nat)

  /**
   * Ranks e.lo..e.hi form an LCP interval of depth d: every boundary inside
   * is at least d deep, the two around them are shallower, and e.at is the
   * leftmost boundary inside of depth exactly d.
   */
  ghost predicate LcpInterval(ranks: seq<u64>, d: nat, e: Extent)
  {
    && e.lo < e.at <= e.hi < |ranks|
    && BoundaryDepth(ranks, e.lo) < d && BoundaryDepth(ranks, e.hi + 1) < d
    && BoundaryDepth(ranks, e.at) == d
    && (forall b :: e.lo < b <= e.hi ==> BoundaryDepth(ranks, b) >= d)
    && (forall b :: e.lo < b < e.at ==> BoundaryDepth(ranks, b) > d)
  }

  /** An interval still open when rank r is read: an LCP interval of depth d as far as the boundaries before r show. */
  ghost predicate OpenInterval(ranks: seq<u64>, d: nat, e: Extent, r: nat)
  {
    && e.lo < e.at <= r <= |ranks|
    && BoundaryDepth(ranks, e.lo) < d
    && BoundaryDepth(ranks, e.at) == d
    && (forall b :: e.lo < b < r ==> BoundaryDepth(ranks, b) >= d)
    && (forall b :: e.lo < b < e.at ==> BoundaryDepth(ranks, b) > d)
  }

  /** Open interval y sits directly on open interval x: it starts at a boundary of x's depth. */
  ghost predicate Stacked(ranks: seq<u64>, depth: seq<nat>, ext: seq<Extent>, x: nat, y: nat, r: nat)
    requires x < |depth| && y < |depth| && |ext| == |depth|
  {
    && OpenInterval(ranks, depth[y], ext[y], r)
    && BoundaryDepth(ranks, ext[y].lo) == depth[x]
    && ext[x].lo <= ext[y].lo
  }

  /**
   * Closed interval x is an LCP interval ending before rank r; its parent
   * starts no later, ends no earlier once closed, and is as deep as the
   * deeper boundary around x.
   */
  ghost predicate Closed(intervals: seq<u64>, ranks: seq<u64>, ids: seq<nat>, depth: seq<nat>, ext: seq<Extent>,
                         x: nat, r: nat)
    requires x < |depth| <= |intervals| && |ext| == |depth|
  {
    && LcpInterval(ranks, depth[x], ext[x]) && ext[x].hi < r
    && PosOf(intervals[x]) < |depth|
    && var y := PosOf(intervals[x]);
       && ext[y].lo <= ext[x].lo
       && (y !in ids ==> ext[x].hi <= ext[y].hi)
       && depth[y] == Enclosing(ranks, ext[x].lo, ext[x].hi)
  }

  /** The position of rank k links to an interval that holds rank k. */
  ghost predicate LeafIn(posData: seq<u64>, ranks: seq<u64>, ids: seq<nat>, ext: seq<Extent>, k: nat)
    requires k < |ranks|
  {
    && PosOf(ranks[k]) < |posData| && PosOf(posData[PosOf(ranks[k])]) < |ext|
    && var x := PosOf(posData[PosOf(ranks[k])]);
       ext[x].lo <= k && (x !in ids ==> k <= ext[x].hi)
  }

  /** Boundary b lies inside interval x, whose depth is that boundary's. */
  ghost predicate Holds(ranks: seq<u64>, ids: seq<nat>, depth: seq<nat>, ext: seq<Extent>, x: nat, b: nat)
  {
    && x < |depth| == |ext|
    && depth[x] == BoundaryDepth(ranks, b)
    && ext[x].lo < b && (x !in ids ==> b <= ext[x].hi)
  }

  /** The open intervals nest on the stack when rank r is read; the root starts at rank 0. */
  ghost predicate StackSpans(ranks: seq<u64>, r: nat, ids: seq<nat>, depth: seq<nat>, ext: seq<Extent>)
  {
    && |ext| == |depth| && 1 <= |depth| && ext[0].lo == 0 && 1 <= |ids| && ids[0] == 0
    && (forall k :: 0 <= k < |ids| ==> ids[k] < |depth|)
    && (forall k :: 0 < k < |ids| ==> Stacked(ranks, depth, ext, ids[k - 1], ids[k], r))
  }

  /** Every interval off the stack is closed before rank r. */
  ghost predicate ClosedSpans(intervals: seq<u64>, ranks: seq<u64>, r: nat, ids: seq<nat>, depth: seq<nat>,
                              ext: seq<Extent>)
  {
    && |ext| == |depth| <= |intervals|
    && (forall x :: 1 <= x < |depth| && x !in ids ==> Closed(intervals, ranks, ids, depth, ext, x, r))
  }

  /** Ids follow the boundaries that opened the intervals, all of them before atBound. */
  ghost predicate OpenedBefore(ext: seq<Extent>, atBound: nat)
  {
    && (forall x :: 1 <= x < |ext| ==> ext[x].at < atBound)
    && (forall x, y :: 1 <= x < y < |ext| ==> ext[x].at < ext[y].at)
  }

  /** The positions of ranks 0..upto-1 link to intervals holding them. */
  ghost predicate LeafSpans(posData: seq<u64>, ranks: seq<u64>, upto: nat, ids: seq<nat>, ext: seq<Extent>)
  {
    upto <= |ranks| && forall k :: 0 <= k < upto ==> LeafIn(posData, ranks, ids, ext, k)
  }

  /** owner names, for each boundary before r, an interval of its depth around it. */
  ghost predicate Owners(ranks: seq<u64>, r: nat, ids: seq<nat>, depth: seq<nat>, ext: seq<Extent>, owner: seq<nat>)
  {
    |owner| == r && forall b :: 1 <= b < r ==> Holds(ranks, ids, depth, ext, owner[b], b)
  }

  /** The spans of the sweep when rank r is read, with the positions of ranks 0..upto-1 linked. */
  ghost predicate Ranged(intervals: seq<u64>, posData: seq<u64>, ranks: seq<u64>, r: nat, upto: nat, atBound: nat,
                         ids: seq<nat>, depth: seq<nat>, ext: seq<Extent>, owner: seq<nat>)
  {
    && StackSpans(ranks, r, ids, depth, ext)
    && ClosedSpans(intervals, ranks, r, ids, depth, ext)
    && OpenedBefore(ext, atBound)
    && LeafSpans(posData, ranks, upto, ids, ext)
    && Owners(ranks, r, ids, depth, ext, owner)
  }

  /**
   * The tree over ranks the sweep leaves: the root spans every rank; every
   * other interval is an LCP interval inside its parent, whose depth is that
   * of the deeper boundary around it; ids follow the leftmost boundaries of
   * the intervals; every boundary lies inside an interval of its depth; and
   * every position links to an interval holding its rank.
   */
  ghost predicate LcpTree(intervals: seq<u64>, posData: seq<u64>, ranks: seq<u64>, depth: seq<nat>, ext: seq<Extent>)
  {
    && |ext| == |depth| <= |intervals| && 1 <= |depth| && ext[0].lo == 0 && ext[0].hi + 1 == |ranks|
    && (forall x :: 1 <= x < |depth| ==> Closed(intervals, ranks, [], depth, ext, x, |ranks|))
    && (forall x, y :: 1 <= x < y < |depth| ==> ext[x].at < ext[y].at)
    && (forall k :: 0 <= k < |ranks| ==> LeafIn(posData, ranks, [], ext, k))
    && (forall b :: 1 <= b < |ranks| ==> Covered(ranks, depth, ext, b))
  }

  /** Some interval of the tree lies around boundary b and has its depth. */
  ghost predicate Covered(ranks: seq<u64>, depth: seq<nat>, ext: seq<Extent>, b: nat)
  {
    exists x: nat :: Holds(ranks, [], depth, ext, x, b)
  }

  /** Open intervals deepen up the stack, so none is deeper than the top. */
  lemma StackSorted(open: seq<u64>, ids: seq<nat>, depth: seq<nat>, k: nat)
    requires OpenStack(open, ids, depth) && k < |ids|
    ensures depth[ids[k]] <= depth[ids[|ids| - 1]]
    decreases |ids| - k
  {
    if k + 1 < |ids| {
      StackSorted(open, ids, depth, k + 1);
    }
  }

  /** The top interval starts at or before rank r - 1. */
  lemma TopStart(ranks: seq<u64>, r: nat, ids: seq<nat>, depth: seq<nat>, ext: seq<Extent>)
    requires StackSpans(ranks, r, ids, depth, ext)
    ensures ext[ids[|ids| - 1]].lo < r || r == 0
  {
    var top := |ids| - 1;
    if top > 0 {
      assert Stacked(ranks, depth, ext, ids[top - 1], ids[top], r);
    }
  }

  /** Linking the position of rank r - 1 to the top interval, which holds it. */
  lemma LinkSpan(intervals: seq<u64>, posData: seq<u64>, ranks: seq<u64>, r: nat, atBound: nat,
                 ids: seq<nat>, depth: seq<nat>, ext: seq<Extent>, owner: seq<nat>, v: u64)
    requires 1 <= r <= |ranks| <= |posData| && DistinctPositions(ranks)
    requires Ranged(intervals, posData, ranks, r, r - 1, atBound, ids, depth, ext, owner) && PosOf(v) == ids[|ids| - 1]
    ensures Ranged(intervals, posData[PosOf(ranks[r - 1]) := v], ranks, r, r, atBound, ids, depth, ext, owner)
  {
    var pd := posData[PosOf(ranks[r - 1]) := v];
    TopStart(ranks, r, ids, depth, ext);
    forall k | 0 <= k < r
      ensures LeafIn(pd, ranks, ids, ext, k)
    {
      if k < r - 1 {
        assert LeafIn(posData, ranks, ids, ext, k);
        assert PosOf(ranks[k]) != PosOf(ranks[r - 1]);
      }
    }
  }

  /** Adding interval |depth| on top of the stack keeps the closed intervals and their spans. */
  lemma GrowClosedSpans(intervals: seq<u64>, ranks: seq<u64>, r: nat, ids: seq<nat>, depth: seq<nat>,
                        ext: seq<Extent>, d: nat, e: Extent)
    requires ClosedSpans(intervals, ranks, r, ids, depth, ext) && |depth| < |intervals|
    ensures ClosedSpans(intervals, ranks, r, ids + [|depth|], depth + [d], ext + [e])
  {
    var ids', depth', ext' := ids + [|depth|], depth + [d], ext + [e];
    forall x | 1 <= x < |depth'| && x !in ids'
      ensures Closed(intervals, ranks, ids', depth', ext', x, r)
    {
      assert Closed(intervals, ranks, ids, depth, ext, x, r);
    }
  }

  /** Adding interval |depth| on top of the stack keeps the leaf links and the owners. */
  lemma GrowLeafSpans(posData: seq<u64>, ranks: seq<u64>, r: nat, upto: nat, ids: seq<nat>, depth: seq<nat>,
                      ext: seq<Extent>, owner: seq<nat>, d: nat, e: Extent)
    requires |ext| == |depth| && LeafSpans(posData, ranks, upto, ids, ext) && Owners(ranks, r, ids, depth, ext, owner)
    ensures LeafSpans(posData, ranks, upto, ids + [|depth|], ext + [e])
    ensures Owners(ranks, r, ids + [|depth|], depth + [d], ext + [e], owner)
  {
    var ids', depth', ext' := ids + [|depth|], depth + [d], ext + [e];
    forall k | 0 <= k < upto
      ensures LeafIn(posData, ranks, ids', ext', k)
    {
      assert LeafIn(posData, ranks, ids, ext, k);
    }
    forall b | 1 <= b < r
      ensures Holds(ranks, ids', depth', ext', owner[b], b)
    {
      assert Holds(ranks, ids, depth, ext, owner[b], b);
    }
  }

  /** The new interval opened at boundary r starts at rank r - 1 and sits on the top one. */
  lemma OpenStackSpans(ranks: seq<u64>, r: nat, ids: seq<nat>, depth: seq<nat>, ext: seq<Extent>, d: nat)
    requires StackSpans(ranks, r, ids, depth, ext) && 1 <= r < |ranks|
    requires d == BoundaryDepth(ranks, r) && depth[ids[|ids| - 1]] == BoundaryDepth(ranks, r - 1) < d
    ensures StackSpans(ranks, r, ids + [|depth|], depth + [d], ext + [Extent(r - 1, 0, r)])
  {
    var x0 := |depth|;
    var ids', depth', ext' := ids + [x0], depth + [d], ext + [Extent(r - 1, 0, r)];
    TopStart(ranks, r, ids, depth, ext);
    assert Stacked(ranks, depth', ext', ids[|ids| - 1], x0, r);
    forall k | 0 < k < |ids'|
      ensures Stacked(ranks, depth', ext', ids'[k - 1], ids'[k], r)
    {
      if k < |ids| {
        assert Stacked(ranks, depth, ext, ids[k - 1], ids[k], r);
      }
    }
  }

  /** Opening interval |depth| of depth d at boundary r, on top of the stack (line 131). */
  lemma OpenSpan(intervals: seq<u64>, posData: seq<u64>, ranks: seq<u64>, r: nat, upto: nat,
                 ids: seq<nat>, depth: seq<nat>, ext: seq<Extent>, owner: seq<nat>, d: nat)
    requires Ranged(intervals, posData, ranks, r, upto, r, ids, depth, ext, owner) && 1 <= r < |ranks|
    requires d == BoundaryDepth(ranks, r) && depth[ids[|ids| - 1]] == BoundaryDepth(ranks, r - 1) < d
    requires |depth| < |intervals|
    ensures Ranged(intervals, posData, ranks, r, upto, r + 1, ids + [|depth|], depth + [d],
                   ext + [Extent(r - 1, 0, r)], owner)
  {
    var e := Extent(r - 1, 0, r);
    OpenStackSpans(ranks, r, ids, depth, ext, d);
    GrowClosedSpans(intervals, ranks, r, ids, depth, ext, d, e);
    GrowLeafSpans(posData, ranks, r, upto, ids, depth, ext, owner, d, e);
  }

  /** Leaving boundary r inside the top interval, as deep as it, once the stack is adjusted. */
  lemma Advance(intervals: seq<u64>, posData: seq<u64>, ranks: seq<u64>, r: nat, atBound: nat,
                open: seq<u64>, ids: seq<nat>, depth: seq<nat>, ext: seq<Extent>, owner: seq<nat>)
    requires Ranged(intervals, posData, ranks, r, r, atBound, ids, depth, ext, owner) && 1 <= r < |ranks|
    requires atBound <= r + 1 && OpenStack(open, ids, depth) && depth[ids[|ids| - 1]] == BoundaryDepth(ranks, r)
    ensures Ranged(intervals, posData, ranks, r + 1, r, r + 1, ids, depth, ext, owner + [ids[|ids| - 1]])
  {
    var top := |ids| - 1;
    var owner' := owner + [ids[top]];
    forall k | 0 < k < |ids|
      ensures Stacked(ranks, depth, ext, ids[k - 1], ids[k], r + 1)
    {
      assert Stacked(ranks, depth, ext, ids[k - 1], ids[k], r);
      StackSorted(open, ids, depth, k);
    }
    forall x | 1 <= x < |depth| && x !in ids
      ensures Closed(intervals, ranks, ids, depth, ext, x, r + 1)
    {
      assert Closed(intervals, ranks, ids, depth, ext, x, r);
    }
    TopStart(ranks, r, ids, depth, ext);
    forall b | 1 <= b < r + 1
      ensures Holds(ranks, ids, depth, ext, owner'[b], b)
    {
      if b < r {
        assert owner'[b] == owner[b];
      }
    }
  }

  /** The top interval c, deeper than boundary r, spans ranks up to r - 1 once closed there. */
  lemma TopCloses(ranks: seq<u64>, r: nat, ids: seq<nat>, depth: seq<nat>, ext: seq<Extent>)
    requires StackSpans(ranks, r, ids, depth, ext) && 1 <= r <= |ranks| && |ids| >= 2
    requires BoundaryDepth(ranks, r) < depth[ids[|ids| - 1]]
    ensures var c := ids[|ids| - 1];
      && LcpInterval(ranks, depth[c], ext[c].(hi := r - 1))
      && BoundaryDepth(ranks, ext[c].lo) == depth[ids[|ids| - 2]]
      && ext[ids[|ids| - 2]].lo <= ext[c].lo
  {
    var top := |ids| - 1;
    assert Stacked(ranks, depth, ext, ids[top - 1], ids[top], r);
  }

  /** Closing the top interval c leaves the rest of the stack as it was. */
  lemma CloseStackSpans(ranks: seq<u64>, r: nat, ids: seq<nat>, depth: seq<nat>, ext: seq<Extent>, e: Extent)
    requires StackSpans(ranks, r, ids, depth, ext) && |ids| >= 2
    requires ids[|ids| - 1] != 0 && ids[|ids| - 1] !in ids[..|ids| - 1]
    ensures StackSpans(ranks, r, ids[..|ids| - 1], depth, ext[ids[|ids| - 1] := e])
  {
    var c, ids', ext' := ids[|ids| - 1], ids[..|ids| - 1], ext[ids[|ids| - 1] := e];
    forall k | 0 < k < |ids'|
      ensures Stacked(ranks, depth, ext', ids'[k - 1], ids'[k], r)
    {
      assert Stacked(ranks, depth, ext, ids[k - 1], ids[k], r);
    }
  }

  /**
   * Closing the top interval c at rank r, linked to p (the interval below it,
   * or the new one put in its place), keeps the closed intervals: c spans up
   * to rank r - 1, which covers the intervals closed inside it.
   */
  lemma CloseClosedSpans(intervals: seq<u64>, ranks: seq<u64>, r: nat, ids: seq<nat>, depth: seq<nat>,
                         ext: seq<Extent>, ids': seq<nat>, depth': seq<nat>, ext': seq<Extent>, v: u64)
    requires ClosedSpans(intervals, ranks, r, ids, depth, ext) && StackSpans(ranks, r, ids, depth, ext)
    requires 1 <= r <= |ranks| && |ids| >= 2 && ids[|ids| - 1] != 0
    requires |depth| <= |depth'| == |ext'| <= |intervals| && depth'[..|depth|] == depth
    requires var c := ids[|ids| - 1];
      && ext'[..|ext|] == ext[c := ext[c].(hi := r - 1)]
      && (forall x :: 1 <= x < |depth'| && x !in ids' ==> x < |depth| && (x in ids ==> x == c))
      && 0 in ids' && c !in ids'
    requires var c := ids[|ids| - 1];
      && LcpInterval(ranks, depth[c], ext'[c])
      && PosOf(v) < |depth'| && PosOf(v) in ids' && ext'[PosOf(v)].lo <= ext[c].lo
      && depth'[PosOf(v)] == Enclosing(ranks, ext[c].lo, r - 1)
    ensures ClosedSpans(intervals[ids[|ids| - 1] := v], ranks, r, ids', depth', ext')
  {
    var c := ids[|ids| - 1];
    var iv := intervals[c := v];
    forall x | 1 <= x < |depth'| && x !in ids'
      ensures Closed(iv, ranks, ids', depth', ext', x, r)
    {
      if x != c {
        assert Closed(intervals, ranks, ids, depth, ext, x, r);
        assert ext'[x] == ext[x] && iv[x] == intervals[x];
        var y := PosOf(intervals[x]);
        assert ext'[y].lo == ext[y].lo;
        if y != c && y !in ids' {
          assert y != 0 && y !in ids;
        }
      }
    }
  }

  /** Closing the top interval c at rank r keeps the leaf links and owners: c holds every rank before r it held. */
  lemma CloseLeafSpans(posData: seq<u64>, ranks: seq<u64>, r: nat, ids: seq<nat>, depth: seq<nat>,
                       ext: seq<Extent>, owner: seq<nat>)
    requires LeafSpans(posData, ranks, r, ids, ext) && Owners(ranks, r, ids, depth, ext, owner)
    requires |ids| >= 2 && ids[|ids| - 1] < |ext| == |depth| && r >= 1
    requires ids[|ids| - 1] !in ids[..|ids| - 1]
    ensures var c := ids[|ids| - 1];
      && LeafSpans(posData, ranks, r, ids[..|ids| - 1], ext[c := ext[c].(hi := r - 1)])
      && Owners(ranks, r, ids[..|ids| - 1], depth, ext[c := ext[c].(hi := r - 1)], owner)
  {
    var c := ids[|ids| - 1];
    var ids', ext' := ids[..|ids| - 1], ext[c := ext[c].(hi := r - 1)];
    forall k | 0 <= k < r
      ensures LeafIn(posData, ranks, ids', ext', k)
    {
      assert LeafIn(posData, ranks, ids, ext, k);
    }
    forall b | 1 <= b < r
      ensures Holds(ranks, ids', depth, ext', owner[b], b)
    {
      assert Holds(ranks, ids, depth, ext, owner[b], b);
    }
  }

  /**
   * Closing the top interval c at rank r, linked to the interval s below it
   * (lines 142 and 154, and the loop of line 162 with r past the last rank):
   * its span ends at rank r - 1.
   */
  lemma CloseSpan(intervals: seq<u64>, posData: seq<u64>, ranks: seq<u64>, r: nat, atBound: nat,
                  ids: seq<nat>, depth: seq<nat>, ext: seq<Extent>, owner: seq<nat>, v: u64)
    requires Ranged(intervals, posData, ranks, r, r, r, ids, depth, ext, owner) && 1 <= r <= |ranks| && r <= atBound
    requires |ids| >= 2 && ids[|ids| - 1] != 0 && ids[|ids| - 1] !in ids[..|ids| - 1]
    requires PosOf(v) == ids[|ids| - 2]
    requires BoundaryDepth(ranks, r) < depth[ids[|ids| - 1]] && BoundaryDepth(ranks, r) <= depth[ids[|ids| - 2]]
    ensures var c := ids[|ids| - 1];
      Ranged(intervals[c := v], posData, ranks, r, r, atBound, ids[..|ids| - 1], depth,
             ext[c := ext[c].(hi := r - 1)], owner)
  {
    var c := ids[|ids| - 1];
    var e := ext[c].(hi := r - 1);
    TopCloses(ranks, r, ids, depth, ext);
    CloseStackSpans(ranks, r, ids, depth, ext, e);
    assert ids[..|ids| - 1][|ids| - 2] == PosOf(v);
    CloseClosedSpans(intervals, ranks, r, ids, depth, ext, ids[..|ids| - 1], depth, ext[c := e], v);
    CloseLeafSpans(posData, ranks, r, ids, depth, ext, owner);
  }

  /** The interval put in place of c at boundary r starts where c does and sits on the interval below. */
  lemma InterposeStackSpans(ranks: seq<u64>, r: nat, ids: seq<nat>, depth: seq<nat>, ext: seq<Extent>, d: nat)
    requires StackSpans(ranks, r, ids, depth, ext) && 1 <= r <= |ranks| && |ids| >= 2
    requires ids[|ids| - 1] != 0 && ids[|ids| - 1] !in ids[..|ids| - 1]
    requires d == BoundaryDepth(ranks, r) && depth[ids[|ids| - 2]] < d < depth[ids[|ids| - 1]]
    ensures var c := ids[|ids| - 1];
      StackSpans(ranks, r, ids[..|ids| - 1] + [|depth|], depth + [d],
                 ext[c := ext[c].(hi := r - 1)] + [Extent(ext[c].lo, 0, r)])
  {
    var c := ids[|ids| - 1];
    var s := ids[|ids| - 2];
    var x0 := |depth|;
    var ids1, ext1 := ids[..|ids| - 1], ext[c := ext[c].(hi := r - 1)];
    var ids', depth', ext' := ids1 + [x0], depth + [d], ext1 + [Extent(ext[c].lo, 0, r)];
    assert Stacked(ranks, depth, ext, s, c, r);
    CloseStackSpans(ranks, r, ids, depth, ext, ext[c].(hi := r - 1));
    assert Stacked(ranks, depth', ext', s, x0, r);
    forall k | 0 < k < |ids'|
      ensures Stacked(ranks, depth', ext', ids'[k - 1], ids'[k], r)
    {
      if k < |ids1| {
        assert Stacked(ranks, depth, ext1, ids1[k - 1], ids1[k], r);
      }
    }
  }

  /**
   * Lines 149-150: closing the top interval c at boundary r and putting a
   * new interval of depth d = the depth of boundary r in its place, as its
   * parent; the new interval starts where c does and was opened at r.
   */
  lemma InterposeSpan(intervals: seq<u64>, posData: seq<u64>, ranks: seq<u64>, r: nat,
                      ids: seq<nat>, depth: seq<nat>, ext: seq<Extent>, owner: seq<nat>, d: nat)
    requires Ranged(intervals, posData, ranks, r, r, r, ids, depth, ext, owner) && 1 <= r < |ranks|
    requires |ids| >= 2 && ids[|ids| - 1] != 0 && ids[|ids| - 1] !in ids[..|ids| - 1]
    requires d == BoundaryDepth(ranks, r) && depth[ids[|ids| - 2]] < d < depth[ids[|ids| - 1]]
    requires |depth| < |intervals| && |depth| < POS_LIMIT
    ensures var c := ids[|ids| - 1];
      Ranged(intervals[c := Pack(|depth|, d)], posData, ranks, r, r, r + 1, ids[..|ids| - 1] + [|depth|], depth + [d],
             ext[c := ext[c].(hi := r - 1)] + [Extent(ext[c].lo, 0, r)], owner)
  {
    var c := ids[|ids| - 1];
    var x0 := |depth|;
    var e := ext[c].(hi := r - 1);
    var ids1, ext1 := ids[..|ids| - 1], ext[c := e];
    var ids', depth', ext' := ids1 + [x0], depth + [d], ext1 + [Extent(ext[c].lo, 0, r)];
    TopCloses(ranks, r, ids, depth, ext);
    InterposeStackSpans(ranks, r, ids, depth, ext, d);
    assert ext'[..|ext|] == ext1;
    CloseClosedSpans(intervals, ranks, r, ids, depth, ext, ids', depth', ext', Pack(x0, d));
    CloseLeafSpans(posData, ranks, r, ids, depth, ext, owner);
    GrowLeafSpans(posData, ranks, r, r, ids1, depth, ext1, owner, d, Extent(ext[c].lo, 0, r));
  }

  /** With every interval closed but the root, which then spans every rank, the spans are the LCP tree. */
  lemma FinishSpans(intervals: seq<u64>, posData: seq<u64>, ranks: seq<u64>, depth: seq<nat>, ext: seq<Extent>,
                    owner: seq<nat>)
    requires 1 <= |ranks| && Ranged(intervals, posData, ranks, |ranks|, |ranks|, |ranks|, [0], depth, ext, owner)
    ensures LcpTree(intervals, posData, ranks, depth, ext[0 := Extent(0, |ranks| - 1, 0)])
  {
    var n := |ranks|;
    var ext' := ext[0 := Extent(0, n - 1, 0)];
    forall x | 1 <= x < |depth|
      ensures Closed(intervals, ranks, [], depth, ext', x, n)
    {
      assert Closed(intervals, ranks, [0], depth, ext, x, n);
    }
    forall k | 0 <= k < n
      ensures LeafIn(posData, ranks, [], ext', k)
    {
      assert LeafIn(posData, ranks, [0], ext, k);
    }
    forall b | 1 <= b < n
      ensures Covered(ranks, depth, ext', b)
    {
      assert Holds(ranks, [0], depth, ext, owner[b], b);
      assert Holds(ranks, [], depth, ext', owner[b], b);
    }
  }

  /*
   * What the tree is: the facts below follow from LcpTree alone.
   */

  /** Of the intervals that hold rank k, the one the position of rank k links to is the deepest. */
  lemma LeafDeepest(intervals: seq<u64>, posData: seq<u64>, ranks: seq<u64>, depth: seq<nat>, ext: seq<Extent>,
                    k: nat, y: nat)
    requires Depths(depth) && LcpTree(intervals, posData, ranks, depth, ext)
    requires LeafLinks(posData, ranks, depth, |ranks|)
    requires k < |ranks| && y < |depth| && ext[y].lo <= k <= ext[y].hi
    ensures var x := PosOf(posData[PosOf(ranks[k])]);
      x < |depth| && ext[x].lo <= k <= ext[x].hi && depth[y] <= depth[x]
  {
    assert LeafIn(posData, ranks, [], ext, k);
    HeldBelowLeaf(intervals, posData, ranks, depth, ext, k, y);
  }

  /** An interval of the tree that holds rank k is no deeper than the deeper boundary around k. */
  lemma HeldBelowLeaf(intervals: seq<u64>, posData: seq<u64>, ranks: seq<u64>, depth: seq<nat>, ext: seq<Extent>,
                      k: nat, y: nat)
    requires Depths(depth) && LcpTree(intervals, posData, ranks, depth, ext)
    requires k < |ranks| && y < |depth| && ext[y].lo <= k <= ext[y].hi
    ensures depth[y] <= LeafDepth(ranks, k)
  {
    if y >= 1 {
      assert Closed(intervals, ranks, [], depth, ext, y, |ranks|);
      InsideLeaf(ranks, depth[y], ext[y], k);
    }
  }

  /** An LCP interval holding rank k is no deeper than the deeper boundary around k. */
  lemma InsideLeaf(ranks: seq<u64>, d: nat, e: Extent, k: nat)
    requires LcpInterval(ranks, d, e) && e.lo <= k <= e.hi
    ensures d <= LeafDepth(ranks, k)
  {
    if e.lo < k {
      assert BoundaryDepth(ranks, k) >= d;
    } else {
      assert BoundaryDepth(ranks, k + 1) >= d;
    }
  }

  /** Of the intervals shallower than x that enclose it, the parent x links to is the deepest. */
  lemma ParentNearest(intervals: seq<u64>, posData: seq<u64>, ranks: seq<u64>, depth: seq<nat>, ext: seq<Extent>,
                      x: nat, z: nat)
    requires Depths(depth) && LcpTree(intervals, posData, ranks, depth, ext) && 1 <= x < |depth| && z < |depth|
    requires ext[z].lo <= ext[x].lo && ext[x].hi <= ext[z].hi && depth[z] < depth[x]
    ensures var y := PosOf(intervals[x]);
      y < |depth| && ext[y].lo <= ext[x].lo && ext[x].hi <= ext[y].hi && depth[z] <= depth[y]
  {
    assert Closed(intervals, ranks, [], depth, ext, x, |ranks|);
    if z >= 1 {
      assert Closed(intervals, ranks, [], depth, ext, z, |ranks|);
      assert ext[z].lo < ext[x].lo || ext[x].hi < ext[z].hi;
    }
  }

  /** Two intervals of the tree with the same ranks and depth are one interval. */
  lemma IntervalsUnique(intervals: seq<u64>, posData: seq<u64>, ranks: seq<u64>, depth: seq<nat>, ext: seq<Extent>,
                        x: nat, y: nat)
    requires LcpTree(intervals, posData, ranks, depth, ext) && 1 <= x < |depth| && 1 <= y < |depth|
    requires ext[x].lo == ext[y].lo && ext[x].hi == ext[y].hi && depth[x] == depth[y]
    ensures x == y
  {
    assert Closed(intervals, ranks, [], depth, ext, x, |ranks|);
    assert Closed(intervals, ranks, [], depth, ext, y, |ranks|);
    assert ext[x].at == ext[y].at;
  }

  /** Every LCP interval of the rank order is an interval of the tree. */
  lemma IntervalsComplete(intervals: seq<u64>, posData: seq<u64>, ranks: seq<u64>, depth: seq<nat>, ext: seq<Extent>,
                          d: nat, e: Extent)
    requires Depths(depth) && LcpTree(intervals, posData, ranks, depth, ext) && LcpInterval(ranks, d, e)
    ensures exists x :: 1 <= x < |depth| && ext[x].lo == e.lo && ext[x].hi == e.hi && depth[x] == d
  {
    assert Covered(ranks, depth, ext, e.at);
    var x: nat :| Holds(ranks, [], depth, ext, x, e.at);
    assert x != 0;
    assert Closed(intervals, ranks, [], depth, ext, x, |ranks|);
    assert ext[x].lo == e.lo && ext[x].hi == e.hi;
  }

  /** Two LCP intervals of one depth over the same ranks are the same interval. */
  lemma LcpSame(ranks: seq<u64>, d: nat, e1: Extent, e2: Extent)
    requires LcpInterval(ranks, d, e1) && LcpInterval(ranks, d, e2) && e1.lo == e2.lo && e1.hi == e2.hi
    ensures e1 == e2
  {
    assert e1.at == e2.at;
  }

  /** Two LCP intervals of one depth that share a rank are the same interval. */
  lemma LcpOverlap(ranks: seq<u64>, d: nat, e1: Extent, e2: Extent, k: nat)
    requires LcpInterval(ranks, d, e1) && LcpInterval(ranks, d, e2)
    requires e1.lo <= k <= e1.hi && e2.lo <= k <= e2.hi
    ensures e1 == e2
  {
    assert e1.lo == e2.lo && e1.hi == e2.hi;
    LcpSame(ranks, d, e1, e2);
  }

  /** The interval of the second tree that has the ranks and depth of interval x of the first. */
  lemma Counterpart(i1: seq<u64>, p1: seq<u64>, i2: seq<u64>, p2: seq<u64>, ranks: seq<u64>,
                    depth1: seq<nat>, ext1: seq<Extent>, depth2: seq<nat>, ext2: seq<Extent>, x: nat)
      returns (y: nat)
    requires Depths(depth1) && LcpTree(i1, p1, ranks, depth1, ext1)
    requires Depths(depth2) && LcpTree(i2, p2, ranks, depth2, ext2)
    requires 1 <= x < |depth1|
    ensures 1 <= y < |depth2| && ext2[y] == ext1[x] && depth2[y] == depth1[x]
  {
    assert Closed(i1, ranks, [], depth1, ext1, x, |ranks|);
    IntervalsComplete(i2, p2, ranks, depth2, ext2, depth1[x], ext1[x]);
    y :| 1 <= y < |depth2| && ext2[y].lo == ext1[x].lo && ext2[y].hi == ext1[x].hi && depth2[y] == depth1[x];
    assert Closed(i2, ranks, [], depth2, ext2, y, |ranks|);
    LcpSame(ranks, depth1[x], ext2[y], ext1[x]);
  }

  /**
   * Numbered by their leftmost boundaries, the first m intervals of the
   * second tree are the first m of the first.
   */
  lemma {:induction false} Embeds(i1: seq<u64>, p1: seq<u64>, i2: seq<u64>, p2: seq<u64>, ranks: seq<u64>,
                                  depth1: seq<nat>, ext1: seq<Extent>, depth2: seq<nat>, ext2: seq<Extent>, m: nat)
    requires Depths(depth1) && LcpTree(i1, p1, ranks, depth1, ext1)
    requires Depths(depth2) && LcpTree(i2, p2, ranks, depth2, ext2)
    requires m <= |depth2|
    ensures m <= |depth1|
    ensures forall x :: 1 <= x < m ==> x < |depth1| && ext1[x] == ext2[x] && depth1[x] == depth2[x]
    decreases m
  {
    if m >= 2 {
      Embeds(i1, p1, i2, p2, ranks, depth1, ext1, depth2, ext2, m - 1);
      var x := m - 1;
      var x1 := Counterpart(i2, p2, i1, p1, ranks, depth2, ext2, depth1, ext1, x);
      assert x <= x1;
      var x2 := Counterpart(i1, p1, i2, p2, ranks, depth1, ext1, depth2, ext2, x);
      assert x <= x2;
      assert x1 == x;
    }
  }

  /** Two trees over the same ranks have the same intervals under the same ids. */
  lemma TreesAgree(i1: seq<u64>, p1: seq<u64>, i2: seq<u64>, p2: seq<u64>, ranks: seq<u64>,
                   depth1: seq<nat>, ext1: seq<Extent>, depth2: seq<nat>, ext2: seq<Extent>)
    requires Depths(depth1) && LcpTree(i1, p1, ranks, depth1, ext1)
    requires Depths(depth2) && LcpTree(i2, p2, ranks, depth2, ext2)
    ensures depth1 == depth2 && forall x :: 1 <= x < |depth1| ==> ext1[x] == ext2[x]
  {
    Embeds(i1, p1, i2, p2, ranks, depth1, ext1, depth2, ext2, |depth2|);
    Embeds(i2, p2, i1, p1, ranks, depth2, ext2, depth1, ext1, |depth1|);
  }

  /**
   * Two trees over the same ranks, each with its parent links and leaf
   * links, hold the same entry for every interval and for every position
   * of a rank.
   */
  lemma TablesAgree(i1: seq<u64>, p1: seq<u64>, i2: seq<u64>, p2: seq<u64>, ranks: seq<u64>,
                    depth1: seq<nat>, ext1: seq<Extent>, depth2: seq<nat>, ext2: seq<Extent>)
    requires Depths(depth1) && LcpTree(i1, p1, ranks, depth1, ext1)
    requires Depths(depth2) && LcpTree(i2, p2, ranks, depth2, ext2)
    requires ClosedLinks(i1, [0], depth1) && LeafLinks(p1, ranks, depth1, |ranks|)
    requires ClosedLinks(i2, [0], depth2) && LeafLinks(p2, ranks, depth2, |ranks|)
    ensures |depth1| == |depth2| && forall x :: 0 <= x < |depth1| ==> i1[x] == i2[x]
    ensures forall k :: 0 <= k < |ranks| ==> p1[PosOf(ranks[k])] == p2[PosOf(ranks[k])]
  {
    TreesAgree(i1, p1, i2, p2, ranks, depth1, ext1, depth2, ext2);
    forall x | 1 <= x < |depth1|
      ensures i1[x] == i2[x]
    {
      ParentsAgree(i1, p1, i2, p2, ranks, depth1, ext1, ext2, x);
    }
    forall k | 0 <= k < |ranks|
      ensures p1[PosOf(ranks[k])] == p2[PosOf(ranks[k])]
    {
      assert LeafIn(p1, ranks, [], ext1, k) && LeafIn(p2, ranks, [], ext2, k);
      LeavesAgree(i1, p1, i2, p2, ranks, depth1, ext1, ext2, k);
    }
  }

  /** Two trees with the same intervals link interval x to the same parent. */
  lemma ParentsAgree(i1: seq<u64>, p1: seq<u64>, i2: seq<u64>, p2: seq<u64>, ranks: seq<u64>,
                     depth: seq<nat>, ext1: seq<Extent>, ext2: seq<Extent>, x: nat)
    requires Depths(depth) && LcpTree(i1, p1, ranks, depth, ext1) && LcpTree(i2, p2, ranks, depth, ext2)
    requires forall z :: 1 <= z < |depth| ==> ext1[z] == ext2[z]
    requires ClosedLinks(i1, [0], depth) && ClosedLinks(i2, [0], depth)
    requires 1 <= x < |depth|
    ensures i1[x] == i2[x]
  {
    assert x !in [0];
    assert ParentLink(i1[x], depth, x) && ParentLink(i2[x], depth, x);
    assert Closed(i1, ranks, [], depth, ext1, x, |ranks|);
    assert Closed(i2, ranks, [], depth, ext2, x, |ranks|);
    var y1, y2 := PosOf(i1[x]), PosOf(i2[x]);
    SameOwner(i1, p1, ranks, depth, ext1, y1, y2, ext1[x].lo);
  }

  /** Two trees with the same intervals link the position of rank k to the same interval. */
  lemma LeavesAgree(i1: seq<u64>, p1: seq<u64>, i2: seq<u64>, p2: seq<u64>, ranks: seq<u64>,
                    depth: seq<nat>, ext1: seq<Extent>, ext2: seq<Extent>, k: nat)
    requires Depths(depth) && LcpTree(i1, p1, ranks, depth, ext1) && LcpTree(i2, p2, ranks, depth, ext2)
    requires forall z :: 1 <= z < |depth| ==> ext1[z] == ext2[z]
    requires k < |ranks| && LeafIn(p1, ranks, [], ext1, k) && LeafIn(p2, ranks, [], ext2, k)
    requires LinksTo(p1[PosOf(ranks[k])], depth) && depth[PosOf(p1[PosOf(ranks[k])])] == LeafDepth(ranks, k)
    requires LinksTo(p2[PosOf(ranks[k])], depth) && depth[PosOf(p2[PosOf(ranks[k])])] == LeafDepth(ranks, k)
    ensures p1[PosOf(ranks[k])] == p2[PosOf(ranks[k])]
  {
    var y1, y2 := PosOf(p1[PosOf(ranks[k])]), PosOf(p2[PosOf(ranks[k])]);
    SameOwner(i1, p1, ranks, depth, ext1, y1, y2, k);
  }

  /** Two intervals of a tree that have one depth and share a rank are one interval. */
  lemma SameOwner(intervals: seq<u64>, posData: seq<u64>, ranks: seq<u64>, depth: seq<nat>, ext: seq<Extent>,
                  y1: nat, y2: nat, k: nat)
    requires Depths(depth) && LcpTree(intervals, posData, ranks, depth, ext)
    requires y1 < |depth| && y2 < |depth| && depth[y1] == depth[y2]
    requires ext[y1].lo <= k <= ext[y1].hi && ext[y2].lo <= k <= ext[y2].hi
    ensures y1 == y2
  {
    if y1 >= 1 {
      assert Closed(intervals, ranks, [], depth, ext, y1, |ranks|);
    }
    if y2 >= 1 {
      assert Closed(intervals, ranks, [], depth, ext, y2, |ranks|);
    }
    if 1 <= y1 && 1 <= y2 {
      LcpOverlap(ranks, depth[y1], ext[y1], ext[y2], k);
      IntervalsUnique(intervals, posData, ranks, depth, ext, y1, y2);
    }
  }

  /** The state of the sweep before rank r is read (lines 121-159). */
  ghost predicate Swept(intervals: seq<u64>, posData: seq<u64>, open: seq<u64>, ranks: seq<u64>,
                        r: nat, top: int, next: int, ids: seq<nat>, depth: seq<nat>)
  {
    && |ranks| <= |intervals| && |ranks| <= |posData| && |ranks| < 0x8000_0000
    && |open| == LCP_LIMIT && 1 <= r <= |ranks|
    && DistinctPositions(ranks)
    && 1 <= next <= r && next == |depth|
    && top + 1 == |ids| && OpenStack(open, ids, depth)
    && ClosedLinks(intervals, ids, depth)
    && depth[ids[top]] == BoundaryDepth(ranks, r - 1)
    && intervals[r..|ranks|] == ranks[r..]
    && (forall i :: next <= i < r ==> intervals[i] == ranks[i])
    && LeafLinks(posData, ranks, depth, r - 1)
  }

  /**
   * Lines 111-163: one pass over the rank entries, opening an interval when
   * the LCP field rises, closing intervals (and linking each to its parent)
   * when it falls, and linking each position to the interval on top of the
   * stack when its rank is left; the intervals still open at the end are
   * closed last.  `depth` names the depths of the intervals opened, `ext`
   * the ranks they span; nothing past the first n entries of either table
   * changes.
   */
  method Sweep(intervals: array<u64>, posData: array<u64>, open: array<u64>, n: nat)
    returns (ghost depth: seq<nat>, ghost ext: seq<Extent>)
    requires intervals != posData && intervals != open && posData != open
    requires 1 <= n <= intervals.Length && n <= posData.Length && n < 0x8000_0000 && open.Length == LCP_LIMIT
    requires DistinctPositions(intervals[..n])
    modifies intervals, posData, open
    ensures Depths(depth) && |depth| <= n
    ensures ClosedLinks(intervals[..], [0], depth)
    ensures LeafLinks(posData[..], old(intervals[..n]), depth, n)
    ensures LcpTree(intervals[..], posData[..], old(intervals[..n]), depth, ext)
    ensures forall i :: |depth| <= i < n ==> intervals[i] == old(intervals[i])
    ensures intervals[n..] == old(intervals[n..]) && posData[n..] == old(posData[n..])
  {
    ghost var ranks := intervals[..n];
    var prevPos := PosOf(intervals[0]);
    var top := 0;
    open[0] := 0;
    intervals[0] := 0;
    var next := 1;
    ghost var ids: seq<nat> := [0];
    depth := [0];
    ext := [Extent(0, 0, 0)];
    ghost var owner: seq<nat> := [0];
    var r := 1;
    while r < n
      invariant Swept(intervals[..], posData[..], open[..], ranks, r, top, next, ids, depth)
      invariant Ranged(intervals[..], posData[..], ranks, r, r - 1, r, ids, depth, ext, owner)
      invariant prevPos == PosOf(ranks[r - 1])
      invariant intervals[n..] == old(intervals[n..]) && posData[n..] == old(posData[n..])
    {
      prevPos, top, next, ids, depth, ext, owner :=
        SweepStep(intervals, posData, open, ranks, r, prevPos, top, next, ids, depth, ext, owner);
      r := r + 1;
    }
    assert r == |ranks| && next == |depth|;
    top, ids, ext := CloseAll(intervals, posData, open, ranks, prevPos, top, ids, depth, ext, owner);
  }

  /** Line 128: rank r is as deep as the top interval, which the position of rank r - 1 joins. */
  lemma StepLevel(intervals: seq<u64>, posData: seq<u64>, open: seq<u64>, ranks: seq<u64>,
                  r: nat, top: int, next: int, ids: seq<nat>, depth: seq<nat>)
    requires Swept(intervals, posData, open, ranks, r, top, next, ids, depth) && r < |ranks|
    requires LcpOf(ranks[r]) == LcpOf(open[top])
    ensures Swept(intervals, posData[PosOf(ranks[r - 1]) := open[top]], open, ranks, r + 1, top, next, ids, depth)
  {
    LinkLeaf(posData, ranks, depth, r - 1, open[top]);
    assert intervals[r + 1..|ranks|] == intervals[r..|ranks|][1..];
  }

  /** Lines 131-132: rank r is deeper; a new interval is opened and the position of rank r - 1 joins it. */
  lemma StepOpen(intervals: seq<u64>, posData: seq<u64>, open: seq<u64>, ranks: seq<u64>,
                 r: nat, top: int, next: int, ids: seq<nat>, depth: seq<nat>)
    requires Swept(intervals, posData, open, ranks, r, top, next, ids, depth) && r < |ranks|
    requires LcpOf(ranks[r]) > LcpOf(open[top])
    ensures top + 1 < |open| && next < POS_LIMIT && LcpOf(ranks[r]) < LCP_LIMIT
    ensures var v := Pack(next, LcpOf(ranks[r]));
      Swept(intervals, posData[PosOf(ranks[r - 1]) := v], open[top + 1 := v], ranks, r + 1,
            top + 1, next + 1, ids + [next], depth + [LcpOf(ranks[r])])
  {
    var d := LcpOf(ranks[r]);
    GrowClosed(intervals, ids, depth, d);
    GrowLeaves(posData, ranks, depth, d, r - 1);
    Push(open, ids, depth, d);
    LinkLeaf(posData, ranks, depth + [d], r - 1, Pack(next, d));
    assert intervals[r + 1..|ranks|] == intervals[r..|ranks|][1..];
  }

  /** Lines 122-158: read rank entry r, leave rank r - 1, and adjust the stack to the new depth. */
  method SweepStep(intervals: array<u64>, posData: array<u64>, open: array<u64>, ghost ranks: seq<u64>,
                   r: nat, prevPos: nat, top: nat, next: nat, ghost ids: seq<nat>, ghost depth: seq<nat>,
                   ghost ext: seq<Extent>, ghost owner: seq<nat>)
    returns (nextPos: nat, top': nat, next': nat, ghost ids': seq<nat>, ghost depth': seq<nat>,
             ghost ext': seq<Extent>, ghost owner': seq<nat>)
    requires intervals != posData && intervals != open && posData != open
    requires Swept(intervals[..], posData[..], open[..], ranks, r, top, next, ids, depth)
    requires Ranged(intervals[..], posData[..], ranks, r, r - 1, r, ids, depth, ext, owner)
    requires r < |ranks| && prevPos == PosOf(ranks[r - 1])
    modifies intervals, posData, open
    ensures Swept(intervals[..], posData[..], open[..], ranks, r + 1, top', next', ids', depth')
    ensures Ranged(intervals[..], posData[..], ranks, r + 1, r, r + 1, ids', depth', ext', owner')
    ensures nextPos == PosOf(ranks[r])
    ensures intervals[|ranks|..] == old(intervals[|ranks|..]) && posData[|ranks|..] == old(posData[|ranks|..])
  {
    assert intervals[r] == ranks[r..][0];
    nextPos := PosOf(intervals[r]);
    var nextLcp := LcpOf(intervals[r]);
    var topLcp := LcpOf(open[top]);
    if nextLcp == topLcp {
      // continuing the deepest open interval
      top', next', ids', depth', ext', owner' :=
        ContinueTop(intervals, posData, open, ranks, r, prevPos, top, next, ids, depth, ext, owner);
    } else if nextLcp > topLcp {
      // opening a new interval
      top', next', ids', depth', ext', owner' :=
        OpenAbove(intervals, posData, open, ranks, r, prevPos, top, next, nextLcp, ids, depth, ext, owner);
    } else {
      // closing the deepest open interval, and perhaps more
      top', next', ids', depth', ext', owner' :=
        CloseDown(intervals, posData, open, ranks, r, prevPos, top, next, nextLcp, ids, depth, ext, owner);
    }
  }

  /** Line 128: the position of rank r - 1 joins the top interval, as deep as boundary r. */
  method ContinueTop(intervals: array<u64>, posData: array<u64>, open: array<u64>, ghost ranks: seq<u64>,
                     r: nat, prevPos: nat, top: nat, next: nat, ghost ids: seq<nat>, ghost depth: seq<nat>,
                     ghost ext: seq<Extent>, ghost owner: seq<nat>)
    returns (top': nat, next': nat, ghost ids': seq<nat>, ghost depth': seq<nat>,
             ghost ext': seq<Extent>, ghost owner': seq<nat>)
    requires intervals != posData && posData != open
    requires Swept(intervals[..], posData[..], open[..], ranks, r, top, next, ids, depth)
    requires Ranged(intervals[..], posData[..], ranks, r, r - 1, r, ids, depth, ext, owner)
    requires r < |ranks| && prevPos == PosOf(ranks[r - 1]) && LcpOf(ranks[r]) == LcpOf(open[top])
    modifies posData
    ensures Swept(intervals[..], posData[..], open[..], ranks, r + 1, top', next', ids', depth')
    ensures Ranged(intervals[..], posData[..], ranks, r + 1, r, r + 1, ids', depth', ext', owner')
    ensures posData[|ranks|..] == old(posData[|ranks|..])
  {
    StepLevel(intervals[..], posData[..], open[..], ranks, r, top, next, ids, depth);
    LinkSpan(intervals[..], posData[..], ranks, r, r, ids, depth, ext, owner, open[top]);
    posData[prevPos] := open[top];
    top', next', ids', depth', ext' := top, next, ids, depth, ext;
    Advance(intervals[..], posData[..], ranks, r, r + 1, open[..], ids, depth, ext, owner);
    owner' := owner + [ids[top]];
  }

  /** Lines 131-132: a new interval, as deep as boundary r, is opened at it and the position of rank r - 1 joins it. */
  method OpenAbove(intervals: array<u64>, posData: array<u64>, open: array<u64>, ghost ranks: seq<u64>,
                   r: nat, prevPos: nat, top: nat, next: nat, nextLcp: nat, ghost ids: seq<nat>, ghost depth: seq<nat>,
                   ghost ext: seq<Extent>, ghost owner: seq<nat>)
    returns (top': nat, next': nat, ghost ids': seq<nat>, ghost depth': seq<nat>,
             ghost ext': seq<Extent>, ghost owner': seq<nat>)
    requires intervals != posData && intervals != open && posData != open
    requires Swept(intervals[..], posData[..], open[..], ranks, r, top, next, ids, depth)
    requires Ranged(intervals[..], posData[..], ranks, r, r - 1, r, ids, depth, ext, owner)
    requires r < |ranks| && prevPos == PosOf(ranks[r - 1]) && nextLcp == LcpOf(ranks[r]) > LcpOf(open[top])
    modifies posData, open
    ensures Swept(intervals[..], posData[..], open[..], ranks, r + 1, top', next', ids', depth')
    ensures Ranged(intervals[..], posData[..], ranks, r + 1, r, r + 1, ids', depth', ext', owner')
    ensures posData[|ranks|..] == old(posData[|ranks|..])
  {
    StepOpen(intervals[..], posData[..], open[..], ranks, r, top, next, ids, depth);
    OpenSpan(intervals[..], posData[..], ranks, r, r - 1, ids, depth, ext, owner, nextLcp);
    top' := top + 1;
    open[top'] := Pack(next, nextLcp);
    ids' := ids + [next];
    depth' := depth + [nextLcp];
    ext' := ext + [Extent(r - 1, 0, r)];
    next' := next + 1;
    LinkSpan(intervals[..], posData[..], ranks, r, r + 1, ids', depth', ext', owner, open[top']);
    posData[prevPos] := open[top'];
    Advance(intervals[..], posData[..], ranks, r, r + 1, open[..], ids', depth', ext', owner);
    owner' := owner + [ids'[top']];
  }

  /**
   * Lines 135-156: the position of rank r - 1 joins the top interval, then
   * the intervals deeper than boundary r are closed.
   */
  method CloseDown(intervals: array<u64>, posData: array<u64>, open: array<u64>, ghost ranks: seq<u64>,
                   r: nat, prevPos: nat, top: nat, next: nat, nextLcp: nat, ghost ids: seq<nat>, ghost depth: seq<nat>,
                   ghost ext: seq<Extent>, ghost owner: seq<nat>)
    returns (top': nat, next': nat, ghost ids': seq<nat>, ghost depth': seq<nat>,
             ghost ext': seq<Extent>, ghost owner': seq<nat>)
    requires intervals != posData && intervals != open && posData != open
    requires Swept(intervals[..], posData[..], open[..], ranks, r, top, next, ids, depth)
    requires Ranged(intervals[..], posData[..], ranks, r, r - 1, r, ids, depth, ext, owner)
    requires r < |ranks| && prevPos == PosOf(ranks[r - 1]) && nextLcp == LcpOf(ranks[r]) < LcpOf(open[top])
    modifies intervals, posData, open
    ensures Swept(intervals[..], posData[..], open[..], ranks, r + 1, top', next', ids', depth')
    ensures Ranged(intervals[..], posData[..], ranks, r + 1, r, r + 1, ids', depth', ext', owner')
    ensures intervals[|ranks|..] == old(intervals[|ranks|..]) && posData[|ranks|..] == old(posData[|ranks|..])
  {
    LinkLeaf(posData[..], ranks, depth, r - 1, open[top]);
    LinkSpan(intervals[..], posData[..], ranks, r, r, ids, depth, ext, owner, open[top]);
    posData[prevPos] := open[top];
    ghost var before := intervals[..];
    top', next', ids', depth', ext' :=
      CloseDeeper(intervals, posData[..], open, ranks, r, top, next, nextLcp, ids, depth, ext, owner);
    assert intervals[r + 1..|ranks|] == before[r..|ranks|][1..];
    ReadEntries(before, intervals[..], ranks, r, next, next');
    Advance(intervals[..], posData[..], ranks, r, r + 1, open[..], ids', depth', ext', owner);
    owner' := owner + [ids'[top']];
  }

  /** The entries read before rank r + 1 and past the ids in use still hold their rank entries. */
  lemma ReadEntries(before: seq<u64>, after: seq<u64>, ranks: seq<u64>, r: nat, next: nat, next': nat)
    requires next <= next' && r < |ranks| <= |before| && |ranks| <= |after|
    requires before[r..|ranks|] == ranks[r..]
    requires forall i :: next <= i < r ==> before[i] == ranks[i]
    requires forall i :: next <= i < |ranks| ==> after[i] == before[i]
    ensures forall i :: next' <= i < r + 1 ==> after[i] == ranks[i]
  {
    assert before[r] == ranks[r..][0];
  }

  /** Lines 161-163: leave the last rank, then close the intervals still open, innermost first. */
  method CloseAll(intervals: array<u64>, posData: array<u64>, open: array<u64>, ghost ranks: seq<u64>,
                  prevPos: nat, top: nat, ghost ids: seq<nat>, ghost depth: seq<nat>,
                  ghost ext: seq<Extent>, ghost owner: seq<nat>)
    returns (top': nat, ghost ids': seq<nat>, ghost ext': seq<Extent>)
    requires intervals != posData && intervals != open && posData != open
    requires Swept(intervals[..], posData[..], open[..], ranks, |ranks|, top, |depth|, ids, depth)
    requires Ranged(intervals[..], posData[..], ranks, |ranks|, |ranks| - 1, |ranks|, ids, depth, ext, owner)
    requires prevPos == PosOf(ranks[|ranks| - 1])
    modifies intervals, posData
    ensures top' == 0 && ids' == [0]
    ensures ClosedLinks(intervals[..], ids', depth)
    ensures LeafLinks(posData[..], ranks, depth, |ranks|)
    ensures LcpTree(intervals[..], posData[..], ranks, depth, ext')
    ensures forall i :: |depth| <= i < |ranks| ==> intervals[i] == ranks[i]
    ensures intervals[|ranks|..] == old(intervals[|ranks|..]) && posData[|ranks|..] == old(posData[|ranks|..])
  {
    var n := |ranks|;
    LinkLeaf(posData[..], ranks, depth, n - 1, open[top]);
    LinkSpan(intervals[..], posData[..], ranks, n, n, ids, depth, ext, owner, open[top]);
    posData[prevPos] := open[top];
    top', ids', ext' := CloseOpen(intervals, posData[..], open, ranks, top, ids, depth, ext, owner);
    assert ids' == [0];
    FinishSpans(intervals[..], posData[..], ranks, depth, ext', owner);
    ext' := ext'[0 := Extent(0, n - 1, 0)];
  }

  /** Line 162: close the intervals still open, innermost first, each linked to the one below it. */
  method CloseOpen(intervals: array<u64>, ghost posData: seq<u64>, open: array<u64>, ghost ranks: seq<u64>,
                   top: nat, ghost ids: seq<nat>, ghost depth: seq<nat>, ghost ext: seq<Extent>, ghost owner: seq<nat>)
    returns (top': nat, ghost ids': seq<nat>, ghost ext': seq<Extent>)
    requires intervals != open && 1 <= |ranks| <= intervals.Length && |depth| <= |ranks|
    requires top + 1 == |ids| && OpenStack(open[..], ids, depth) && ClosedLinks(intervals[..], ids, depth)
    requires Ranged(intervals[..], posData, ranks, |ranks|, |ranks|, |ranks|, ids, depth, ext, owner)
    modifies intervals
    ensures top' == 0 && |ids'| == 1 && OpenStack(open[..], ids', depth)
    ensures ClosedLinks(intervals[..], ids', depth)
    ensures Ranged(intervals[..], posData, ranks, |ranks|, |ranks|, |ranks|, ids', depth, ext', owner)
    ensures intervals[|ranks|..] == old(intervals[|ranks|..])
    ensures forall i :: |depth| <= i < |ranks| ==> intervals[i] == old(intervals[i])
  {
    var n := |ranks|;
    top', ids', ext' := top, ids, ext;
    while top' > 0
      invariant top' + 1 == |ids'| && OpenStack(open[..], ids', depth)
      invariant ClosedLinks(intervals[..], ids', depth)
      invariant Ranged(intervals[..], posData, ranks, n, n, n, ids', depth, ext', owner)
      invariant intervals[n..] == old(intervals[n..])
      invariant forall i :: |depth| <= i < n ==> intervals[i] == old(intervals[i])
    {
      CloseTop(intervals[..], open[..], ids', depth, open[top' - 1]);
      Pop(open[..], ids', depth);
      CloseSpan(intervals[..], posData, ranks, n, n, ids', depth, ext', owner, open[top' - 1]);
      ghost var c := ids'[top'];
      intervals[PosOf(open[top'])] := open[top' - 1];
      top' := top' - 1;
      ids' := ids'[..top' + 1];
      ext' := ext'[c := ext'[c].(hi := n - 1)];
    }
  }

  /**
   * Lines 135-156: pop and close every open interval deeper than nextLcp,
   * linking each to the interval below it, or to a new interval of depth
   * nextLcp opened in its place when the one below is shallower.
   */
  method CloseDeeper(intervals: array<u64>, ghost posData: seq<u64>, open: array<u64>, ghost ranks: seq<u64>,
                     ghost r: nat, top: nat, next: nat, nextLcp: nat, ghost ids: seq<nat>, ghost depth: seq<nat>,
                     ghost ext: seq<Extent>, ghost owner: seq<nat>)
    returns (top': nat, next': nat, ghost ids': seq<nat>, ghost depth': seq<nat>, ghost ext': seq<Extent>)
    requires intervals != open
    requires 1 <= r < |ranks| <= intervals.Length && |ranks| < 0x8000_0000 && open.Length == LCP_LIMIT
    requires 1 <= next <= r && next == |depth| && nextLcp == BoundaryDepth(ranks, r)
    requires top + 1 == |ids| && OpenStack(open[..], ids, depth) && ClosedLinks(intervals[..], ids, depth)
    requires nextLcp < depth[ids[top]]
    requires LeafLinks(posData, ranks, depth, r)
    requires Ranged(intervals[..], posData, ranks, r, r, r, ids, depth, ext, owner)
    modifies intervals, open
    ensures next <= next' <= r + 1 && next' == |depth'|
    ensures top' + 1 == |ids'| && OpenStack(open[..], ids', depth') && ClosedLinks(intervals[..], ids', depth')
    ensures depth'[ids'[top']] == nextLcp
    ensures intervals[r..|ranks|] == old(intervals[r..|ranks|])
    ensures forall i :: next <= i < |ranks| ==> intervals[i] == old(intervals[i])
    ensures intervals[|ranks|..] == old(intervals[|ranks|..])
    ensures LeafLinks(posData, ranks, depth', r)
    ensures Ranged(intervals[..], posData, ranks, r, r, r + 1, ids', depth', ext', owner)
  {
    top', next', ids', depth', ext' := top, next, ids, depth, ext;
    var done := false;
    while !done
      invariant top' + 1 == |ids'| && OpenStack(open[..], ids', depth') && ClosedLinks(intervals[..], ids', depth')
      invariant next <= next' <= r + 1 && next' == |depth'|
      invariant !done ==> next' == next && nextLcp < depth'[ids'[top']]
      invariant done ==> depth'[ids'[top']] == nextLcp
      invariant intervals[r..|ranks|] == old(intervals[r..|ranks|])
      invariant forall i :: next <= i < |ranks| ==> intervals[i] == old(intervals[i])
      invariant intervals[|ranks|..] == old(intervals[|ranks|..])
      invariant LeafLinks(posData, ranks, depth', r)
      invariant Ranged(intervals[..], posData, ranks, r, r, if done then r + 1 else r, ids', depth', ext', owner)
      decreases !done, top'
    {
      done, top', next', ids', depth', ext' :=
        CloseOne(intervals, posData, open, ranks, r, top', next', nextLcp, ids', depth', ext', owner);
    }
  }

  /**
   * One turn of the loop of lines 135-156: pop the deepest open interval
   * and link it; done when the interval now on top has depth nextLcp.
   */
  method CloseOne(intervals: array<u64>, ghost posData: seq<u64>, open: array<u64>, ghost ranks: seq<u64>,
                  ghost r: nat, top: nat, next: nat, nextLcp: nat, ghost ids: seq<nat>, ghost depth: seq<nat>,
                  ghost ext: seq<Extent>, ghost owner: seq<nat>)
    returns (done: bool, top': nat, next': nat, ghost ids': seq<nat>, ghost depth': seq<nat>, ghost ext': seq<Extent>)
    requires intervals != open
    requires 1 <= r < |ranks| <= intervals.Length && |ranks| < 0x8000_0000 && open.Length == LCP_LIMIT
    requires 1 <= next <= r && next == |depth| && nextLcp == BoundaryDepth(ranks, r)
    requires top + 1 == |ids| && OpenStack(open[..], ids, depth) && ClosedLinks(intervals[..], ids, depth)
    requires nextLcp < depth[ids[top]]
    requires LeafLinks(posData, ranks, depth, r)
    requires Ranged(intervals[..], posData, ranks, r, r, r, ids, depth, ext, owner)
    modifies intervals, open
    ensures next <= next' <= r + 1 && next' == |depth'|
    ensures top' + 1 == |ids'| && OpenStack(open[..], ids', depth') && ClosedLinks(intervals[..], ids', depth')
    ensures !done ==> next' == next && nextLcp < depth'[ids'[top']] && top' < top
    ensures done ==> depth'[ids'[top']] == nextLcp
    ensures intervals[r..|ranks|] == old(intervals[r..|ranks|])
    ensures forall i :: next <= i < |ranks| ==> intervals[i] == old(intervals[i])
    ensures intervals[|ranks|..] == old(intervals[|ranks|..])
    ensures LeafLinks(posData, ranks, depth', r)
    ensures Ranged(intervals[..], posData, ranks, r, r, if done then r + 1 else r, ids', depth', ext', owner)
  {
    if top == 0 {
      assert false;
    }
    Pop(open[..], ids, depth);
    top' := top - 1;
    next', ids', depth' := next, ids, depth;
    var superLcp := LcpOf(open[top']);
    if nextLcp == superLcp {
      // continuing the superinterval
      ids', ext' := LinkBelow(intervals, posData, open, ranks, r, top, next, nextLcp, ids, depth, ext, owner, r + 1);
      done := true;
    } else if nextLcp > superLcp {
      // a new interval between the closed one and its superinterval
      ids', depth', ext' := PutBetween(intervals, posData, open, ranks, r, top, next, nextLcp, ids, depth, ext, owner);
      top' := top;
      next' := next + 1;
      done := true;
    } else {
      // also closing the superinterval
      ids', ext' := LinkBelow(intervals, posData, open, ranks, r, top, next, nextLcp, ids, depth, ext, owner, r);
      done := false;
    }
  }

  /** Lines 142 and 154: the deepest open interval is closed and linked to the one below it. */
  method LinkBelow(intervals: array<u64>, ghost posData: seq<u64>, open: array<u64>, ghost ranks: seq<u64>,
                   ghost r: nat, top: nat, next: nat, nextLcp: nat, ghost ids: seq<nat>, ghost depth: seq<nat>,
                   ghost ext: seq<Extent>, ghost owner: seq<nat>, ghost atBound: nat)
    returns (ghost ids': seq<nat>, ghost ext': seq<Extent>)
    requires intervals != open
    requires 1 <= r < |ranks| <= intervals.Length && open.Length == LCP_LIMIT
    requires 1 <= next <= r && next == |depth| && nextLcp == BoundaryDepth(ranks, r)
    requires top + 1 == |ids| && OpenStack(open[..], ids, depth) && ClosedLinks(intervals[..], ids, depth)
    requires nextLcp < depth[ids[top]]
    requires Ranged(intervals[..], posData, ranks, r, r, r, ids, depth, ext, owner)
    requires 1 <= top && nextLcp <= LcpOf(open[top - 1]) && r <= atBound
    modifies intervals
    ensures ids' == ids[..top] && ClosedLinks(intervals[..], ids', depth)
    ensures intervals[r..|ranks|] == old(intervals[r..|ranks|])
    ensures forall i :: next <= i < |ranks| ==> intervals[i] == old(intervals[i])
    ensures intervals[|ranks|..] == old(intervals[|ranks|..])
    ensures Ranged(intervals[..], posData, ranks, r, r, atBound, ids', depth, ext', owner)
  {
    var closed := PosOf(open[top]);
    Pop(open[..], ids, depth);
    CloseTop(intervals[..], open[..], ids, depth, open[top - 1]);
    CloseSpan(intervals[..], posData, ranks, r, atBound, ids, depth, ext, owner, open[top - 1]);
    intervals[closed] := open[top - 1];
    ids' := ids[..top];
    ext' := ext[closed := ext[closed].(hi := r - 1)];
  }

  /**
   * Lines 149-150: the deepest open interval is closed and linked to a new
   * interval of depth nextLcp, opened at boundary r in its place on the stack.
   */
  method PutBetween(intervals: array<u64>, ghost posData: seq<u64>, open: array<u64>, ghost ranks: seq<u64>,
                    ghost r: nat, top: nat, next: nat, nextLcp: nat, ghost ids: seq<nat>, ghost depth: seq<nat>,
                    ghost ext: seq<Extent>, ghost owner: seq<nat>)
    returns (ghost ids': seq<nat>, ghost depth': seq<nat>, ghost ext': seq<Extent>)
    requires intervals != open
    requires 1 <= r < |ranks| <= intervals.Length && |ranks| < 0x8000_0000 && open.Length == LCP_LIMIT
    requires 1 <= next <= r && next == |depth| && nextLcp == BoundaryDepth(ranks, r)
    requires top + 1 == |ids| && OpenStack(open[..], ids, depth) && ClosedLinks(intervals[..], ids, depth)
    requires nextLcp < depth[ids[top]]
    requires LeafLinks(posData, ranks, depth, r)
    requires Ranged(intervals[..], posData, ranks, r, r, r, ids, depth, ext, owner)
    requires 1 <= top && nextLcp > LcpOf(open[top - 1])
    modifies intervals, open
    ensures ids' == ids[..top] + [next] && depth' == depth + [nextLcp]
    ensures OpenStack(open[..], ids', depth') && ClosedLinks(intervals[..], ids', depth')
    ensures intervals[r..|ranks|] == old(intervals[r..|ranks|])
    ensures forall i :: next <= i < |ranks| ==> intervals[i] == old(intervals[i])
    ensures intervals[|ranks|..] == old(intervals[|ranks|..])
    ensures LeafLinks(posData, ranks, depth', r)
    ensures Ranged(intervals[..], posData, ranks, r, r, r + 1, ids', depth', ext', owner)
  {
    var closed := PosOf(open[top]);
    Pop(open[..], ids, depth);
    Interpose(intervals[..], open[..], ids, depth, nextLcp);
    GrowLeaves(posData, ranks, depth, nextLcp, r);
    InterposeSpan(intervals[..], posData, ranks, r, ids, depth, ext, owner, nextLcp);
    open[top] := Pack(next, nextLcp);
    intervals[closed] := open[top];
    ids' := ids[..top] + [next];
    depth' := depth + [nextLcp];
    ext' := ext[closed := ext[closed].(hi := r - 1)] + [Extent(ext[closed].lo, 0, r)];
  }
}
