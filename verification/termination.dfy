/**
 * Why the climb of apultra_find_matches_at (lines 214-217) ends, and the
 * invariant of the two tables that every call keeps and that makes it end.
 *
 * Over a window of n positions whose interval tree has the depths `depth`,
 * every entry of an interval is either its parent link or carries no LCP
 * bits and, with the visited bit cleared, names a position of the window
 * (0 for a child of the root, p | VISITED_FLAG once position p visited
 * it); every pos_data entry of the window names an interval of the tree.
 * The climb follows parent links only, each strictly shallower than the
 * last, so it ends within LCP_LIMIT steps.  The chase and the ascent that
 * follow are left to a premise (see AscentFinishes).
 */
module Termination {
  import opened Layout
  import opened Enumeration
  import opened EnumerationFacts
  import opened IntervalTree

  /** The entry of interval x: its parent link, or no LCP bits and a position of the window. */
  ghost predicate Marked(v: u64, depth: seq<nat>, x: nat, n: nat)
    requires Depths(depth) && x < |depth|
  {
    ParentLink(v, depth, x) || (LcpOf(v) == 0 && ClearVisited(v) < n)
  }

  /** The invariant of the two tables across the calls over a window of n positions. */
  ghost predicate Hierarchy(t: Links, depth: seq<nat>, n: nat)
  {
    && Depths(depth) && 1 <= |depth| <= n && |depth| <= |t.intervals|
    && n <= |t.posData| < POS_LIMIT
    && (forall x :: 0 <= x < |depth| ==> Marked(t.intervals[x], depth, x, n))
    && (forall i :: 0 <= i < n ==> PosOf(t.posData[i]) < |depth|)
  }

  /**
   * With the visited bit cleared, an interval entry names a position of the
   * window, or lies beyond every table index (a parent link below the root
   * carries LCP bits).
   */
  lemma EntryTarget(v: u64, depth: seq<nat>, x: nat, n: nat)
    requires Depths(depth) && x < |depth| <= n && Marked(v, depth, x, n)
    ensures ClearVisited(v) < n || ClearVisited(v) >= POS_LIMIT
    ensures LcpOf(v) == 0 ==> ClearVisited(v) < n
  {
    if ParentLink(v, depth, x) {
      var d := depth[PosOf(v)];
      assert v == PosOf(v) + d * POS_LIMIT;
      if d == 0 {
        assert ClearVisited(v) == PosOf(v);
      } else {
        assert v >= POS_LIMIT;
      }
    }
  }

  /** Relinking interval i to a position of the window keeps the invariant. */
  lemma VisitKeeps(t: Links, depth: seq<nat>, n: nat, i: nat, p: nat)
    requires Hierarchy(t, depth, n) && i < |t.intervals| && p < n
    ensures Hierarchy(t.(intervals := t.intervals[i := Visit(p)]), depth, n)
  {
    var t' := t.(intervals := t.intervals[i := Visit(p)]);
    forall x | 0 <= x < |depth|
      ensures Marked(t'.intervals[x], depth, x, n)
    {
      if x != i {
        assert t'.intervals[x] == t.intervals[x];
      }
    }
  }

  /**
   * Lines 214-217: from an interval of the tree of depth at most f, the
   * climb finishes within f steps; a climb that finishes keeps the
   * invariant and stops at an interval of the tree.
   */
  lemma {:induction false} ClimbKeeps(t: Links, depth: seq<nat>, n: nat, p: nat, ref: u64, f: nat)
    requires Hierarchy(t, depth, n) && p < n && PosOf(ref) < |depth|
    ensures depth[PosOf(ref)] <= f ==> Climb(t, p, ref, f).Some?
    ensures Climb(t, p, ref, f).Some? ==>
      var (t1, top, _) := Climb(t, p, ref, f).value;
      Hierarchy(t1, depth, n) && PosOf(top) < |depth|
    decreases f
  {
    var i := PosOf(ref);
    var super := t.intervals[i];
    if LcpOf(super) != 0 && f > 0 {
      assert Marked(super, depth, i, n);
      VisitKeeps(t, depth, n, i, p);
      ClimbKeeps(t.(intervals := t.intervals[i := Visit(p)]), depth, n, p, super, f - 1);
    }
  }

  /** The chase of lines 297-328 stops at a position of the window. */
  lemma {:induction false} ChaseStays(t: Links, depth: seq<nat>, n: nat, q: Request, p: nat, ref: u64, mp: nat,
                                      e: Emitted, f: nat)
    requires Hierarchy(t, depth, n) && mp < n && e.Consistent() && ChaseLinks(t, q, p, ref, mp, e, f).Some?
    ensures ChaseLinks(t, q, p, ref, mp, e, f).value.0 < n
    decreases f
  {
    var super := t.posData[mp];
    if super > ref {
      var x := PosOf(super);
      EntryTarget(t.intervals[x], depth, x, n);
      var mp' := ClearVisited(t.intervals[x]);
      if mp' < n {
        ChaseStays(t, depth, n, q, p, ref, mp', Candidate(e, q, p, Chase, mp', ref, true), f - 1);
      }
    }
  }

  /** One turn of the ascent of lines 265-390, and every turn after it, keeps the invariant. */
  lemma {:induction false} AscendKeeps(t: Links, depth: seq<nat>, n: nat, q: Request, p: nat, ref: u64, mp: nat,
                                       e: Emitted, f: nat)
    requires Hierarchy(t, depth, n) && p < n && PosOf(ref) < |depth| && mp < n && e.Consistent()
    requires Ascend(t, q, p, ref, mp, e, f).Some?
    ensures Hierarchy(Ascend(t, q, p, ref, mp, e, f).value.0, depth, n)
    decreases f, 1
  {
    var super := t.posData[mp];
    if super > ref {
      EntryTarget(t.intervals[PosOf(super)], depth, PosOf(super), n);
    }
    var mp1 := if super > ref then ClearVisited(t.intervals[PosOf(super)]) else mp;
    var e1 := if super > ref then Candidate(e, q, p, FirstIndirect, mp1, ref, false) else e;
    ChaseStays(t, depth, n, q, p, ref, mp1, e1, f);
    var (mp2, super2, e2) := ChaseLinks(t, q, p, ref, mp1, e1, f).value;
    RelinkKeeps(t, depth, n, q, p, ref, mp2, super2, e2, f);
  }

  /** Relinking as lines 330-389 do, and continuing with the superinterval, keeps the invariant. */
  lemma {:induction false} RelinkKeeps(t: Links, depth: seq<nat>, n: nat, q: Request, p: nat, ref: u64, mp: nat,
                                       super: u64, e: Emitted, f: nat)
    requires Hierarchy(t, depth, n) && p < n && PosOf(ref) < |depth| && mp < n && e.Consistent()
    requires super == t.posData[mp] && Relink(t, q, p, ref, mp, super, e, f).Some?
    ensures Hierarchy(Relink(t, q, p, ref, mp, super, e, f).value.0, depth, n)
    decreases f, 0
  {
    var t1 := t.(intervals := t.intervals[PosOf(ref) := Visit(p)]);
    VisitKeeps(t, depth, n, PosOf(ref), p);
    var t' := Links(t1.intervals, t1.posData[mp := ref]);
    assert Hierarchy(t', depth, n);
    if super != 0 {
      var x := PosOf(super);
      EntryTarget(t'.intervals[x], depth, x, n);
      var mp' := ClearVisited(t'.intervals[x]);
      var e' := DirectOutput(e, q, p, mp, ref);
      if mp' < n {
        AscendKeeps(t', depth, n, q, p, super, mp', Candidate(e', q, p, Superinterval, mp', super, true), f - 1);
      }
    }
  }

  /** Every call at a position of the window keeps the invariant. */
  lemma FindAtKeeps(t: Links, depth: seq<nat>, n: nat, q: Request, p: nat, f: nat)
    requires Hierarchy(t, depth, n) && p < n && FindAt(t, q, p, f).Some?
    ensures Hierarchy(FindAt(t, q, p, f).value.0, depth, n)
  {
    var t0 := t.(posData := t.posData[p := 0]);
    assert Hierarchy(t0, depth, n);
    ClimbKeeps(t0, depth, n, p, t.posData[p], f);
    var (t1, ref1, super) := Climb(t0, p, t.posData[p], f).value;
    if super == 0 {
      if ref1 != 0 {
        VisitKeeps(t1, depth, n, PosOf(ref1), p);
      }
    } else {
      EntryTarget(super, depth, PosOf(ref1), n);
      var mp := ClearVisited(super);
      AscendKeeps(t1, depth, n, q, p, ref1, mp, Candidate(Nothing, q, p, FirstDirect, mp, ref1, false), f);
    }
  }

  /** Under the invariant, the climb of the call at p finishes within LCP_LIMIT steps. */
  lemma CallClimbs(t: Links, depth: seq<nat>, n: nat, p: nat)
    requires Hierarchy(t, depth, n) && p < n
    ensures Climb(t.(posData := t.posData[p := 0]), p, t.posData[p], LCP_LIMIT).Some?
  {
    var t0 := t.(posData := t.posData[p := 0]);
    assert Hierarchy(t0, depth, n);
    ClimbKeeps(t0, depth, n, p, t.posData[p], LCP_LIMIT);
  }

  /**
   * What is left to assume of the call at p: once its climb has finished,
   * the ascent that follows (the chase along pos_data and the relinking of
   * lines 229-390) finishes with some number of steps.
   */
  ghost predicate AscentFinishes(t: Links, p: nat)
  {
    && p < |t.posData| && p < POS_LIMIT
    && match Climb(t.(posData := t.posData[p := 0]), p, t.posData[p], LCP_LIMIT)
       case None => true
       case Some((t1, ref1, super)) =>
         var mp := ClearVisited(super);
         super == 0 ||
         exists g: nat :: Ascend(t1, Skip, p, ref1, mp, Candidate(Nothing, Skip, p, FirstDirect, mp, ref1, false), g).Some?
  }

  /** Under the invariant, a call whose ascent finishes finishes. */
  lemma CallDefined(t: Links, depth: seq<nat>, n: nat, p: nat)
    requires Hierarchy(t, depth, n) && p < n && AscentFinishes(t, p)
    ensures Defined(t, p)
  {
    var t0 := t.(posData := t.posData[p := 0]);
    CallClimbs(t, depth, n, p);
    var (t1, ref1, super) := Climb(t0, p, t.posData[p], LCP_LIMIT).value;
    if super == 0 {
      assert Finishes(t, p, LCP_LIMIT);
    } else {
      var mp := ClearVisited(super);
      var e0 := Candidate(Nothing, Skip, p, FirstDirect, mp, ref1, false);
      var g: nat :| Ascend(t1, Skip, p, ref1, mp, e0, g).Some?;
      var f := if g < LCP_LIMIT then LCP_LIMIT else g;
      ClimbFuel(t0, p, t.posData[p], LCP_LIMIT, f);
      AscendFuel(t1, Skip, p, ref1, mp, e0, g, f);
      assert Finishes(t, p, f);
    }
  }

  /** The tables after a call at a position of the window keep the invariant. */
  lemma NextKeeps(t: Links, depth: seq<nat>, n: nat, p: nat)
    requires Hierarchy(t, depth, n) && p < n && Defined(t, p)
    ensures Hierarchy(Next(t, p), depth, n)
  {
    FindAtKeeps(t, depth, n, Skip, p, FuelFor(t, p));
  }
}
