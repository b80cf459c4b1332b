/**
 * Properties of one enumeration call (module Enumeration): the result does
 * not depend on how much fuel is granted beyond what it needs, the rewrite
 * of the two tables does not depend on the output parameters, and the
 * output stays within its capacity and filters.
 */
module EnumerationFacts {
  import opened Layout
  import opened Enumeration

  // ---------------------------------------------------------------------
  // More fuel changes nothing

  lemma {:induction false} ClimbFuel(t: Links, p: nat, ref: u64, f: nat, f': nat)
    requires p < POS_LIMIT && Climb(t, p, ref, f).Some? && f <= f'
    ensures Climb(t, p, ref, f') == Climb(t, p, ref, f)
    decreases f
  {
    var i := PosOf(ref);
    if LcpOf(t.intervals[i]) != 0 {
      ClimbFuel(t.(intervals := t.intervals[i := Visit(p)]), p, t.intervals[i], f - 1, f' - 1);
    }
  }

  lemma {:induction false} ChaseFuel(t: Links, q: Request, p: nat, ref: u64, mp: nat, e: Emitted, f: nat, f': nat)
    requires e.Consistent() && ChaseLinks(t, q, p, ref, mp, e, f).Some? && f <= f'
    ensures ChaseLinks(t, q, p, ref, mp, e, f') == ChaseLinks(t, q, p, ref, mp, e, f)
    decreases f
  {
    var super := t.posData[mp];
    if super > ref {
      var mp' := ClearVisited(t.intervals[PosOf(super)]);
      ChaseFuel(t, q, p, ref, mp', Candidate(e, q, p, Chase, mp', ref, true), f - 1, f' - 1);
    }
  }

  lemma {:induction false} AscendFuel(t: Links, q: Request, p: nat, ref: u64, mp: nat, e: Emitted, f: nat, f': nat)
    requires p < POS_LIMIT && e.Consistent() && Ascend(t, q, p, ref, mp, e, f).Some? && f <= f'
    ensures Ascend(t, q, p, ref, mp, e, f') == Ascend(t, q, p, ref, mp, e, f)
    decreases f, 1
  {
    var super := t.posData[mp];
    var mp1 := if super > ref then ClearVisited(t.intervals[PosOf(super)]) else mp;
    var e1 := if super > ref then Candidate(e, q, p, FirstIndirect, mp1, ref, false) else e;
    ChaseFuel(t, q, p, ref, mp1, e1, f, f');
    var (mp2, super2, e2) := ChaseLinks(t, q, p, ref, mp1, e1, f).value;
    RelinkFuel(t, q, p, ref, mp2, super2, e2, f, f');
  }

  lemma {:induction false} RelinkFuel(t: Links, q: Request, p: nat, ref: u64, mp: nat, super: u64, e: Emitted,
                                       f: nat, f': nat)
    requires p < POS_LIMIT && e.Consistent() && Relink(t, q, p, ref, mp, super, e, f).Some? && f <= f'
    ensures Relink(t, q, p, ref, mp, super, e, f') == Relink(t, q, p, ref, mp, super, e, f)
    decreases f, 0
  {
    if super != 0 {
      var t' := Links(t.intervals[PosOf(ref) := Visit(p)], t.posData[mp := ref]);
      var e' := DirectOutput(e, q, p, mp, ref);
      var mp' := ClearVisited(t'.intervals[PosOf(super)]);
      AscendFuel(t', q, p, super, mp', Candidate(e', q, p, Superinterval, mp', super, true), f - 1, f' - 1);
    }
  }

  lemma FindAtFuel(t: Links, q: Request, p: nat, f: nat, f': nat)
    requires p < |t.posData| && p < POS_LIMIT && FindAt(t, q, p, f).Some? && f <= f'
    ensures FindAt(t, q, p, f') == FindAt(t, q, p, f)
  {
    var t0 := t.(posData := t.posData[p := 0]);
    ClimbFuel(t0, p, t.posData[p], f, f');
    var (t1, ref1, super) := Climb(t0, p, t.posData[p], f).value;
    if super != 0 {
      var mp := ClearVisited(super);
      AscendFuel(t1, q, p, ref1, mp, Candidate(Nothing, q, p, FirstDirect, mp, ref1, false), f, f');
    }
  }

  /** Two fuels that both suffice give the same result. */
  lemma FindAtDeterministic(t: Links, q: Request, p: nat, f1: nat, f2: nat)
    requires p < |t.posData| && p < POS_LIMIT && FindAt(t, q, p, f1).Some? && FindAt(t, q, p, f2).Some?
    ensures FindAt(t, q, p, f1) == FindAt(t, q, p, f2)
  {
    if f1 <= f2 { FindAtFuel(t, q, p, f1, f2); } else { FindAtFuel(t, q, p, f2, f1); }
  }

  // ---------------------------------------------------------------------
  // The tables do not depend on the output parameters

  lemma {:induction false} ChaseIndependent(t: Links, q1: Request, q2: Request, p: nat, ref: u64, mp: nat,
                                             e1: Emitted, e2: Emitted, f: nat)
    requires e1.Consistent() && e2.Consistent()
    ensures ChaseLinks(t, q1, p, ref, mp, e1, f).Some? == ChaseLinks(t, q2, p, ref, mp, e2, f).Some?
    ensures ChaseLinks(t, q1, p, ref, mp, e1, f).Some? ==>
      ChaseLinks(t, q1, p, ref, mp, e1, f).value.0 == ChaseLinks(t, q2, p, ref, mp, e2, f).value.0 &&
      ChaseLinks(t, q1, p, ref, mp, e1, f).value.1 == ChaseLinks(t, q2, p, ref, mp, e2, f).value.1
    decreases f
  {
    if mp < |t.posData| && t.posData[mp] > ref && PosOf(t.posData[mp]) < |t.intervals| && f > 0 {
      var mp' := ClearVisited(t.intervals[PosOf(t.posData[mp])]);
      ChaseIndependent(t, q1, q2, p, ref, mp', Candidate(e1, q1, p, Chase, mp', ref, true),
                       Candidate(e2, q2, p, Chase, mp', ref, true), f - 1);
    }
  }

  lemma {:induction false} AscendIndependent(t: Links, q1: Request, q2: Request, p: nat, ref: u64, mp: nat,
                                              e1: Emitted, e2: Emitted, f: nat)
    requires p < POS_LIMIT && e1.Consistent() && e2.Consistent()
    ensures Ascend(t, q1, p, ref, mp, e1, f).Some? == Ascend(t, q2, p, ref, mp, e2, f).Some?
    ensures Ascend(t, q1, p, ref, mp, e1, f).Some? ==>
      Ascend(t, q1, p, ref, mp, e1, f).value.0 == Ascend(t, q2, p, ref, mp, e2, f).value.0
    decreases f, 1
  {
    if mp < |t.posData| {
      var super := t.posData[mp];
      if !(super > ref && PosOf(super) >= |t.intervals|) {
        var mp1 := if super > ref then ClearVisited(t.intervals[PosOf(super)]) else mp;
        var e1' := if super > ref then Candidate(e1, q1, p, FirstIndirect, mp1, ref, false) else e1;
        var e2' := if super > ref then Candidate(e2, q2, p, FirstIndirect, mp1, ref, false) else e2;
        ChaseIndependent(t, q1, q2, p, ref, mp1, e1', e2', f);
        var c1 := ChaseLinks(t, q1, p, ref, mp1, e1', f);
        var c2 := ChaseLinks(t, q2, p, ref, mp1, e2', f);
        if c1.Some? {
          RelinkIndependent(t, q1, q2, p, ref, c1.value.0, c1.value.1, c1.value.2, c2.value.2, f);
        }
      }
    }
  }

  lemma {:induction false} RelinkIndependent(t: Links, q1: Request, q2: Request, p: nat, ref: u64, mp: nat, super: u64,
                                              e1: Emitted, e2: Emitted, f: nat)
    requires p < POS_LIMIT && e1.Consistent() && e2.Consistent()
    ensures Relink(t, q1, p, ref, mp, super, e1, f).Some? == Relink(t, q2, p, ref, mp, super, e2, f).Some?
    ensures Relink(t, q1, p, ref, mp, super, e1, f).Some? ==>
      Relink(t, q1, p, ref, mp, super, e1, f).value.0 == Relink(t, q2, p, ref, mp, super, e2, f).value.0
    decreases f, 0
  {
    if PosOf(ref) < |t.intervals| && mp < |t.posData| {
      var t' := Links(t.intervals[PosOf(ref) := Visit(p)], t.posData[mp := ref]);
      if super != 0 && PosOf(super) < |t'.intervals| && f > 0 {
        var g1 := DirectOutput(e1, q1, p, mp, ref);
        var g2 := DirectOutput(e2, q2, p, mp, ref);
        var mp' := ClearVisited(t'.intervals[PosOf(super)]);
        AscendIndependent(t', q1, q2, p, super, mp', Candidate(g1, q1, p, Superinterval, mp', super, true),
                          Candidate(g2, q2, p, Superinterval, mp', super, true), f - 1);
      }
    }
  }

  /**
   * The rewrite of `intervals` and `pos_data` by one call depends only on the
   * tables and the position: not on the capacity, the block flags or the
   * maximum offset.  This is why skipping a range leaves the same structure
   * as enumerating it.
   */
  lemma FindAtIndependent(t: Links, q1: Request, q2: Request, p: nat, f: nat)
    requires p < |t.posData| && p < POS_LIMIT
    ensures FindAt(t, q1, p, f).Some? == FindAt(t, q2, p, f).Some?
    ensures FindAt(t, q1, p, f).Some? ==> FindAt(t, q1, p, f).value.0 == FindAt(t, q2, p, f).value.0
  {
    var t0 := t.(posData := t.posData[p := 0]);
    var c := Climb(t0, p, t.posData[p], f);
    if c.Some? && c.value.2 != 0 {
      var (t1, ref1, super) := c.value;
      var mp := ClearVisited(super);
      AscendIndependent(t1, q1, q2, p, ref1, mp, Candidate(Nothing, q1, p, FirstDirect, mp, ref1, false),
                        Candidate(Nothing, q2, p, FirstDirect, mp, ref1, false), f);
    }
  }

  // ---------------------------------------------------------------------
  // The output stays within its bounds

  /** A depth word: a run count up to LCP_MAX, plus 0x8000 when found indirectly. */
  predicate DepthWord(d: int)
  {
    (0 <= d <= LCP_MAX) || (INDIRECT_FLAG <= d <= INDIRECT_FLAG + LCP_MAX)
  }

  /** What the caller of one call may rely on about its output. */
  ghost predicate WithinBounds(e: Emitted, q: Request)
  {
    && e.Consistent()
    && |e.matches| <= (if q.cap < 0 then 0 else q.cap)
    && (forall k :: 0 <= k < |e.matches| ==> e.matches[k].offset <= q.maxOffset)
    && (forall k :: 0 <= k < |e.depths| ==> DepthWord(e.depths[k]))
    && 0 <= e.match1 < 256
  }

  /**
   * Offering a candidate either leaves the output alone, appends exactly that
   * candidate (when there is room and it passes the site's filter and does
   * not continue the previous run), or folds it into the last entry by
   * raising that entry's depth word by one, marked by the site's kind.
   */
  lemma OfferCases(e: Emitted, q: Request, site: Site, off: int, len: int)
    requires WithinBounds(e, q)
    ensures var r := Offer(e, q.cap, q.maxOffset, site, off, len);
      && WithinBounds(r, q)
      && (var room := |e.matches| < q.cap && Accepts(site, |e.matches|, e.prevOffset, q.cap, q.maxOffset, off, len);
          && (!room ==> r == e)
          && (room && !Continues(e.prevOffset, e.prevLen, e.cur, e.curDepth, off, len) ==>
                r.matches == e.matches + [Match(len, off)] && r.depths == e.depths + [if site.Indirect() then INDIRECT_FLAG else 0]
                && r.cur == |e.matches|)
          && (room && Continues(e.prevOffset, e.prevLen, e.cur, e.curDepth, off, len) ==>
                && r.matches == e.matches && |r.depths| == |e.depths| && r.cur == e.cur
                && (forall k :: 0 <= k < |e.depths| && k != e.cur ==> r.depths[k] == e.depths[k])
                && r.depths[e.cur] % INDIRECT_FLAG == e.curDepth + 1 <= LCP_MAX
                && (r.depths[e.cur] >= INDIRECT_FLAG <==> site.Indirect())))
  {
  }

  lemma CandidateBounded(e: Emitted, q: Request, p: nat, site: Site, mp: nat, ref: u64, strict: bool)
    requires WithinBounds(e, q)
    ensures WithinBounds(Candidate(e, q, p, site, mp, ref, strict), q)
  {
    OfferCases(e, q, site, p - mp, MatchLenOf(ref));
  }

  lemma {:induction false} ChaseBounded(t: Links, q: Request, p: nat, ref: u64, mp: nat, e: Emitted, f: nat)
    requires WithinBounds(e, q) && ChaseLinks(t, q, p, ref, mp, e, f).Some?
    ensures WithinBounds(ChaseLinks(t, q, p, ref, mp, e, f).value.2, q)
    decreases f
  {
    var super := t.posData[mp];
    if super > ref {
      var mp' := ClearVisited(t.intervals[PosOf(super)]);
      CandidateBounded(e, q, p, Chase, mp', ref, true);
      ChaseBounded(t, q, p, ref, mp', Candidate(e, q, p, Chase, mp', ref, true), f - 1);
    }
  }

  lemma DirectBounded(e: Emitted, q: Request, p: nat, mp: nat, ref: u64)
    requires WithinBounds(e, q)
    ensures WithinBounds(DirectOutput(e, q, p, mp, ref), q)
  {
    OfferCases(e, q, Direct, p - mp, MatchLenOf(ref));
  }

  lemma {:induction false} AscendBounded(t: Links, q: Request, p: nat, ref: u64, mp: nat, e: Emitted, f: nat)
    requires p < POS_LIMIT && WithinBounds(e, q) && Ascend(t, q, p, ref, mp, e, f).Some?
    ensures WithinBounds(Ascend(t, q, p, ref, mp, e, f).value.1, q)
    decreases f, 1
  {
    var super := t.posData[mp];
    var mp1 := if super > ref then ClearVisited(t.intervals[PosOf(super)]) else mp;
    if super > ref { CandidateBounded(e, q, p, FirstIndirect, mp1, ref, false); }
    var e1 := if super > ref then Candidate(e, q, p, FirstIndirect, mp1, ref, false) else e;
    ChaseBounded(t, q, p, ref, mp1, e1, f);
    var (mp2, super2, e2) := ChaseLinks(t, q, p, ref, mp1, e1, f).value;
    RelinkBounded(t, q, p, ref, mp2, super2, e2, f);
  }

  lemma {:induction false} RelinkBounded(t: Links, q: Request, p: nat, ref: u64, mp: nat, super: u64, e: Emitted, f: nat)
    requires p < POS_LIMIT && WithinBounds(e, q) && Relink(t, q, p, ref, mp, super, e, f).Some?
    ensures WithinBounds(Relink(t, q, p, ref, mp, super, e, f).value.1, q)
    decreases f, 0
  {
    DirectBounded(e, q, p, mp, ref);
    if super != 0 {
      var t' := Links(t.intervals[PosOf(ref) := Visit(p)], t.posData[mp := ref]);
      var e' := DirectOutput(e, q, p, mp, ref);
      var mp' := ClearVisited(t'.intervals[PosOf(super)]);
      CandidateBounded(e', q, p, Superinterval, mp', super, true);
      AscendBounded(t', q, p, super, mp', Candidate(e', q, p, Superinterval, mp', super, true), f - 1);
    }
  }

  /**
   * One call returns at most nMaxMatches entries (none for a capacity of 0),
   * every entry within the maximum offset, every depth word a run count of
   * at most LCP_MAX, possibly marked as indirect.
   */
  lemma FindAtBounded(t: Links, q: Request, p: nat, f: nat)
    requires p < |t.posData| && p < POS_LIMIT && FindAt(t, q, p, f).Some?
    ensures WithinBounds(FindAt(t, q, p, f).value.1, q)
    ensures q.cap <= 0 ==> FindAt(t, q, p, f).value.1.matches == []
  {
    var t0 := t.(posData := t.posData[p := 0]);
    var (t1, ref1, super) := Climb(t0, p, t.posData[p], f).value;
    if super != 0 {
      var mp := ClearVisited(super);
      CandidateBounded(Nothing, q, p, FirstDirect, mp, ref1, false);
      AscendBounded(t1, q, p, ref1, mp, Candidate(Nothing, q, p, FirstDirect, mp, ref1, false), f);
    }
  }

  // ---------------------------------------------------------------------
  // The climb

  /**
   * The climb leaves pos_data alone and turns each interval entry it
   * changes into p | VISITED_FLAG; it stops at `ref` itself or at a parent
   * link it followed out of the intervals table.
   */
  lemma {:induction false} ClimbEffect(t: Links, p: nat, ref: u64, f: nat)
    requires p < POS_LIMIT && Climb(t, p, ref, f).Some?
    ensures var (t1, top, _) := Climb(t, p, ref, f).value;
      && t1.posData == t.posData
      && (forall i :: 0 <= i < |t.intervals| ==> t1.intervals[i] == t.intervals[i] || t1.intervals[i] == Visit(p))
      && (top == ref || exists i :: 0 <= i < |t.intervals| && t.intervals[i] == top && LcpOf(top) != 0)
    decreases f
  {
    var i := PosOf(ref);
    var super := t.intervals[i];
    if LcpOf(super) != 0 {
      var t' := t.(intervals := t.intervals[i := Visit(p)]);
      ClimbEffect(t', p, super, f - 1);
      var top := Climb(t', p, super, f - 1).value.1;
      if top != super {
        var j :| 0 <= j < |t'.intervals| && t'.intervals[j] == top && LcpOf(top) != 0;
        assert t.intervals[j] == top;
      }
    }
  }

  /**
   * Lines 219-227: when the climb ends at an entry of 0 (the root, or an
   * unvisited child of the root), the call returns no match, pos_data[p] is
   * 0 and the rest of pos_data is kept, and each interval entry is kept or
   * becomes p | VISITED_FLAG.
   */
  lemma FindAtRoot(t: Links, q: Request, p: nat, f: nat)
    requires p < |t.posData| && p < POS_LIMIT
    requires var c := Climb(t.(posData := t.posData[p := 0]), p, t.posData[p], f); c.Some? && c.value.2 == 0
    ensures FindAt(t, q, p, f).Some?
    ensures var (t', e) := FindAt(t, q, p, f).value;
      && e == Nothing && e.matches == [] && e.match1 == 0
      && t'.posData == t.posData[p := 0]
      && forall i :: 0 <= i < |t.intervals| ==> t'.intervals[i] == t.intervals[i] || t'.intervals[i] == Visit(p)
  {
    ClimbEffect(t.(posData := t.posData[p := 0]), p, t.posData[p], f);
  }

  // ---------------------------------------------------------------------
  // The call at a position, independent of the fuel and of the request

  /** The request apultra_skip_matches makes: no room for output and no block flags. */
  const Skip: Request := Request(0, 0, 0)

  /** The call at position p finishes on tables t within f steps per loop. */
  ghost predicate Finishes(t: Links, p: nat, f: nat)
  {
    p < |t.posData| && p < POS_LIMIT && FindAt(t, Skip, p, f).Some?
  }

  /** The call at position p finishes on tables t. */
  ghost predicate Defined(t: Links, p: nat)
  {
    exists f :: Finishes(t, p, f)
  }

  /** Some fuel enough for the call at p. */
  ghost function FuelFor(t: Links, p: nat): (f: nat)
    requires Defined(t, p)
    ensures Finishes(t, p, f)
  {
    var f :| Finishes(t, p, f); f
  }

  /** The tables after the call at p. */
  ghost function Next(t: Links, p: nat): (r: Links)
    requires Defined(t, p)
    ensures |r.intervals| == |t.intervals| && |r.posData| == |t.posData|
  {
    assert Finishes(t, p, FuelFor(t, p));
    FindAt(t, Skip, p, FuelFor(t, p)).value.0
  }

  /** The output of the call at p for request q: bounded as FindAtBounded states. */
  ghost function Emit(t: Links, q: Request, p: nat): (e: Emitted)
    requires Defined(t, p)
    ensures WithinBounds(e, q)
    ensures q.cap <= 0 ==> e.matches == []
  {
    assert Finishes(t, p, FuelFor(t, p));
    FindAtIndependent(t, Skip, q, p, FuelFor(t, p));
    FindAtBounded(t, q, p, FuelFor(t, p));
    FindAt(t, q, p, FuelFor(t, p)).value.1
  }

  /**
   * Whatever the fuel and the request of a call that finishes, its tables
   * are Next and its output is Emit.
   */
  lemma Canonical(t: Links, q: Request, p: nat, f: nat)
    requires p < |t.posData| && p < POS_LIMIT && FindAt(t, q, p, f).Some?
    ensures Defined(t, p)
    ensures FindAt(t, q, p, f).value == (Next(t, p), Emit(t, q, p))
  {
    FindAtIndependent(t, q, Skip, p, f);
    assert Finishes(t, p, f);
    var g := FuelFor(t, p);
    FindAtIndependent(t, Skip, q, p, g);
    FindAtDeterministic(t, q, p, f, g);
  }

  /** The tables after the call at p, or None when it does not finish. */
  ghost function Call(t: Links, p: nat): (r: Option<Links>)
    ensures r.Some? <==> Defined(t, p)
    ensures r.Some? ==> r.value == Next(t, p)
  {
    if Defined(t, p) then Some(Next(t, p)) else None
  }

  /**
   * The calls at start, start + 1, ..., end - 1, made in that order from
   * tables t, all finish; `step` is the effect of one call, Call.
   */
  ghost predicate Runs(step: (Links, nat) -> Option<Links>, t: Links, start: nat, end: nat)
    decreases end - start
  {
    start >= end || (step(t, start).Some? && Runs(step, step(t, start).value, start + 1, end))
  }

  /** The tables after the calls at start, ..., end - 1. */
  ghost function Through(step: (Links, nat) -> Option<Links>, t: Links, start: nat, end: nat): (r: Links)
    requires Runs(step, t, start, end)
    decreases end - start
  {
    if start >= end then t else Through(step, step(t, start).value, start + 1, end)
  }

  /** The step at position start + j turns tables ts[j] into ts[j + 1]. */
  ghost predicate StepAt(step: (Links, nat) -> Option<Links>, ts: seq<Links>, start: nat, j: nat)
    requires j + 1 < |ts|
  {
    step(ts[j], start + j) == Some(ts[j + 1])
  }

  /** Each entry of ts is the tables the step at its position leaves in the next one. */
  ghost predicate Steps(step: (Links, nat) -> Option<Links>, ts: seq<Links>, start: nat)
  {
    |ts| >= 1 && forall j :: 0 <= j < |ts| - 1 ==> StepAt(step, ts, start, j)
  }

  /**
   * ts is the trail of the calls at start, ..., end - 1 from tables t: the
   * tables before each call, and after the last.
   */
  ghost predicate IsTrail(step: (Links, nat) -> Option<Links>, ts: seq<Links>, t: Links, start: nat, end: nat)
  {
    Steps(step, ts, start) && |ts| == end - start + 1 && ts[0] == t
  }

  /** A trail without its first call is the trail of the calls after it. */
  lemma TrailTail(step: (Links, nat) -> Option<Links>, ts: seq<Links>, t: Links, start: nat, end: nat)
    requires IsTrail(step, ts, t, start, end) && start < end
    ensures step(t, start) == Some(ts[1]) && IsTrail(step, ts[1..], ts[1], start + 1, end)
  {
    assert StepAt(step, ts, start, 0);
    var rest, next := ts[1..], start + 1;
    forall j | 0 <= j < |rest| - 1
      ensures StepAt(step, rest, next, j)
    {
      assert StepAt(step, ts, start, j + 1);
    }
  }

  /**
   * There is a trail exactly when the calls all finish, and then it is
   * unique and ends in the tables Through gives.
   */
  lemma {:induction false} TrailThrough(step: (Links, nat) -> Option<Links>, ts: seq<Links>, t: Links, start: nat, end: nat)
    requires IsTrail(step, ts, t, start, end)
    ensures Runs(step, t, start, end) && ts[end - start] == Through(step, t, start, end)
    decreases end - start
  {
    if start < end {
      TrailTail(step, ts, t, start, end);
      TrailThrough(step, ts[1..], ts[1], start + 1, end);
    }
  }

  /** Two trails of the same calls from the same tables are the same. */
  lemma {:induction false} TrailUnique(step: (Links, nat) -> Option<Links>, ts: seq<Links>, us: seq<Links>,
                                       t: Links, start: nat, end: nat)
    requires IsTrail(step, ts, t, start, end) && IsTrail(step, us, t, start, end)
    ensures ts == us
    decreases end - start
  {
    if start < end {
      TrailTail(step, ts, t, start, end);
      TrailTail(step, us, t, start, end);
      TrailUnique(step, ts[1..], us[1..], ts[1], start + 1, end);
      assert ts == [ts[0]] + ts[1..] && us == [us[0]] + us[1..];
    }
  }

  /** When the calls all finish, their trail exists. */
  lemma {:induction false} TrailExists(step: (Links, nat) -> Option<Links>, t: Links, start: nat, end: nat)
    returns (ts: seq<Links>)
    requires start <= end && Runs(step, t, start, end)
    ensures IsTrail(step, ts, t, start, end)
    decreases end - start
  {
    if start == end {
      ts := [t];
    } else {
      var rest := TrailExists(step, step(t, start).value, start + 1, end);
      ts := [t] + rest;
      forall j | 0 <= j < |ts| - 1
        ensures StepAt(step, ts, start, j)
      {
        if j > 0 {
          assert StepAt(step, rest, start + 1, j - 1);
        }
      }
    }
  }

  /** The calls before position m of a trail form a trail of their own. */
  lemma TrailPrefix(step: (Links, nat) -> Option<Links>, ts: seq<Links>, t: Links, start: nat, end: nat, m: nat)
    requires IsTrail(step, ts, t, start, end) && start <= m <= end
    ensures IsTrail(step, ts[..m - start + 1], t, start, m)
  {
    var part := ts[..m - start + 1];
    forall j | 0 <= j < m - start
      ensures StepAt(step, part, start, j)
    {
      assert StepAt(step, ts, start, j);
    }
  }

  /** The calls from position m on of a trail form a trail of their own. */
  lemma TrailSuffix(step: (Links, nat) -> Option<Links>, ts: seq<Links>, t: Links, start: nat, end: nat, m: nat)
    requires IsTrail(step, ts, t, start, end) && start <= m <= end
    ensures IsTrail(step, ts[m - start..], ts[m - start], m, end)
  {
    var part, a := ts[m - start..], m - start;
    forall j | 0 <= j < end - m
      ensures StepAt(step, part, m, j)
    {
      assert StepAt(step, ts, start, a + j);
    }
  }

  /** A trail followed by one more call is the trail of the calls up to one position further. */
  lemma TrailAppend(step: (Links, nat) -> Option<Links>, ts: seq<Links>, t: Links, start: nat, end: nat, u: Links)
    requires IsTrail(step, ts, t, start, end) && step(ts[end - start], end) == Some(u)
    ensures IsTrail(step, ts + [u], t, start, end + 1) && (ts + [u])[end - start + 1] == u
  {
    var longer := ts + [u];
    forall j | 0 <= j < end + 1 - start
      ensures StepAt(step, longer, start, j)
    {
      if j < end - start {
        assert StepAt(step, ts, start, j);
      }
    }
  }

  /** The call at start + j takes ts[j] to ts[j + 1] and outputs outs[j]. */
  ghost predicate EmitAt(ts: seq<Links>, outs: seq<Emitted>, q: Request, start: nat, j: nat)
    requires j + 1 < |ts| && j < |outs|
  {
    StepAt(Call, ts, start, j) && outs[j] == Emit(ts[j], q, start + j)
  }

  /**
   * outs are the outputs of the calls along trail ts, stated call by call:
   * the form the loops of apultra_find_all_matches consume one turn at a time.
   */
  ghost predicate Produced(ts: seq<Links>, outs: seq<Emitted>, q: Request, start: nat)
  {
    |ts| == |outs| + 1 && forall j :: 0 <= j < |outs| ==> EmitAt(ts, outs, q, start, j)
  }

  /**
   * The outputs of the calls along trail ts, whose first call is at
   * position start: one per call, each made on the tables the calls before
   * it left.
   */
  ghost function Outputs(ts: seq<Links>, q: Request, start: nat): (r: seq<Emitted>)
    requires Steps(Call, ts, start)
    ensures |r| == |ts| - 1
  {
    seq(|ts| - 1, j requires 0 <= j < |ts| - 1 =>
      assert StepAt(Call, ts, start, j);
      Emit(ts[j], q, start + j))
  }

  /** The output of the j-th call along a trail is that call's Emit. */
  lemma OutputAt(ts: seq<Links>, q: Request, start: nat, j: nat)
    requires Steps(Call, ts, start) && j + 1 < |ts|
    ensures StepAt(Call, ts, start, j) && Outputs(ts, q, start)[j] == Emit(ts[j], q, start + j)
  {
    assert StepAt(Call, ts, start, j);
  }

  /** The outputs along a trail are produced call by call. */
  lemma OutputsProduced(ts: seq<Links>, q: Request, start: nat)
    requires Steps(Call, ts, start)
    ensures Produced(ts, Outputs(ts, q, start), q, start)
  {
    var outs := Outputs(ts, q, start);
    forall j | 0 <= j < |outs|
      ensures EmitAt(ts, outs, q, start, j)
    {
      OutputAt(ts, q, start, j);
    }
  }

  /** Whatever is produced call by call along a trail is its Outputs. */
  lemma ProducedOutputs(ts: seq<Links>, outs: seq<Emitted>, q: Request, start: nat)
    requires Produced(ts, outs, q, start)
    ensures Steps(Call, ts, start) && outs == Outputs(ts, q, start)
  {
    forall j | 0 <= j < |ts| - 1
      ensures StepAt(Call, ts, start, j)
    {
      assert EmitAt(ts, outs, q, start, j);
    }
    var r := Outputs(ts, q, start);
    forall j | 0 <= j < |outs|
      ensures outs[j] == r[j]
    {
      assert EmitAt(ts, outs, q, start, j);
    }
  }

  /** Each output produced along a trail fits the capacity of its request. */
  lemma ProducedWithin(ts: seq<Links>, outs: seq<Emitted>, q: Request, start: nat)
    requires Produced(ts, outs, q, start)
    ensures forall j :: 0 <= j < |outs| ==> WithinBounds(outs[j], q)
  {
    forall j | 0 <= j < |outs|
      ensures WithinBounds(outs[j], q)
    {
      assert EmitAt(ts, outs, q, start, j);
    }
  }

  /**
   * Calls over [a, c) are the calls over [a, b) followed by those over
   * [b, c): apultra_skip_matches followed by apultra_find_all_matches leaves
   * the tables as one pass over every position would.
   */
  lemma {:induction false} ThroughSplit(step: (Links, nat) -> Option<Links>, t: Links, a: nat, b: nat, c: nat)
    requires a <= b <= c && Runs(step, t, a, c)
    ensures Runs(step, t, a, b) && Runs(step, Through(step, t, a, b), b, c)
    ensures Through(step, t, a, c) == Through(step, Through(step, t, a, b), b, c)
    decreases b - a
  {
    if a < b {
      ThroughSplit(step, step(t, a).value, a + 1, b, c);
    }
  }
}
