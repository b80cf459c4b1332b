/**
 * What one call of apultra_find_matches_at does, as functions on values.
 *
 * The call works on two tables of packed references: `intervals` (one entry
 * per LCP-interval id: its parent link, or the last position that visited
 * it) and `pos_data` (one entry per window position).  It rewrites both
 * tables, and it appends (length, offset) candidates, each with a depth
 * word, to a capacity-bounded output.  The functions below follow the
 * source's loops one step per recursive call; each carries a `fuel`
 * argument that bounds the number of steps, and returns None when the fuel
 * runs out or when a table index falls outside the table.
 */
module Enumeration {
  import opened Layout

  datatype Option<T> = None | Some(value: T)

  /** apultra_match: one candidate. */
  datatype Match = Match(length: int, offset: int)

  /** The two tables the enumeration walks and rewrites. */
  datatype Links = Links(intervals: seq<u64>, posData: seq<u64>)

  /**
   * The five places where the source offers a candidate: directly from the
   * ascent (lines 238-263 and 336-356) or indirectly through pos_data
   * (lines 266-294, 297-328 and 364-389).
   */
  datatype Site = FirstDirect | FirstIndirect | Chase | Direct | Superinterval
  {
    predicate Indirect() { this == FirstIndirect || this == Chase || this == Superinterval }
  }

  /** Marker the source sets in the depth word of a candidate found indirectly. */
  const INDIRECT_FLAG: nat := 0x8000

  /**
   * The output of one call so far: the entries and depth words written,
   * the coalescing state (cur_depth as an index into `depths`, -1 for NULL;
   * nCurDepth, nPrevOffset, nPrevLen) and the short-offset byte *pMatch1.
   */
  datatype Emitted = Emitted(
    matches: seq<Match>, depths: seq<int>,
    cur: int, curDepth: int, prevOffset: int, prevLen: int,
    match1: int)
  {
    ghost predicate Consistent()
    {
      |depths| == |matches| && -1 <= cur < |matches| && 0 <= curDepth <= LCP_MAX
    }
  }

  const Nothing: Emitted := Emitted([], [], -1, 0, 0, 0, 0)

  function Abs(x: int): nat { if x < 0 then -x else x }

  /** The filter the source applies at each site once the output has room. */
  predicate Accepts(site: Site, count: int, prevOffset: int, cap: int, maxOffset: int, off: int, len: int)
  {
    && off <= maxOffset
    && match site
       case FirstDirect => true
       case FirstIndirect => Abs(off - prevOffset) >= 128
       case Chase =>
         && (len >= 3 || (len >= 2 && count < cap - 1))
         && len < 1280 && Abs(off - prevOffset) >= 128
       case Direct => off != prevOffset
       case Superinterval => len >= 2 && Abs(off - prevOffset) >= 128
  }

  /** The candidate continues the run of the last entry: one closer, one shorter. */
  predicate Continues(prevOffset: int, prevLen: int, cur: int, curDepth: int, off: int, len: int)
  {
    prevOffset != 0 && prevLen > 2 && off == prevOffset - 1 && len == prevLen - 1
    && cur >= 0 && curDepth < LCP_MAX
  }

  /** The block the source repeats at each site: coalesce into the last entry or append a new one. */
  function Offer(e: Emitted, cap: int, maxOffset: int, site: Site, off: int, len: int): (r: Emitted)
    requires e.Consistent()
    ensures r.Consistent() && r.match1 == e.match1
  {
    var flag := if site.Indirect() then INDIRECT_FLAG else 0;
    if |e.matches| < cap && Accepts(site, |e.matches|, e.prevOffset, cap, maxOffset, off, len) then
      if Continues(e.prevOffset, e.prevLen, e.cur, e.curDepth, off, len) then
        e.(curDepth := e.curDepth + 1, depths := e.depths[e.cur := e.curDepth + 1 + flag],
           prevLen := len, prevOffset := off)
      else
        e.(curDepth := 0, cur := |e.matches|, matches := e.matches + [Match(len, off)],
           depths := e.depths + [flag], prevLen := len, prevOffset := off)
    else e
  }

  /** (nBlockFlags & 3) == 3: candidates from the indirect walk are gated on both block bits. */
  predicate Gate(flags: nat) { flags % 4 == 3 }

  /** The parameters of one call that only shape the output. */
  datatype Request = Request(cap: int, maxOffset: int, flags: nat)

  /**
   * Lines 214-217: ascend from `ref` while the entry of its interval still
   * has LCP bits (an unvisited parent link), relinking each interval passed
   * to `p | VISITED_FLAG`.  Yields the tables, the interval reached and its
   * entry.
   */
  function Climb(t: Links, p: nat, ref: u64, fuel: nat): (r: Option<(Links, u64, u64)>)
    requires p < POS_LIMIT
    ensures r.Some? ==> |r.value.0.intervals| == |t.intervals| && |r.value.0.posData| == |t.posData|
    ensures r.Some? ==> PosOf(r.value.1) < |t.intervals| && r.value.0.intervals[PosOf(r.value.1)] == r.value.2
    ensures r.Some? ==> LcpOf(r.value.2) == 0
    decreases fuel
  {
    var i := PosOf(ref);
    if i >= |t.intervals| then None
    else
      var super := t.intervals[i];
      if LcpOf(super) == 0 then Some((t, ref, super))
      else if fuel == 0 then None
      else Climb(t.(intervals := t.intervals[i := Visit(p)]), p, super, fuel - 1)
  }

  /** A candidate at `site` for a match at position mp, gated as the source gates it. */
  function Candidate(e: Emitted, q: Request, p: nat, site: Site, mp: nat, ref: u64, strict: bool): (r: Emitted)
    requires e.Consistent()
    ensures r.Consistent() && r.match1 == e.match1
  {
    if (if strict then p > mp else p >= mp) && Gate(q.flags) then
      Offer(e, q.cap, q.maxOffset, site, p - mp, MatchLenOf(ref))
    else e
  }

  /**
   * Lines 297-328: follow pos_data links from `mp` while they name an
   * interval above `ref` in the packed order, moving to the position that
   * last visited that interval.  Yields the position reached, its pos_data
   * entry and the output.
   */
  function ChaseLinks(t: Links, q: Request, p: nat, ref: u64, mp: nat, e: Emitted, fuel: nat)
    : (r: Option<(nat, u64, Emitted)>)
    requires e.Consistent()
    ensures r.Some? ==> r.value.0 < |t.posData| && t.posData[r.value.0] == r.value.1 && r.value.1 <= ref
    ensures r.Some? ==> r.value.2.Consistent() && r.value.2.match1 == e.match1
    decreases fuel
  {
    if mp >= |t.posData| then None
    else
      var super := t.posData[mp];
      if super <= ref then Some((mp, super, e))
      else if PosOf(super) >= |t.intervals| || fuel == 0 then None
      else
        var mp' := ClearVisited(t.intervals[PosOf(super)]);
        ChaseLinks(t, q, p, ref, mp', Candidate(e, q, p, Chase, mp', ref, true), fuel - 1)
  }

  /**
   * One turn of the `for (;;)` loop of lines 265-390, from interval `ref`
   * and position `mp`, and every turn after it.
   */
  function Ascend(t: Links, q: Request, p: nat, ref: u64, mp: nat, e: Emitted, fuel: nat)
    : (r: Option<(Links, Emitted)>)
    requires p < POS_LIMIT && e.Consistent()
    ensures r.Some? ==> |r.value.0.intervals| == |t.intervals| && |r.value.0.posData| == |t.posData|
    ensures r.Some? ==> r.value.1.Consistent()
    decreases fuel, 1
  {
    if mp >= |t.posData| then None
    else
      // lines 266-295: one step along pos_data, tested with >=
      var super := t.posData[mp];
      if super > ref && PosOf(super) >= |t.intervals| then None
      else
        var mp1 := if super > ref then ClearVisited(t.intervals[PosOf(super)]) else mp;
        var e1 := if super > ref then Candidate(e, q, p, FirstIndirect, mp1, ref, false) else e;
        match ChaseLinks(t, q, p, ref, mp1, e1, fuel)
        case None => None
        case Some((mp2, super2, e2)) => Relink(t, q, p, ref, mp2, super2, e2, fuel)
  }

  /**
   * Lines 330-358: `p - mp` is offered directly for interval `ref`, and if it
   * is short it becomes the match1 byte.
   */
  function DirectOutput(e: Emitted, q: Request, p: nat, mp: nat, ref: u64): (r: Emitted)
    requires e.Consistent()
    ensures r.Consistent()
  {
    var off, len := p - mp, MatchLenOf(ref);
    var e' := Offer(e, q.cap, q.maxOffset, Direct, off, len);
    if off != 0 && off < 16 && len != 0 then e'.(match1 := off % 256) else e'
  }

  /**
   * Lines 330-389, after the chase stopped at position `mp` whose pos_data
   * entry is `super`: link interval `ref` and position `mp` to each other,
   * then stop at the root or continue with the superinterval.
   */
  function Relink(t: Links, q: Request, p: nat, ref: u64, mp: nat, super: u64, e: Emitted, fuel: nat)
    : (r: Option<(Links, Emitted)>)
    requires p < POS_LIMIT && e.Consistent()
    ensures r.Some? ==> |r.value.0.intervals| == |t.intervals| && |r.value.0.posData| == |t.posData|
    ensures r.Some? ==> r.value.1.Consistent()
    decreases fuel, 0
  {
    if PosOf(ref) >= |t.intervals| || mp >= |t.posData| then None
    else
      var t' := Links(t.intervals[PosOf(ref) := Visit(p)], t.posData[mp := ref]);
      var e' := DirectOutput(e, q, p, mp, ref);
      if super == 0 then Some((t', e'))
      else if PosOf(super) >= |t'.intervals| || fuel == 0 then None
      else
        // lines 361-389: continue with the superinterval
        var mp' := ClearVisited(t'.intervals[PosOf(super)]);
        Ascend(t', q, p, super, mp', Candidate(e', q, p, Superinterval, mp', super, true), fuel - 1)
  }

  /** apultra_find_matches_at(nOffset = p) with at most `fuel` steps per loop. */
  function FindAt(t: Links, q: Request, p: nat, fuel: nat): (r: Option<(Links, Emitted)>)
    requires p < |t.posData| && p < POS_LIMIT
    ensures r.Some? ==> |r.value.0.intervals| == |t.intervals| && |r.value.0.posData| == |t.posData|
    ensures r.Some? ==> r.value.1.Consistent()
  {
    var ref := t.posData[p];
    match Climb(t.(posData := t.posData[p := 0]), p, ref, fuel)
    case None => None
    case Some((t1, ref1, super)) =>
      if super == 0 then
        // lines 219-227: the root or an unvisited child of the root; no match
        Some((if ref1 != 0 then t1.(intervals := t1.intervals[PosOf(ref1) := Visit(p)]) else t1, Nothing))
      else
        var mp := ClearVisited(super);
        Ascend(t1, q, p, ref1, mp, Candidate(Nothing, q, p, FirstDirect, mp, ref1, false), fuel)
  }
}
