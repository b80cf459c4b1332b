/**
 * The apultra_matchfinder context and its operations: allocation and
 * release of its buffers, the build of the LCP-interval tree for a window,
 * the per-position match enumeration, and the drivers that enumerate a
 * whole block.  The per-position enumeration is proved to compute exactly
 * what FindAt (module Enumeration) describes.
 */
module MatchFinding {
  import opened Layout
  import opened Suffixes
  import opened Enumeration
  import opened EnumerationFacts
  import opened Construction
  import opened IntervalTree
  import opened Termination

  /**
   * The locals of apultra_find_matches_at that shape its output: the number
   * of entries written, the entry a run is being coalesced into (-1 while
   * cur_depth is NULL), nCurDepth, nPrevOffset and nPrevLen.
   */
  datatype Cursor = Cursor(count: int, cur: int, curDepth: int, prevOffset: int, prevLen: int)

  /** The output arrays from `base` on hold the entries of e and their depth words. */
  ghost predicate Written(pm: array<Match>, pd: array<int>, base: nat, e: Emitted)
    reads pm, pd
  {
    && |e.depths| == |e.matches|
    && base + |e.matches| <= pm.Length && base + |e.matches| <= pd.Length
    && (forall k :: 0 <= k < |e.matches| ==> pm[base + k] == e.matches[k] && pd[base + k] == e.depths[k])
  }

  /** The output arrays hold e, and the cursor is e's. */
  ghost predicate Mirrors(pm: array<Match>, pd: array<int>, base: nat, c: Cursor, e: Emitted)
    reads pm, pd
  {
    && e.Consistent()
    && c == Cursor(|e.matches|, e.cur, e.curDepth, e.prevOffset, e.prevLen)
    && Written(pm, pd, base, e)
  }

  /** The number of entries a capacity admits. */
  function Room(cap: int): nat
  {
    if cap < 0 then 0 else cap
  }

  /**
   * The block repeated at each of the five sites of apultra_find_matches_at:
   * when there is room and the site's filter passes, either extend the run
   * of the current entry (its depth word grows by one) or append the
   * candidate as a new entry.
   */
  method Record(pm: array<Match>, pd: array<int>, base: nat, c: Cursor, q: Request, site: Site, off: int, len: int,
                ghost e: Emitted)
    returns (c': Cursor, ghost e': Emitted)
    requires Mirrors(pm, pd, base, c, e) && base + Room(q.cap) <= pm.Length && base + Room(q.cap) <= pd.Length
    modifies pm, pd
    ensures e' == Offer(e, q.cap, q.maxOffset, site, off, len) && Mirrors(pm, pd, base, c', e')
    ensures c'.count >= c.count
    ensures forall i :: 0 <= i < pm.Length && !(base <= i < base + c'.count) ==> pm[i] == old(pm[i])
    ensures forall i :: 0 <= i < pd.Length && !(base <= i < base + c'.count) ==> pd[i] == old(pd[i])
  {
    e' := Offer(e, q.cap, q.maxOffset, site, off, len);
    c' := c;
    if c.count < q.cap && Accepts(site, c.count, c.prevOffset, q.cap, q.maxOffset, off, len) {
      var flag := if site.Indirect() then INDIRECT_FLAG else 0;
      if Continues(c.prevOffset, c.prevLen, c.cur, c.curDepth, off, len) {
        pd[base + c.cur] := c.curDepth + 1 + flag;
        c' := c'.(curDepth := c.curDepth + 1);
      } else {
        pm[base + c.count] := Match(len, off);
        pd[base + c.count] := flag;
        c' := c'.(count := c.count + 1, cur := c.count, curDepth := 0);
      }
      c' := c'.(prevLen := len, prevOffset := off);
    }
  }

  /** s followed by copies of z up to k elements: one slot of apultra_find_all_matches. */
  function Padded<T>(s: seq<T>, k: nat, z: T): (r: seq<T>)
    requires |s| <= k
    ensures |r| == k
  {
    s + seq(k - |s|, _ => z)
  }

  /** Every output of outs fits a slot of k entries. */
  ghost predicate Fits(outs: seq<Emitted>, k: nat)
  {
    forall j :: 0 <= j < |outs| ==> |outs[j].depths| == |outs[j].matches| <= k
  }

  /** The match array apultra_find_all_matches fills for outputs outs: k entries per position, zero-padded. */
  ghost function MatchSlots(outs: seq<Emitted>, k: nat): (r: seq<Match>)
    requires Fits(outs, k)
    ensures |r| == Span(|outs|, k)
  {
    if outs == [] then [] else MatchSlots(outs[..|outs| - 1], k) + Padded(outs[|outs| - 1].matches, k, Match(0, 0))
  }

  /** The match_depth array apultra_find_all_matches fills for outputs outs. */
  ghost function DepthSlots(outs: seq<Emitted>, k: nat): (r: seq<int>)
    requires Fits(outs, k)
    ensures |r| == Span(|outs|, k)
  {
    if outs == [] then [] else DepthSlots(outs[..|outs| - 1], k) + Padded(outs[|outs| - 1].depths, k, 0)
  }

  /** The match1 array apultra_find_all_matches fills: one byte per position. */
  ghost function Match1s(outs: seq<Emitted>): (r: seq<int>)
    ensures |r| == |outs| && forall j :: 0 <= j < |outs| ==> r[j] == outs[j].match1
  {
    seq(|outs|, j requires 0 <= j < |outs| => outs[j].match1)
  }

  /** A prefix of outputs that fit their slots fits them too. */
  lemma FitsPrefix(outs: seq<Emitted>, k: nat, m: nat)
    requires Fits(outs, k) && m <= |outs|
    ensures Fits(outs[..m], k)
  {
  }

  /** An array tail left alone from x on is left alone from any later y on. */
  lemma TailFrame<T>(a: seq<T>, b: seq<T>, x: nat, y: nat)
    requires x <= y <= |a| == |b| && a[x..] == b[x..]
    ensures a[y..] == b[y..]
  {
    assert a[y..] == a[x..][y - x..];
    assert b[y..] == b[x..][y - x..];
  }

  /** Outputs one more position: each array grows by that position's slot. */
  lemma SlotsAppend(outs: seq<Emitted>, k: nat, j: nat)
    requires Fits(outs, k) && j < |outs|
    ensures MatchSlots(outs[..j + 1], k) == MatchSlots(outs[..j], k) + Padded(outs[j].matches, k, Match(0, 0))
    ensures DepthSlots(outs[..j + 1], k) == DepthSlots(outs[..j], k) + Padded(outs[j].depths, k, 0)
    ensures Match1s(outs[..j + 1]) == Match1s(outs[..j]) + [outs[j].match1]
  {
    assert outs[..j + 1][..j] == outs[..j];
  }

  /**
   * The shape apultra_build_suffix_array leaves the two tables in for window
   * w with suffix array sa, for the tree whose intervals have the depths
   * `depth` and span the ranks `ext`: the intervals are the LCP intervals of
   * the suffix order, numbered by their leftmost boundary of their own depth;
   * every non-root entry links to its parent, the interval just enclosing it;
   * each position links to the deepest interval holding its rank; and the
   * entries of `intervals` past the last id keep their rank entries.
   */
  ghost predicate BuiltOn(t: Links, w: seq<byte>, sa: seq<int>, depth: seq<nat>, ext: seq<Extent>)
    requires IsPermutation(sa, |w|) && |w| < 0x8000_0000
  {
    && Depths(depth) && |depth| <= |w| <= |t.posData| && |w| <= |t.intervals|
    && ClosedLinks(t.intervals, [0], depth)
    && LeafLinks(t.posData, RankEntries(w, sa), depth, |w|)
    && LcpTree(t.intervals, t.posData, RankEntries(w, sa), depth, ext)
    && (forall i :: |depth| <= i < |w| ==> t.intervals[i] == RankEntries(w, sa)[i])
  }

  /** The built shape fixes the entries of both tables over the window: it is a function of the window. */
  lemma BuiltUnique(w: seq<byte>, sa: seq<int>, t1: Links, t2: Links)
    requires IsPermutation(sa, |w|) && |w| < 0x8000_0000
    requires Built(t1, w, sa) && Built(t2, w, sa)
    ensures t1.intervals[..|w|] == t2.intervals[..|w|] && t1.posData[..|w|] == t2.posData[..|w|]
  {
    var ranks := RankEntries(w, sa);
    var depth1, ext1 :| BuiltOn(t1, w, sa, depth1, ext1);
    var depth2, ext2 :| BuiltOn(t2, w, sa, depth2, ext2);
    TablesAgree(t1.intervals, t1.posData, t2.intervals, t2.posData, ranks, depth1, ext1, depth2, ext2);
    forall i | 0 <= i < |w|
      ensures t1.posData[i] == t2.posData[i]
    {
      var k := Rank(sa, i);
      assert PosOf(ranks[k]) == i;
    }
    forall i | 0 <= i < |w|
      ensures t1.intervals[i] == t2.intervals[i]
    {
      if i >= |depth1| {
        assert t1.intervals[i] == ranks[i] == t2.intervals[i];
      }
    }
  }

  /** The built shape. */
  ghost predicate Built(t: Links, w: seq<byte>, sa: seq<int>)
    requires IsPermutation(sa, |w|) && |w| < 0x8000_0000
  {
    exists depth: seq<nat>, ext: seq<Extent> :: BuiltOn(t, w, sa, depth, ext)
  }

  /** Along every run of calls from tables t over a window of n positions, the ascent of each call finishes. */
  ghost predicate AscentsFrom(t: Links, n: nat)
  {
    forall ts: seq<Links>, m: nat {:trigger IsTrail(Call, ts, t, 0, m)} ::
      IsTrail(Call, ts, t, 0, m) && m < n ==> AscentFinishes(ts[m], m)
  }

  /**
   * What the model assumes of a window: along every run of calls from
   * tables of the built shape, the ascent of each call finishes.  The climb
   * before it finishes by ClimbKeeps, so this is all that is assumed.
   */
  ghost predicate Ascents(w: seq<byte>, sa: seq<int>)
    requires IsPermutation(sa, |w|) && |w| < 0x8000_0000
  {
    forall t: Links :: Built(t, w, sa) ==> AscentsFrom(t, |w|)
  }

  /** Tables of the built shape satisfy the invariant the calls keep. */
  lemma BuiltHierarchy(t: Links, w: seq<byte>, sa: seq<int>, depth: seq<nat>, ext: seq<Extent>)
    requires IsPermutation(sa, |w|) && |w| < 0x8000_0000 && |t.posData| < POS_LIMIT
    requires BuiltOn(t, w, sa, depth, ext)
    ensures Hierarchy(t, depth, |w|)
  {
    var ranks := RankEntries(w, sa);
    forall i | 0 <= i < |w|
      ensures PosOf(t.posData[i]) < |depth|
    {
      var k := Rank(sa, i);
      assert PosOf(ranks[k]) == i;
      assert LinksTo(t.posData[PosOf(ranks[k])], depth);
    }
    forall x | 0 <= x < |depth|
      ensures Marked(t.intervals[x], depth, x, |w|)
    {
      if x >= 1 {
        assert x !in [0];
        assert ParentLink(t.intervals[x], depth, x);
      }
    }
  }

  /** Along a trail from built tables that keeps the invariant, the calls from m on all finish. */
  lemma {:induction false} RunsAlong(n: nat, t: Links, ts: seq<Links>, m: nat, depth: seq<nat>)
    requires AscentsFrom(t, n)
    requires IsTrail(Call, ts, t, 0, m) && m <= n && Hierarchy(ts[m], depth, n)
    ensures Runs(Call, ts[m], m, n)
    decreases n - m
  {
    if m < n {
      assert AscentFinishes(ts[m], m);
      CallDefined(ts[m], depth, n, m);
      var u := Next(ts[m], m);
      NextKeeps(ts[m], depth, n, m);
      TrailAppend(Call, ts, t, 0, m, u);
      RunsAlong(n, t, ts + [u], m + 1, depth);
    }
  }

  /** Given Ascents, the calls over the whole window from tables of the built shape all finish. */
  lemma BuiltRuns(w: seq<byte>, sa: seq<int>, t: Links)
    requires IsPermutation(sa, |w|) && |w| < 0x8000_0000 && |t.posData| < POS_LIMIT
    requires Ascents(w, sa) && Built(t, w, sa)
    ensures Runs(Call, t, 0, |w|)
  {
    var depth, ext :| BuiltOn(t, w, sa, depth, ext);
    BuiltHierarchy(t, w, sa, depth, ext);
    assert AscentsFrom(t, |w|);
    RunsAlong(|w|, t, [t], 0, depth);
  }

  /** Zero the entries lo..hi-1 of both output arrays, as the padding loop of lines 438-443 does. */
  method ZeroFill(pm: array<Match>, pd: array<int>, lo: nat, hi: nat)
    requires lo <= hi <= pm.Length && hi <= pd.Length
    modifies pm, pd
    ensures forall i :: 0 <= i < pm.Length && !(lo <= i < hi) ==> pm[i] == old(pm[i])
    ensures forall i :: 0 <= i < pd.Length && !(lo <= i < hi) ==> pd[i] == old(pd[i])
    ensures forall i :: lo <= i < hi ==> pm[i] == Match(0, 0) && pd[i] == 0
  {
    var i := lo;
    while i < hi
      invariant lo <= i <= hi
      invariant forall x :: 0 <= x < pm.Length && !(lo <= x < i) ==> pm[x] == old(pm[x])
      invariant forall x :: 0 <= x < pd.Length && !(lo <= x < i) ==> pd[x] == old(pd[x])
      invariant forall x :: lo <= x < i ==> pm[x] == Match(0, 0) && pd[x] == 0
    {
      pm[i] := Match(0, 0);
      pd[i] := 0;
      i := i + 1;
    }
  }

  /** An array whose prefix is kept, then s, then copies of z up to k entries, holds old prefix + Padded(s). */
  lemma SlotLayout<T>(a: seq<T>, a0: seq<T>, at: nat, s: seq<T>, k: nat, z: T)
    requires |s| <= k && at + k <= |a| == |a0|
    requires forall x :: 0 <= x < |a| && !(at <= x < at + k) ==> a[x] == a0[x]
    requires forall x :: 0 <= x < |s| ==> a[at + x] == s[x]
    requires forall x :: at + |s| <= x < at + k ==> a[x] == z
    ensures a[..at + k] == a0[..at] + Padded(s, k, z)
    ensures a[at + k..] == a0[at + k..]
  {
    var r := a0[..at] + Padded(s, k, z);
    forall x | 0 <= x < at + k
      ensures a[x] == r[x]
    {
      if at <= x < at + |s| {
        assert a[at + (x - at)] == s[x - at];
      }
    }
  }

  /** The number of entries in n slots of k: n * k (SpanProduct), accumulated slot by slot. */
  function Span(n: nat, k: nat): nat
  {
    if n == 0 then 0 else Span(n - 1, k) + k
  }

  lemma {:induction false} SpanProduct(n: nat, k: nat)
    ensures Span(n, k) == n * k
  {
    if n > 0 {
      SpanProduct(n - 1, k);
      assert n * k == (n - 1) * k + k;
    }
  }

  lemma {:induction false} SpanMonotonic(a: nat, b: nat, k: nat)
    requires a <= b
    ensures Span(a, k) <= Span(b, k)
    decreases b - a
  {
    if a < b {
      SpanMonotonic(a, b - 1, k);
    }
  }

  /** A candidate offered at `site` for position mp, gated on the order of p and mp and on the block flags. */
  method Consider(pm: array<Match>, pd: array<int>, base: nat, c: Cursor, q: Request, p: nat, site: Site,
                  mp: nat, ref: u64, strict: bool, ghost e: Emitted)
    returns (c': Cursor, ghost e': Emitted)
    requires Mirrors(pm, pd, base, c, e) && base + Room(q.cap) <= pm.Length && base + Room(q.cap) <= pd.Length
    modifies pm, pd
    ensures e' == Candidate(e, q, p, site, mp, ref, strict) && Mirrors(pm, pd, base, c', e')
    ensures c'.count >= c.count
    ensures forall i :: 0 <= i < pm.Length && !(base <= i < base + c'.count) ==> pm[i] == old(pm[i])
    ensures forall i :: 0 <= i < pd.Length && !(base <= i < base + c'.count) ==> pd[i] == old(pd[i])
  {
    if (if strict then p > mp else p >= mp) && Gate(q.flags) {
      c', e' := Record(pm, pd, base, c, q, site, p - mp, MatchLenOf(ref), e);
    } else {
      c', e' := c, e;
    }
  }

  class MatchFinder {
    var intervals: array?<u64>
    var posData: array?<u64>
    var openIntervals: array?<u64>
    var matches: array?<Match>
    var matchDepth: array?<int>
    var match1: array?<int>
    var maxOffset: int

    /** All six buffers are allocated, as apultra_matchfinder_init leaves them when it returns 0. */
    ghost predicate Ready()
      reads this
    {
      && intervals != null && posData != null && openIntervals != null
      && matches != null && matchDepth != null && match1 != null
      && intervals != posData && intervals != openIntervals && posData != openIntervals
      && matchDepth != match1
      && intervals.Length == posData.Length < 0x8000_0000
      && openIntervals.Length == LCP_LIMIT
    }

    /** No buffer is held, as apultra_matchfinder_destroy leaves the context. */
    ghost predicate Released()
      reads this
    {
      intervals == null && posData == null && openIntervals == null
      && matches == null && matchDepth == null && match1 == null
    }

    /** The two tables the enumeration walks. */
    ghost function Tables(): (t: Links)
      reads this, intervals, posData
      requires intervals != null && posData != null
      ensures |t.intervals| == intervals.Length && |t.posData| == posData.Length
    {
      Links(intervals[..], posData[..])
    }

    /**
     * Lines 214-217: climb from `ref` while the entry reached is an unvisited
     * parent link, relinking each interval passed to p | VISITED_FLAG; yields
     * the interval reached and its entry, as Climb does.
     */
    method MarkPath(p: nat, ref: u64, ghost fuel: nat) returns (top: u64, super: u64)
      requires Ready() && p < POS_LIMIT && Climb(Tables(), p, ref, fuel).Some?
      modifies intervals
      ensures Climb(old(Tables()), p, ref, fuel) == Some((Tables(), top, super))
    {
      ghost var f := fuel;
      top := ref;
      super := intervals[PosOf(top)];
      while LcpOf(super) != 0
        invariant PosOf(top) < intervals.Length && super == intervals[PosOf(top)]
        invariant Climb(Tables(), p, top, f) == Climb(old(Tables()), p, ref, fuel)
        decreases f
      {
        intervals[PosOf(top)] := Visit(p);
        top := super;
        f := f - 1;
        super := intervals[PosOf(top)];
      }
    }

    /**
     * Lines 297-328: while pos_data at mp links to an interval above `ref`,
     * move to the position that last visited it and offer that candidate;
     * yields the position reached and its pos_data entry, as ChaseLinks does.
     */
    method FollowLinks(pm: array<Match>, pd: array<int>, base: nat, c: Cursor, q: Request, p: nat, ref: u64,
                       mp: nat, ghost e: Emitted, ghost fuel: nat)
      returns (mp': nat, super: u64, c': Cursor, ghost e': Emitted)
      requires Ready() && Mirrors(pm, pd, base, c, e)
      requires base + Room(q.cap) <= pm.Length && base + Room(q.cap) <= pd.Length
      requires ChaseLinks(Tables(), q, p, ref, mp, e, fuel).Some?
      modifies pm, pd
      ensures ChaseLinks(Tables(), q, p, ref, mp, e, fuel) == Some((mp', super, e')) && Mirrors(pm, pd, base, c', e')
      ensures c'.count >= c.count
      ensures forall i :: 0 <= i < pm.Length && !(base <= i < base + c'.count) ==> pm[i] == old(pm[i])
      ensures forall i :: 0 <= i < pd.Length && !(base <= i < base + c'.count) ==> pd[i] == old(pd[i])
    {
      ghost var t := Tables();
      ghost var f := fuel;
      mp', c', e' := mp, c, e;
      super := posData[mp'];
      while super > ref
        invariant Tables() == t && mp' < posData.Length && super == posData[mp']
        invariant Mirrors(pm, pd, base, c', e') && c'.count >= c.count
        invariant ChaseLinks(t, q, p, ref, mp', e', f) == ChaseLinks(t, q, p, ref, mp, e, fuel)
        invariant forall i :: 0 <= i < pm.Length && !(base <= i < base + c'.count) ==> pm[i] == old(pm[i])
        invariant forall i :: 0 <= i < pd.Length && !(base <= i < base + c'.count) ==> pd[i] == old(pd[i])
        decreases f
      {
        mp' := ClearVisited(intervals[PosOf(super)]);
        c', e' := Consider(pm, pd, base, c', q, p, Chase, mp', ref, true, e');
        f := f - 1;
        super := posData[mp'];
      }
    }

    /**
     * apultra_find_matches_at(nOffset = p): rewrites the two tables to
     * Next and writes the output Emit for request (cap, max_offset, flags):
     * its entries from pm[base] and pd[base] on, their count as the result,
     * the match1 byte at m1[m1i], and nothing else of the three outputs.
     */
    method FindMatchesAt(p: nat, pm: array<Match>, pd: array<int>, base: nat, m1: array<int>, m1i: nat,
                         cap: int, flags: nat)
      returns (count: int)
      requires Ready() && Defined(Tables(), p)
      requires base + Room(cap) <= pm.Length && base + Room(cap) <= pd.Length && m1i < m1.Length && pd != m1
      modifies intervals, posData, pm, pd, m1
      ensures var t, q := old(Tables()), Request(cap, maxOffset, flags);
        && Tables() == Next(t, p)
        && count == |Emit(t, q, p).matches| && Written(pm, pd, base, Emit(t, q, p))
        && m1[m1i] == Emit(t, q, p).match1
      ensures forall i :: 0 <= i < pm.Length && !(base <= i < base + count) ==> pm[i] == old(pm[i])
      ensures forall i :: 0 <= i < pd.Length && !(base <= i < base + count) ==> pd[i] == old(pd[i])
      ensures forall i :: 0 <= i < m1.Length && i != m1i ==> m1[i] == old(m1[i])
    {
      ghost var t := Tables();
      var q := Request(cap, maxOffset, flags);
      ghost var f := FuelFor(t, p);
      FindAtIndependent(t, Skip, q, p, f);
      Canonical(t, q, p, f);
      ghost var t', e;
      count, t', e := Enumerate(p, pm, pd, base, m1, m1i, q, f, t);
    }

    /** The body of apultra_find_matches_at, for a fuel within which the call finishes: FindAt. */
    method Enumerate(p: nat, pm: array<Match>, pd: array<int>, base: nat, m1: array<int>, m1i: nat, q: Request,
                     ghost fuel: nat, ghost t: Links)
      returns (count: int, ghost t': Links, ghost e: Emitted)
      requires Ready() && Tables() == t && p < |t.posData| && p < POS_LIMIT && FindAt(t, q, p, fuel).Some?
      requires base + Room(q.cap) <= pm.Length && base + Room(q.cap) <= pd.Length && m1i < m1.Length && pd != m1
      modifies intervals, posData, pm, pd, m1
      ensures FindAt(t, q, p, fuel) == Some((t', e)) && t' == Tables()
      ensures count == |e.matches| && Written(pm, pd, base, e) && m1[m1i] == e.match1
      ensures forall i :: 0 <= i < pm.Length && !(base <= i < base + count) ==> pm[i] == old(pm[i])
      ensures forall i :: 0 <= i < pd.Length && !(base <= i < base + count) ==> pd[i] == old(pd[i])
      ensures forall i :: 0 <= i < m1.Length && i != m1i ==> m1[i] == old(m1[i])
    {
      m1[m1i] := 0;
      var ref := posData[p];
      posData[p] := 0;
      assert Tables() == t.(posData := t.posData[p := 0]);
      var top, super := MarkPath(p, ref, fuel);
      if super == 0 {
        // lines 219-227: the root or an unvisited child of the root
        if top != 0 {
          intervals[PosOf(top)] := Visit(p);
        }
        return 0, Tables(), Nothing;
      }

      var mp := ClearVisited(super);
      var c;
      ghost var e0;
      c, e0 := Consider(pm, pd, base, Cursor(0, -1, 0, 0, 0), q, p, FirstDirect, mp, top, false, Nothing);
      count, e := Ascent(pm, pd, base, m1, m1i, c, q, p, top, mp, e0, fuel);
      t' := Tables();
    }

    /**
     * The `for (;;)` loop of lines 265-390 from interval `ref` and position
     * mp: rewrites the tables and completes the output as Ascend does.
     */
    method Ascent(pm: array<Match>, pd: array<int>, base: nat, m1: array<int>, m1i: nat, c: Cursor, q: Request,
                  p: nat, ref: u64, mp: nat, ghost e: Emitted, ghost fuel: nat)
      returns (count: int, ghost e': Emitted)
      requires Ready() && Mirrors(pm, pd, base, c, e) && m1i < m1.Length && m1[m1i] == e.match1 && pd != m1
      requires p < POS_LIMIT && base + Room(q.cap) <= pm.Length && base + Room(q.cap) <= pd.Length
      requires Ascend(Tables(), q, p, ref, mp, e, fuel).Some?
      modifies intervals, posData, pm, pd, m1
      ensures Ascend(old(Tables()), q, p, ref, mp, e, fuel) == Some((Tables(), e'))
      ensures Written(pm, pd, base, e') && count == |e'.matches| >= c.count && m1[m1i] == e'.match1
      ensures forall i :: 0 <= i < pm.Length && !(base <= i < base + count) ==> pm[i] == old(pm[i])
      ensures forall i :: 0 <= i < pd.Length && !(base <= i < base + count) ==> pd[i] == old(pd[i])
      ensures forall i :: 0 <= i < m1.Length && i != m1i ==> m1[i] == old(m1[i])
    {
      ghost var r := Ascend(Tables(), q, p, ref, mp, e, fuel).value;
      var top, at, cur := ref, mp, c;
      ghost var g, t := fuel, Tables();
      e' := e;
      while true
        invariant Mirrors(pm, pd, base, cur, e') && m1[m1i] == e'.match1 && cur.count >= c.count
        invariant t == Tables() && Ascend(t, q, p, top, at, e', g) == Some(r)
        invariant forall i :: 0 <= i < pm.Length && !(base <= i < base + cur.count) ==> pm[i] == old(pm[i])
        invariant forall i :: 0 <= i < pd.Length && !(base <= i < base + cur.count) ==> pd[i] == old(pd[i])
        invariant forall i :: 0 <= i < m1.Length && i != m1i ==> m1[i] == old(m1[i])
        decreases g
      {
        var super, done;
        at, super, cur, e' := Approach(pm, pd, base, cur, q, p, top, at, e', g);
        done, top, at, cur, e', t, g := Link(pm, pd, base, m1, m1i, cur, q, p, top, at, super, e', g, t);
        if done {
          return cur.count, e';
        }
      }
    }

    /**
     * Lines 266-328: one step along pos_data tested with >=, then the chase;
     * what is left of the turn is Relink from the position reached.
     */
    method Approach(pm: array<Match>, pd: array<int>, base: nat, c: Cursor, q: Request, p: nat, ref: u64,
                    mp: nat, ghost e: Emitted, ghost fuel: nat)
      returns (mp': nat, super: u64, c': Cursor, ghost e': Emitted)
      requires Ready() && Mirrors(pm, pd, base, c, e) && p < POS_LIMIT
      requires base + Room(q.cap) <= pm.Length && base + Room(q.cap) <= pd.Length
      requires Ascend(Tables(), q, p, ref, mp, e, fuel).Some?
      modifies pm, pd
      ensures Tables() == old(Tables())
      ensures Mirrors(pm, pd, base, c', e') && e'.match1 == e.match1
      ensures Ascend(Tables(), q, p, ref, mp, e, fuel) == Relink(Tables(), q, p, ref, mp', super, e', fuel)
      ensures c'.count >= c.count
      ensures forall i :: 0 <= i < pm.Length && !(base <= i < base + c'.count) ==> pm[i] == old(pm[i])
      ensures forall i :: 0 <= i < pd.Length && !(base <= i < base + c'.count) ==> pd[i] == old(pd[i])
    {
      mp', c', e' := mp, c, e;
      super := posData[mp];
      if super > ref {
        mp' := ClearVisited(intervals[PosOf(super)]);
        c', e' := Consider(pm, pd, base, c, q, p, FirstIndirect, mp', ref, false, e);
      }
      mp', super, c', e' := FollowLinks(pm, pd, base, c', q, p, ref, mp', e', fuel);
    }

    /**
     * Lines 330-389: link interval `ref` and position mp to each other, offer
     * p - mp directly and keep it as match1 if short; then stop at the root
     * or move to the superinterval and offer its candidate.
     */
    method Link(pm: array<Match>, pd: array<int>, base: nat, m1: array<int>, m1i: nat, c: Cursor, q: Request,
                p: nat, ref: u64, mp: nat, super: u64, ghost e: Emitted, ghost fuel: nat, ghost t: Links)
      returns (done: bool, ref': u64, mp': nat, c': Cursor, ghost e': Emitted, ghost t': Links, ghost fuel': nat)
      requires Ready() && Mirrors(pm, pd, base, c, e) && m1i < m1.Length && m1[m1i] == e.match1 && pd != m1
      requires p < POS_LIMIT && base + Room(q.cap) <= pm.Length && base + Room(q.cap) <= pd.Length
      requires Tables() == t && Relink(t, q, p, ref, mp, super, e, fuel).Some?
      modifies intervals, posData, pm, pd, m1
      ensures Mirrors(pm, pd, base, c', e') && m1[m1i] == e'.match1
      ensures t' == Tables()
      ensures done ==> Relink(t, q, p, ref, mp, super, e, fuel) == Some((t', e'))
      ensures !done ==> fuel' < fuel && Relink(t, q, p, ref, mp, super, e, fuel) == Ascend(t', q, p, ref', mp', e', fuel')
      ensures c'.count >= c.count
      ensures forall i :: 0 <= i < pm.Length && !(base <= i < base + c'.count) ==> pm[i] == old(pm[i])
      ensures forall i :: 0 <= i < pd.Length && !(base <= i < base + c'.count) ==> pd[i] == old(pd[i])
      ensures forall i :: 0 <= i < m1.Length && i != m1i ==> m1[i] == old(m1[i])
    {
      ghost var d := DirectOutput(e, q, p, mp, ref);
      intervals[PosOf(ref)] := Visit(p);
      posData[mp] := ref;
      t' := Tables();
      assert t' == Links(t.intervals[PosOf(ref) := Visit(p)], t.posData[mp := ref]);
      c', e' := OfferDirect(pm, pd, base, m1, m1i, c, q, p, ref, mp, e);
      if super == 0 {
        return true, ref, mp, c', e', t', fuel;
      }
      // lines 359-389: continue with the superinterval
      ref' := super;
      mp' := ClearVisited(intervals[PosOf(ref')]);
      fuel' := fuel - 1;
      assert Relink(t, q, p, ref, mp, super, e, fuel)
          == Ascend(t', q, p, ref', mp', Candidate(d, q, p, Superinterval, mp', ref', true), fuel');
      c', e' := Consider(pm, pd, base, c', q, p, Superinterval, mp', ref', true, e');
      done := false;
    }

    /**
     * apultra_build_suffix_array for window w.  `sorted` is what the suffix
     * sorter yields: None when it fails (status 100, tables untouched),
     * otherwise the suffix array of w, from which the tables are built to
     * the Built shape (status 0).
     */
    method BuildSuffixArray(w: seq<byte>, sorted: Option<seq<int>>) returns (status: int)
      requires Ready() && 1 <= |w| <= intervals.Length
      requires sorted.Some? ==> IsSuffixArray(w, sorted.value)
      modifies intervals, posData, openIntervals
      ensures status == 0 <==> sorted.Some?
      ensures sorted.None? ==> status == 100 && Tables() == old(Tables())
      ensures sorted.Some? ==> Built(Tables(), w, sorted.value)
      ensures intervals[|w|..] == old(intervals[|w|..]) && posData[|w|..] == old(posData[|w|..])
    {
      if sorted.None? {
        return 100;
      }
      var sa := sorted.value;
      var n := |w|;
      // line 69: the suffix array, widened in place from the top down
      var i := n;
      while i > 0
        invariant 0 <= i <= n
        invariant forall x :: i <= x < n ==> intervals[x] == sa[x]
        invariant intervals[n..] == old(intervals[n..]) && posData[..] == old(posData[..])
      {
        i := i - 1;
        intervals[i] := sa[i];
      }
      assert intervals[..n] == sa;
      BuildRanks(w, intervals);
      RankEntriesDistinct(w, sa);
      ghost var depth, ext := Sweep(intervals, posData, openIntervals, n);
      assert BuiltOn(Tables(), w, sa, depth, ext);
      return 0;
    }

    /**
     * apultra_skip_matches: the calls at start, ..., end - 1 with no room for
     * output and no block flags.  ts is the trail of tables those calls pass
     * through; the tables end at its last entry.
     */
    method SkipMatches(start: nat, end: nat, ghost ts: seq<Links>)
      requires Ready() && IsTrail(Call, ts, Tables(), start, end)
      modifies intervals, posData
      ensures Tables() == ts[end - start]
    {
      var m := new Match[1];
      var d := new int[1];
      var m1 := new int[1];
      var i := start;
      while i < end
        invariant start <= i <= end && Tables() == ts[i - start]
        decreases end - i
      {
        SkipAt(i, m, d, m1, ts, start);
        i := i + 1;
      }
    }

    /** One turn of the loop of lines 409-411: the call at i, along trail ts, into scratch outputs. */
    method SkipAt(i: nat, m: array<Match>, d: array<int>, m1: array<int>, ghost ts: seq<Links>, ghost start: nat)
      requires Ready() && Steps(Call, ts, start) && start <= i && i - start + 1 < |ts| && Tables() == ts[i - start]
      requires 1 <= m.Length && 1 <= d.Length && 1 <= m1.Length && d != m1
      modifies intervals, posData, m, d, m1
      ensures Tables() == ts[i - start + 1]
    {
      assert StepAt(Call, ts, start, i - start);
      var _ := FindMatchesAt(i, m, d, 0, m1, 0, 0, 0);
    }

    /**
     * One turn of the loop of lines 434-447: the call at position
     * i = start + j, the j-th along trail ts, writes its output outs[j] as a
     * slot of k entries from `at` on, padded with zeros, and its match1 byte
     * at j; nothing else of the outputs changes.
     */
    method FindSlot(i: nat, at: nat, j: nat, k: nat, flags: nat,
                    ghost ts: seq<Links>, ghost outs: seq<Emitted>, ghost start: nat)
      requires Ready() && Produced(ts, outs, Request(k, maxOffset, flags), start)
      requires i == start + j && j < |outs| && Tables() == ts[j]
      requires at + k <= matches.Length && at + k <= matchDepth.Length && j < match1.Length
      modifies intervals, posData, matches, matchDepth, match1
      ensures Tables() == ts[j + 1]
      ensures |outs[j].depths| == |outs[j].matches| <= k
      ensures matches[..at + k] == old(matches[..at]) + Padded(outs[j].matches, k, Match(0, 0))
      ensures matchDepth[..at + k] == old(matchDepth[..at]) + Padded(outs[j].depths, k, 0)
      ensures matches[at + k..] == old(matches[at + k..]) && matchDepth[at + k..] == old(matchDepth[at + k..])
      ensures match1[..j] == old(match1[..j]) && match1[j] == outs[j].match1 && match1[j + 1..] == old(match1[j + 1..])
    {
      ghost var pm0, pd0 := matches[..], matchDepth[..];
      assert EmitAt(ts, outs, Request(k, maxOffset, flags), start, j);
      ghost var e := outs[j];
      var count := FindMatchesAt(i, matches, matchDepth, at, match1, j, k, flags);
      ZeroFill(matches, matchDepth, at + count, at + k);
      SlotLayout(matches[..], pm0, at, e.matches, k, Match(0, 0));
      SlotLayout(matchDepth[..], pd0, at, e.depths, k, 0);
    }

    /** The first |outs| slots of the output arrays hold outs, laid out as apultra_find_all_matches lays them. */
    ghost predicate Filled(outs: seq<Emitted>, k: nat)
      reads this, matches, matchDepth, match1
      requires Ready() && Fits(outs, k)
    {
      && Span(|outs|, k) <= matches.Length && Span(|outs|, k) <= matchDepth.Length && |outs| <= match1.Length
      && matches[..Span(|outs|, k)] == MatchSlots(outs, k)
      && matchDepth[..Span(|outs|, k)] == DepthSlots(outs, k)
      && match1[..|outs|] == Match1s(outs)
    }

    /**
     * One turn of the loop of lines 434-447 as the loop sees it: the slots
     * of the first j positions hold their outputs before, and of the first
     * j + 1 after; nothing beyond the slots of all of outs changes.
     */
    method Turn(i: nat, at: nat, j: nat, k: nat, flags: nat,
                ghost ts: seq<Links>, ghost outs: seq<Emitted>, ghost start: nat)
      requires Ready() && Produced(ts, outs, Request(k, maxOffset, flags), start) && Fits(outs, k)
      requires i == start + j && j < |outs| && Tables() == ts[j] && at == Span(j, k)
      requires Span(|outs|, k) <= matches.Length && Span(|outs|, k) <= matchDepth.Length && |outs| <= match1.Length
      requires Filled(outs[..j], k)
      modifies intervals, posData, matches, matchDepth, match1
      ensures Tables() == ts[j + 1] && Filled(outs[..j + 1], k)
      ensures matches[Span(|outs|, k)..] == old(matches[Span(|outs|, k)..])
      ensures matchDepth[Span(|outs|, k)..] == old(matchDepth[Span(|outs|, k)..])
      ensures match1[|outs|..] == old(match1[|outs|..])
    {
      SpanMonotonic(j + 1, |outs|, k);
      FitsPrefix(outs, k, j + 1);
      ghost var pm, pd, p1 := matches[..], matchDepth[..], match1[..];
      FindSlot(i, at, j, k, flags, ts, outs, start);
      SlotsAppend(outs, k, j);
      TailFrame(matches[..], pm, at + k, Span(|outs|, k));
      TailFrame(matchDepth[..], pd, at + k, Span(|outs|, k));
      TailFrame(match1[..], p1, j + 1, |outs|);
    }

    /**
     * apultra_find_all_matches(nMatchesPerOffset = k): the calls at start,
     * ..., end - 1 along trail ts, each with capacity k and the block flags,
     * produce outs.  match and match_depth receive them in slots of k
     * entries, zero-padded, and match1 one byte per position.
     */
    method FindAllMatches(k: nat, start: nat, end: nat, flags: nat, ghost ts: seq<Links>, ghost outs: seq<Emitted>)
      requires Ready() && Produced(ts, outs, Request(k, maxOffset, flags), start)
      requires start + |outs| == end && Tables() == ts[0]
      requires Span(end - start, k) <= matches.Length && Span(end - start, k) <= matchDepth.Length
      requires end - start <= match1.Length
      modifies intervals, posData, matches, matchDepth, match1
      ensures Tables() == ts[end - start] && Fits(outs, k)
      ensures matches[..Span(end - start, k)] == MatchSlots(outs, k)
      ensures matchDepth[..Span(end - start, k)] == DepthSlots(outs, k)
      ensures match1[..end - start] == Match1s(outs)
      ensures matches[Span(end - start, k)..] == old(matches[Span(end - start, k)..])
      ensures matchDepth[Span(end - start, k)..] == old(matchDepth[Span(end - start, k)..])
      ensures match1[end - start..] == old(match1[end - start..])
    {
      ghost var n := Span(end - start, k);
      ProducedWithin(ts, outs, Request(k, maxOffset, flags), start);
      assert Fits(outs, k);
      // j counts the positions done: the source's i is start + j
      var j, at := 0, 0;
      while j < end - start
        invariant j <= |outs| && at == Span(j, k)
        invariant Tables() == ts[j] && Filled(outs[..j], k)
        invariant matches[n..] == old(matches[n..]) && matchDepth[n..] == old(matchDepth[n..])
        invariant match1[|outs|..] == old(match1[|outs|..])
      {
        Turn(start + j, at, j, k, flags, ts, outs, start);
        j, at := j + 1, at + k;
      }
      assert outs[..j] == outs;
      assert Filled(outs, k);
    }

    /**
     * apultra_find_all_block_matches: build the tables for window w (the
     * previous block's prev bytes followed by the size bytes to compress),
     * then scan them as ScanWindow does.  `sorted` is what divsufsort
     * yields: None when it fails, and then the block fails with -1.  On
     * success the scan starts from tables of the built shape.
     */
    method FindAllBlockMatches(w: seq<byte>, sorted: Option<seq<int>>, prev: nat, size: nat, flags: nat, k: nat)
      returns (status: int, ghost trail: seq<Links>)
      requires Ready() && prev + size == |w| && 1 <= |w| <= intervals.Length
      requires sorted.Some? ==> IsSuffixArray(w, sorted.value) && Ascents(w, sorted.value)
      requires Span(size, k) <= matches.Length && Span(size, k) <= matchDepth.Length && size <= match1.Length
      modifies intervals, posData, openIntervals, matches, matchDepth, match1
      ensures status == 0 <==> sorted.Some?
      ensures sorted.None? ==> status == -1 && Tables() == old(Tables())
      ensures sorted.None? ==> unchanged(matches, matchDepth, match1)
      ensures sorted.Some? ==> |trail| == |w| + 1 && IsTrail(Call, trail, trail[0], 0, |w|) && Built(trail[0], w, sorted.value)
      ensures sorted.Some? ==>
        trail[0].intervals[|w|..] == old(intervals[|w|..]) && trail[0].posData[|w|..] == old(posData[|w|..])
      ensures sorted.Some? ==> Scanned(trail, prev, size, Request(k, maxOffset, flags))
    {
      status := BuildSuffixArray(w, sorted);
      if status != 0 {
        return -1, [Tables()];
      }
      BuiltRuns(w, sorted.value, Tables());
      trail := ScanWindow(prev, size, flags, k);
    }

    /** The state the scan of a window leaves: the tables at the end of trail, the outputs of the calls from prev on in the output arrays. */
    ghost predicate Scanned(trail: seq<Links>, prev: nat, size: nat, q: Request)
      reads this, intervals, posData, matches, matchDepth, match1
      requires Ready() && |trail| == prev + size + 1 && Steps(Call, trail, 0) && q.cap >= 0
    {
      && Tables() == trail[prev + size]
      && IsTrail(Call, trail[prev..], trail[prev], prev, prev + size)
      && var outs := Outputs(trail[prev..], q, prev);
         && Fits(outs, q.cap)
         && Span(size, q.cap) <= matches.Length && Span(size, q.cap) <= matchDepth.Length && size <= match1.Length
         && matches[..Span(size, q.cap)] == MatchSlots(outs, q.cap)
         && matchDepth[..Span(size, q.cap)] == DepthSlots(outs, q.cap)
         && match1[..size] == Match1s(outs)
    }

    /**
     * Lines 472-475: the calls over the previous block without output
     * (apultra_skip_matches), then over the new bytes with output
     * (apultra_find_all_matches), along the one trail of calls from the
     * current tables over the whole window.
     */
    method ScanWindow(prev: nat, size: nat, flags: nat, k: nat) returns (ghost trail: seq<Links>)
      requires Ready() && Runs(Call, Tables(), 0, prev + size)
      requires Span(size, k) <= matches.Length && Span(size, k) <= matchDepth.Length && size <= match1.Length
      modifies intervals, posData, matches, matchDepth, match1
      ensures IsTrail(Call, trail, old(Tables()), 0, prev + size)
      ensures Scanned(trail, prev, size, Request(k, maxOffset, flags))
    {
      var n := prev + size;
      ghost var t := Tables();
      trail := TrailExists(Call, t, 0, n);
      TrailPrefix(Call, trail, t, 0, n, prev);
      TrailSuffix(Call, trail, t, 0, n, prev);
      if prev > 0 {
        SkipMatches(0, prev, trail[..prev + 1]);
      }
      FindFrom(prev, size, flags, k, trail);
    }

    /** Line 473: the calls from prev on, along the rest of the trail, with output. */
    method FindFrom(prev: nat, size: nat, flags: nat, k: nat, ghost trail: seq<Links>)
      requires Ready() && |trail| == prev + size + 1 && Steps(Call, trail, 0) && Tables() == trail[prev]
      requires IsTrail(Call, trail[prev..], trail[prev], prev, prev + size)
      requires Span(size, k) <= matches.Length && Span(size, k) <= matchDepth.Length && size <= match1.Length
      modifies intervals, posData, matches, matchDepth, match1
      ensures Scanned(trail, prev, size, Request(k, maxOffset, flags))
    {
      ghost var rest, q := trail[prev..], Request(k, maxOffset, flags);
      OutputsProduced(rest, q, prev);
      FindAllMatches(k, prev, prev + size, flags, rest, Outputs(rest, q, prev));
    }

    /** Lines 347-358: offer p - mp for interval `ref` directly, and keep it as match1 if it is short. */
    static method OfferDirect(pm: array<Match>, pd: array<int>, base: nat, m1: array<int>, m1i: nat, c: Cursor,
                              q: Request, p: nat, ref: u64, mp: nat, ghost e: Emitted)
      returns (c': Cursor, ghost e': Emitted)
      requires Mirrors(pm, pd, base, c, e) && m1i < m1.Length && m1[m1i] == e.match1 && pd != m1
      requires base + Room(q.cap) <= pm.Length && base + Room(q.cap) <= pd.Length
      modifies pm, pd, m1
      ensures e' == DirectOutput(e, q, p, mp, ref) && Mirrors(pm, pd, base, c', e') && m1[m1i] == e'.match1
      ensures c'.count >= c.count
      ensures forall i :: 0 <= i < pm.Length && !(base <= i < base + c'.count) ==> pm[i] == old(pm[i])
      ensures forall i :: 0 <= i < pd.Length && !(base <= i < base + c'.count) ==> pd[i] == old(pd[i])
      ensures forall i :: 0 <= i < m1.Length && i != m1i ==> m1[i] == old(m1[i])
    {
      var off, len := p - mp, MatchLenOf(ref);
      c', e' := Record(pm, pd, base, c, q, Direct, off, len, e);
      if off != 0 && off < 16 && len != 0 {
        m1[m1i] := off % 256;
        e' := e'.(match1 := off % 256);
      }
    }

    /** A context holding no buffers; max_offset is set by its owner. */
    constructor ()
      ensures Released() && maxOffset == 0
    {
      intervals, posData, openIntervals := null, null, null;
      matches, matchDepth, match1 := null, null, null;
      maxOffset := 0;
    }

    /** apultra_matchfinder_destroy: release every buffer held; the context may be destroyed again. */
    method Destroy()
      modifies this
      ensures Released() && maxOffset == old(maxOffset)
    {
      if match1 != null { match1 := null; }
      if matchDepth != null { matchDepth := null; }
      if matches != null { matches := null; }
      if openIntervals != null { openIntervals := null; }
      if posData != null { posData := null; }
      if intervals != null { intervals := null; }
    }

    /**
     * apultra_matchfinder_init.  `sortReady` is the outcome of the suffix
     * sorter's own initialisation and grants[i] that of the i-th allocation
     * (intervals, pos_data, open_intervals, match, match_depth, match1); an
     * allocation is tried only when the one before it succeeded.  Success,
     * with every buffer sized as the source sizes it, exactly when all seven
     * succeed; otherwise -1 and nothing held.
     */
    method Init(blockSize: nat, maxWindowSize: nat, matchesPerIndex: nat, sortReady: bool, grants: seq<bool>)
      returns (result: int)
      requires maxWindowSize < 0x8000_0000 && |grants| == 6
      modifies this
      ensures maxOffset == old(maxOffset)
      ensures result == 0 <==> sortReady && forall i :: 0 <= i < 6 ==> grants[i]
      ensures result == 0 ==>
        && Ready()
        && fresh(intervals) && fresh(posData) && fresh(openIntervals)
        && fresh(matches) && fresh(matchDepth) && fresh(match1)
        && intervals.Length == maxWindowSize
        && matches.Length == matchDepth.Length == blockSize * matchesPerIndex
        && match1.Length == blockSize
      ensures result != 0 ==> result == -1 && Released()
    {
      intervals, posData, openIntervals := null, null, null;
      matches, matchDepth, match1 := null, null, null;
      assert grants == grants[..3] + grants[3..];
      if sortReady {
        var ok := AllocateTables(maxWindowSize, grants[..3]);
        if ok {
          ok := AllocateOutputs(blockSize, matchesPerIndex, grants[3..]);
          if ok {
            return 0;
          }
        }
      }
      Destroy();
      return -1;
    }

    /** Lines 542-547: intervals and pos_data, one entry per window position, then the stack of open intervals. */
    method AllocateTables(maxWindowSize: nat, grants: seq<bool>) returns (ok: bool)
      requires maxWindowSize < 0x8000_0000 && |grants| == 3 && Released()
      modifies this
      ensures maxOffset == old(maxOffset) && matches == null && matchDepth == null && match1 == null
      ensures ok <==> grants[0] && grants[1] && grants[2]
      ensures ok ==>
        && intervals != null && posData != null && openIntervals != null
        && fresh(intervals) && fresh(posData) && fresh(openIntervals)
        && intervals != posData && intervals != openIntervals && posData != openIntervals
        && intervals.Length == posData.Length == maxWindowSize && openIntervals.Length == LCP_LIMIT
    {
      if grants[0] {
        intervals := new u64[maxWindowSize];
        if grants[1] {
          posData := new u64[maxWindowSize];
          if grants[2] {
            openIntervals := new u64[LCP_AND_TAG_MAX + 1];
            return true;
          }
        }
      }
      return false;
    }

    /** Lines 549-556: match and match_depth, nMatchedPerIndex entries per position of a block, then match1. */
    method AllocateOutputs(blockSize: nat, matchesPerIndex: nat, grants: seq<bool>) returns (ok: bool)
      requires |grants| == 3 && matches == null && matchDepth == null && match1 == null
      modifies this
      ensures maxOffset == old(maxOffset)
      ensures intervals == old(intervals) && posData == old(posData) && openIntervals == old(openIntervals)
      ensures ok <==> grants[0] && grants[1] && grants[2]
      ensures ok ==>
        && matches != null && matchDepth != null && match1 != null
        && fresh(matches) && fresh(matchDepth) && fresh(match1) && matchDepth != match1
        && matches.Length == matchDepth.Length == blockSize * matchesPerIndex && match1.Length == blockSize
    {
      var slots := blockSize * matchesPerIndex;
      if grants[0] {
        matches := new Match[slots];
        if grants[1] {
          matchDepth := new int[slots];
          if grants[2] {
            match1 := new int[blockSize];
            return true;
          }
        }
      }
      return false;
    }
  }
}
