/**
 * The three phases of apultra_build_suffix_array that follow the external
 * suffix sort: Kärkkäinen's permuted LCP, its rotation into packed rank
 * entries, and the sweep that turns the rank entries into the LCP-interval
 * tree (parent links in `intervals`, leaf links in `pos_data`).
 */
module Construction {
  import opened Layout
  import opened Suffixes

  // ---------------------------------------------------------------------
  // Permuted LCP (matchfinder.c:71-87)

  /** PLCP[i]: the common prefix of suffix i with the suffix ranked just before it, 0 for the first. */
  ghost function Plcp(w: seq<byte>, sa: seq<int>, i: nat): (r: nat)
    requires IsPermutation(sa, |w|) && i < |w|
  {
    if Phi(sa, i) == -1 then 0 else Lce(w, i, Phi(sa, i))
  }

  /**
   * What PLCP[i] means: the suffixes at i and Φ[i] agree on PLCP[i] bytes,
   * that prefix fits in the window after both, and it cannot be extended.
   */
  lemma PlcpMeaning(w: seq<byte>, sa: seq<int>, i: nat)
    requires IsPermutation(sa, |w|) && i < |w|
    ensures Phi(sa, i) == -1 ==> Plcp(w, sa, i) == 0
    ensures Phi(sa, i) != -1 ==>
      var x, l := Phi(sa, i), Plcp(w, sa, i);
      && l <= |w| - (if i > x then i else x)
      && w[i..i + l] == w[x..x + l]
      && (i + l < |w| && x + l < |w| ==> w[i + l] != w[x + l])
  {
    if Phi(sa, i) != -1 {
      LceAgree(w, i, Phi(sa, i));
    }
  }

  /** Read in rank order, PLCP is the LCP array: 0 at rank 0, the neighbours' common prefix elsewhere. */
  lemma PlcpAtRank(w: seq<byte>, sa: seq<int>, k: nat)
    requires IsPermutation(sa, |w|) && k < |w|
    ensures 0 <= sa[k] < |w|
    ensures k == 0 ==> Plcp(w, sa, sa[k]) == 0
    ensures k > 0 ==> 0 <= sa[k - 1] < |w| && Plcp(w, sa, sa[k]) == Lce(w, sa[k - 1], sa[k])
  {
    assert Rank(sa, sa[k]) == k;
    if k > 0 {
      assert Phi(sa, sa[k]) == sa[k - 1];
      LceSymmetric(w, sa[k], sa[k - 1]);
    }
  }

  /** The position ranked just before rank k, or -1: what line 77 stores into Φ. */
  function Before(sa: seq<int>, k: nat): int
    requires k < |sa|
  {
    if k == 0 then -1 else sa[k - 1]
  }

  /** Lines 76-77: Φ[sa[0]] = -1 and Φ[sa[k]] = sa[k - 1]. */
  method FillPhi(ranks: array<u64>, n: nat) returns (phi: array<int>)
    requires 1 <= n <= ranks.Length && IsPermutation(ranks[..n], n)
    ensures fresh(phi) && phi.Length == n
    ensures forall p :: 0 <= p < n ==> phi[p] == Phi(ranks[..n], p)
  {
    ghost var sa: seq<int> := ranks[..n];
    phi := new int[n];
    phi[ranks[0]] := -1;
    var i := 1;
    while i < n
      invariant 1 <= i <= n
      invariant forall k :: 0 <= k < i ==> phi[sa[k]] == Before(sa, k)
    {
      var x := ranks[i];
      assert x == sa[i];
      RankedOnce(sa, i);
      phi[x] := ranks[i - 1] as int;
      forall k | 0 <= k <= i
        ensures phi[sa[k]] == Before(sa, k)
      {
        if k < i {
          assert sa[k] != x;
        }
      }
      i := i + 1;
    }
    PhiByRank(sa, phi[..]);
  }

  /** No rank before k holds the position of rank k. */
  lemma RankedOnce(sa: seq<int>, k: nat)
    requires IsPermutation(sa, |sa|) && k < |sa|
    ensures forall j :: 0 <= j < k ==> sa[j] != sa[k]
  {
  }

  /** A table holding Before(sa, k) at sa[k] for every rank k is Φ. */
  lemma PhiByRank(sa: seq<int>, phi: seq<int>)
    requires IsPermutation(sa, |sa|) && |phi| == |sa|
    requires forall k :: 0 <= k < |sa| ==> phi[sa[k]] == Before(sa, k)
    ensures forall p :: 0 <= p < |sa| ==> phi[p] == Phi(sa, p)
  {
    forall p | 0 <= p < |sa|
      ensures phi[p] == Phi(sa, p)
    {
      var k := Rank(sa, p);
      assert phi[sa[k]] == Before(sa, k);
    }
  }

  /** Line 84: extend a common prefix known to be at most Lce(w, i, phi) until it is exactly that. */
  method ExtendMatch(w: seq<byte>, i: nat, phi: nat, start: nat) returns (len: nat)
    requires i < |w| && phi < |w| && start <= Lce(w, i, phi)
    ensures len == Lce(w, i, phi)
  {
    var n := |w|;
    var maxLen := if i > phi then n - i else n - phi;
    LceAgree(w, i, phi);
    len := start;
    while len < maxLen && w[i + len] == w[phi + len]
      invariant len <= Lce(w, i, phi)
    {
      if len == Lce(w, i, phi) {
        assert false;
      }
      len := len + 1;
    }
    if len < Lce(w, i, phi) {
      SliceAgree(w, i, phi, Lce(w, i, phi), len);
    }
  }

  /**
   * Lines 78-87: replace Φ by PLCP in place, position by position, carrying
   * the running length nCurLen from one position to the next.
   */
  method PhiToPlcp(w: seq<byte>, ghost sa: seq<int>, plcp: array<int>)
    requires 1 <= |w| == plcp.Length < 0x8000_0000 && IsSuffixArray(w, sa)
    requires forall p :: 0 <= p < |w| ==> plcp[p] == Phi(sa, p)
    modifies plcp
    ensures forall i :: 0 <= i < |w| ==> plcp[i] == Plcp(w, sa, i)
  {
    var n := plcp.Length;
    var curLen := 0;
    var i := 0;
    while i < n
      invariant 0 <= i <= n && curLen >= 0
      invariant forall j :: 0 <= j < i ==> plcp[j] == Plcp(w, sa, j)
      invariant forall j :: i <= j < n ==> plcp[j] == Phi(sa, j)
      invariant i < n && Phi(sa, i) == -1 ==> curLen == 0
      invariant i < n && Phi(sa, i) != -1 ==> curLen <= Lce(w, i, Phi(sa, i))
    {
      if plcp[i] == -1 {
        plcp[i] := 0;
      } else {
        var phi := plcp[i];
        curLen := ExtendMatch(w, i, phi, curLen);
        plcp[i] := curLen;
        if curLen > 0 { curLen := curLen - 1; }
        if i + 1 < n {
          PermutedLcpStep(w, sa, i);
        }
      }
      i := i + 1;
    }
  }

  /** Lines 71-87: PLCP computed by Kärkkäinen's method from a sorted suffix array. */
  method ComputePlcp(w: seq<byte>, ranks: array<u64>) returns (plcp: array<int>)
    requires 1 <= |w| <= ranks.Length && |w| < 0x8000_0000
    requires IsSuffixArray(w, ranks[..|w|])
    ensures fresh(plcp) && plcp.Length == |w|
    ensures forall i :: 0 <= i < |w| ==> plcp[i] == Plcp(w, ranks[..|w|], i)
  {
    plcp := FillPhi(ranks, |w|);
    PhiToPlcp(w, ranks[..|w|], plcp);
  }

  // ---------------------------------------------------------------------
  // Rotation into rank entries (matchfinder.c:92-103)

  /** The rank entry of a position: the position with its clamped, tagged PLCP in the LCP field. */
  function Entry(plcp: seq<int>, pos: nat): (r: u64)
    requires pos < |plcp| && pos < 0x8000_0000
    ensures PosOf(r) == pos && LcpOf(r) == TaggedLcp(plcp[pos], pos)
  {
    Pack(pos, TaggedLcp(plcp[pos], pos))
  }

  /**
   * Lines 92-103: rank entry r >= 1 becomes its position packed with the
   * clamped, tagged PLCP of that position; rank entry 0 keeps its position.
   */
  method Rotate(ranks: array<u64>, plcp: array<int>)
    requires 1 <= plcp.Length <= ranks.Length && plcp.Length < 0x8000_0000
    requires forall r :: 0 <= r < plcp.Length ==> ranks[r] < plcp.Length
    modifies ranks
    ensures ranks[0] == old(ranks[0])
    ensures forall r :: 1 <= r < plcp.Length ==> ranks[r] == Entry(plcp[..], old(ranks[r]))
    ensures ranks[plcp.Length..] == old(ranks[plcp.Length..])
  {
    var n := plcp.Length;
    ghost var lens, positions := plcp[..], ranks[..];
    ghost var entries := seq(n, r requires 0 <= r < n => Entry(lens, positions[r]));
    ranks[0] := PosOf(ranks[0]);
    var i := 1;
    while i < n
      invariant 1 <= i <= n && ranks[0] == old(ranks[0])
      invariant forall r :: 1 <= r < i ==> ranks[r] == entries[r]
      invariant forall r :: i <= r < ranks.Length ==> ranks[r] == old(ranks[r])
    {
      var index := PosOf(ranks[i]);
      var len := plcp[index];
      if len < MIN_MATCH_SIZE { len := 0; }
      if len > LCP_MAX { len := LCP_MAX; }
      var taggedLen := 0;
      if len != 0 {
        taggedLen := Tagged(len, IndexTag(index) % TAG_LIMIT);
      }
      assert positions[i] == index && lens[index] == plcp[index];
      assert taggedLen == TaggedLcp(lens[index], index);
      ranks[i] := Pack(index, taggedLen);
      assert ranks[i] == entries[i];
      i := i + 1;
    }
  }

  // ---------------------------------------------------------------------
  // The rank table as a whole (matchfinder.c:69-103)

  /**
   * The rank entries of w: rank 0 holds its position; rank r >= 1 holds its
   * position packed with the clamped, tagged length of the common prefix
   * of the suffixes ranked r - 1 and r.
   */
  ghost function RankEntries(w: seq<byte>, sa: seq<int>): (ranks: seq<u64>)
    requires IsPermutation(sa, |w|) && |w| < 0x8000_0000
    ensures |ranks| == |w|
    ensures forall r :: 0 <= r < |w| ==> ranks[r] == RankEntry(w, sa, r)
  {
    seq(|w|, r requires 0 <= r < |w| => RankEntry(w, sa, r))
  }

  /** The rank entry of rank r: its position, and for r >= 1 the tagged common prefix with rank r - 1. */
  ghost function RankEntry(w: seq<byte>, sa: seq<int>, r: nat): (x: u64)
    requires IsPermutation(sa, |w|) && |w| < 0x8000_0000 && r < |w|
    ensures PosOf(x) == sa[r]
    ensures r == 0 ==> LcpOf(x) == 0
    ensures r >= 1 ==> LcpOf(x) == TaggedLcp(Lce(w, sa[r - 1], sa[r]), sa[r])
  {
    if r == 0 then sa[0] else Pack(sa[r], TaggedLcp(Lce(w, sa[r - 1], sa[r]), sa[r]))
  }

  /** Distinct ranks hold distinct positions, all inside the window. */
  lemma RankEntriesDistinct(w: seq<byte>, sa: seq<int>)
    requires IsPermutation(sa, |w|) && |w| < 0x8000_0000
    ensures forall r :: 0 <= r < |w| ==> PosOf(RankEntries(w, sa)[r]) < |w|
    ensures forall a, b :: 0 <= a < b < |w| ==> PosOf(RankEntries(w, sa)[a]) != PosOf(RankEntries(w, sa)[b])
  {
    var ranks := RankEntries(w, sa);
    assert forall r :: 0 <= r < |w| ==> PosOf(ranks[r]) == sa[r];
  }

  /**
   * Lines 71-103: from the suffix array in the first |w| entries of `ranks`,
   * compute PLCP and rotate it into the rank entries of w.
   */
  method BuildRanks(w: seq<byte>, ranks: array<u64>)
    requires 1 <= |w| <= ranks.Length && |w| < 0x8000_0000
    requires IsSuffixArray(w, ranks[..|w|])
    modifies ranks
    ensures ranks[..|w|] == RankEntries(w, old(ranks[..|w|]))
    ensures ranks[|w|..] == old(ranks[|w|..])
  {
    ghost var sa: seq<int> := ranks[..|w|];
    var plcp := ComputePlcp(w, ranks);
    Rotate(ranks, plcp);
    forall r | 0 <= r < |w|
      ensures ranks[r] == RankEntries(w, sa)[r]
    {
      PlcpAtRank(w, sa, r);
      if r > 0 {
        assert ranks[r] == Entry(plcp[..], sa[r]);
      } else {
        assert ranks[0] == sa[0];
      }
    }
  }
}

