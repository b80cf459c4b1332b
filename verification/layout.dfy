/**
 * The packed 64-bit reference of the match finder (matchfinder.h) and the
 * index tag hash (matchfinder.c).
 *
 * A packed reference holds, from the low bits up: a position or interval id
 * (48 bits), a 15-bit LCP field whose low 4 bits are a disambiguating tag,
 * and a visited flag (bit 63).  References are modelled as unbounded
 * integers below 2^64; every mask, shift and `|` the source applies is
 * written out as the equivalent division, remainder or addition on such an
 * integer, and the masks themselves are also given as `bv64` constants.
 */
module Layout {

  type u64 = x: int | 0 <= x < 0x1_0000_0000_0000_0000

  const TAG_BITS: nat := 4
  const LCP_BITS: nat := 15
  const LCP_SHIFT: nat := 63 - LCP_BITS
  /** 1 << TAG_BITS */
  const TAG_LIMIT: nat := 16
  /** 1 << LCP_SHIFT: the first value that no longer fits the position field */
  const POS_LIMIT: nat := 0x1_0000_0000_0000
  /** 1 << LCP_BITS: the first value that no longer fits the LCP field */
  const LCP_LIMIT: nat := 0x8000
  /** 1 << (LCP_SHIFT + TAG_BITS): one unit of match length inside a reference */
  const LEN_UNIT: nat := 0x10_0000_0000_0000
  const LCP_MAX: nat := 2047
  const LCP_AND_TAG_MAX: nat := 32767
  /** VISITED_FLAG, as a number */
  const VISITED: nat := 0x8000_0000_0000_0000

  /** The masks exactly as the header spells them. */
  const POS_MASK: bv64 := (1 << 48) - 1
  const LCP_MASK: bv64 := ((1 << 15) - 1) << 48
  const VISITED_FLAG: bv64 := 0x8000_0000_0000_0000
  const EXCL_VISITED_MASK: bv64 := 0x7fff_ffff_ffff_ffff

  /** The smallest match the tree records; defined by format.h, which is not part of this model. */
  const MIN_MATCH_SIZE: nat := 1

  /** The three header masks split the 64 bits between them. */
  lemma MasksPartitionWord()
    ensures POS_MASK & LCP_MASK == 0 && POS_MASK & VISITED_FLAG == 0 && LCP_MASK & VISITED_FLAG == 0
    ensures POS_MASK | LCP_MASK | VISITED_FLAG == 0xffff_ffff_ffff_ffff
    ensures EXCL_VISITED_MASK == !VISITED_FLAG
    ensures LCP_SHIFT == 48 && POS_MASK as int == POS_LIMIT - 1
    ensures LCP_MASK as int == (LCP_LIMIT - 1) * POS_LIMIT && VISITED_FLAG as int == VISITED
    ensures LCP_MAX == 2047 && LCP_MAX * TAG_LIMIT + (TAG_LIMIT - 1) == LCP_AND_TAG_MAX
    ensures LCP_AND_TAG_MAX == LCP_LIMIT - 1
  {
  }

  /** x & POS_MASK */
  function PosOf(x: u64): (r: nat)
    ensures r < POS_LIMIT
  {
    x % POS_LIMIT
  }

  /** (x & LCP_MASK) >> LCP_SHIFT: the depth of a reference, tag bits included */
  function LcpOf(x: u64): (r: nat)
    ensures r < LCP_LIMIT
  {
    x / POS_LIMIT % LCP_LIMIT
  }

  /** x & EXCL_VISITED_MASK */
  function ClearVisited(x: u64): (r: nat)
    ensures r < VISITED
  {
    x % VISITED
  }

  /** x >> (LCP_SHIFT + TAG_BITS): the match length a reference carries */
  function MatchLenOf(x: u64): (r: nat)
    ensures r < 4096
  {
    x / LEN_UNIT
  }

  /** pos | (field << LCP_SHIFT) */
  function Pack(pos: nat, field: nat): (r: u64)
    requires pos < POS_LIMIT && field < LCP_LIMIT
    ensures PosOf(r) == pos && LcpOf(r) == field && r < VISITED
  {
    pos + field * POS_LIMIT
  }

  /** pos | VISITED_FLAG */
  function Visit(pos: nat): (r: u64)
    requires pos < POS_LIMIT
    ensures PosOf(r) == pos && ClearVisited(r) == pos
    ensures LcpOf(r) == 0 && r != 0 && r >= VISITED
  {
    pos + VISITED
  }

  /** (len << TAG_BITS) | tag */
  function Tagged(len: nat, tag: nat): (r: nat)
    requires len <= LCP_MAX && tag < TAG_LIMIT
    ensures r <= LCP_AND_TAG_MAX && r / TAG_LIMIT == len && r % TAG_LIMIT == tag
  {
    len * TAG_LIMIT + tag
  }

  /**
   * Unpacking a position packed with a tagged length gives back the position
   * under POS_MASK and the length under a shift by LCP_SHIFT + TAG_BITS.
   */
  lemma PackRoundTrip(pos: nat, len: nat, tag: nat)
    requires pos < POS_LIMIT && len <= LCP_MAX && tag < TAG_LIMIT
    ensures PosOf(Pack(pos, Tagged(len, tag))) == pos
    ensures MatchLenOf(Pack(pos, Tagged(len, tag))) == len
    ensures ClearVisited(Pack(pos, Tagged(len, tag))) == Pack(pos, Tagged(len, tag))
  {
    var t := Tagged(len, tag);
    var x := pos + t * POS_LIMIT;
    assert x == pos + (len * TAG_LIMIT + tag) * POS_LIMIT;
    assert x == len * LEN_UNIT + (tag * POS_LIMIT + pos);
    assert 0 <= tag * POS_LIMIT + pos < LEN_UNIT;
  }

  /**
   * Two packed references compare as their LCP fields do whenever those
   * differ: the field sits above every position bit.
   */
  lemma PackOrder(p1: nat, f1: nat, p2: nat, f2: nat)
    requires p1 < POS_LIMIT && p2 < POS_LIMIT && f1 < LCP_LIMIT && f2 < LCP_LIMIT
    ensures f1 < f2 ==> Pack(p1, f1) < Pack(p2, f2)
    ensures Pack(p1, f1) == Pack(p2, f2) <==> p1 == p2 && f1 == f2
  {
    if f1 < f2 {
      assert f1 * POS_LIMIT + POS_LIMIT <= f2 * POS_LIMIT;
    }
    if Pack(p1, f1) == Pack(p2, f2) {
      assert PosOf(Pack(p1, f1)) == PosOf(Pack(p2, f2));
    }
  }

  /** The multiplicative constant of apultra_get_index_tag. */
  const TAG_MULTIPLIER: nat := 11400714819323198485

  /**
   * apultra_get_index_tag: the top TAG_BITS bits of the 64-bit product of
   * the index with the golden-ratio constant.
   */
  function IndexTag(index: nat): (r: nat)
    requires index < 0x1_0000_0000
    ensures r < TAG_LIMIT
  {
    (index * TAG_MULTIPLIER) % 0x1_0000_0000_0000_0000 / 0x1000_0000_0000_0000
  }

  /** The LCP field of one rank entry: clamped, zero below the minimum, tagged otherwise. */
  function TaggedLcp(plcp: int, pos: nat): (r: nat)
    requires pos < 0x1_0000_0000
    ensures r <= LCP_AND_TAG_MAX
    ensures plcp < MIN_MATCH_SIZE ==> r == 0
    ensures plcp >= MIN_MATCH_SIZE ==>
      r / TAG_LIMIT == (if plcp > LCP_MAX then LCP_MAX else plcp) && r % TAG_LIMIT == IndexTag(pos)
  {
    var len := if plcp < MIN_MATCH_SIZE then 0 else if plcp > LCP_MAX then LCP_MAX else plcp;
    if len != 0 then Tagged(len, IndexTag(pos)) else 0
  }
}
