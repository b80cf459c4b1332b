/**
 * Suffixes of a byte window, their lexicographic order, and the facts about
 * sorted suffix arrays that Kärkkäinen's permuted-LCP method relies on.
 *
 * The suffix array itself comes from an external builder (libdivsufsort);
 * here it is only described, by `IsSuffixArray`.
 */
module Suffixes {

  type byte = x: int | 0 <= x < 256

  /** Length of the longest common prefix of the suffixes starting at a and b. */
  function Lce(w: seq<byte>, a: nat, b: nat): (r: nat)
    requires a <= |w| && b <= |w|
    ensures a + r <= |w| && b + r <= |w|
    decreases |w| - a
  {
    if a < |w| && b < |w| && w[a] == w[b] then 1 + Lce(w, a + 1, b + 1) else 0
  }

  /** The two suffixes agree on their first Lce bytes and differ right after, if both go on. */
  lemma {:induction false} LceAgree(w: seq<byte>, a: nat, b: nat)
    requires a <= |w| && b <= |w|
    ensures w[a..a + Lce(w, a, b)] == w[b..b + Lce(w, a, b)]
    ensures a + Lce(w, a, b) < |w| && b + Lce(w, a, b) < |w| ==> w[a + Lce(w, a, b)] != w[b + Lce(w, a, b)]
    decreases |w| - a
  {
    if a < |w| && b < |w| && w[a] == w[b] {
      var r' := Lce(w, a + 1, b + 1);
      LceAgree(w, a + 1, b + 1);
      assert w[a..a + 1 + r'] == [w[a]] + w[a + 1..a + 1 + r'];
      assert w[b..b + 1 + r'] == [w[b]] + w[b + 1..b + 1 + r'];
    }
  }

  /** Equal slices agree at every offset. */
  lemma SliceAgree(w: seq<byte>, a: nat, b: nat, l: nat, k: nat)
    requires a + l <= |w| && b + l <= |w| && w[a..a + l] == w[b..b + l] && k < l
    ensures w[a + k] == w[b + k]
  {
    assert w[a..a + l][k] == w[b..b + l][k];
  }

  /** The common prefix is as long as the first disagreement says. */
  lemma {:induction false} LceExact(w: seq<byte>, a: nat, b: nat, l: nat)
    requires a + l <= |w| && b + l <= |w|
    requires w[a..a + l] == w[b..b + l]
    requires a + l == |w| || b + l == |w| || w[a + l] != w[b + l]
    ensures Lce(w, a, b) == l
  {
    var r := Lce(w, a, b);
    LceAgree(w, a, b);
    if r < l {
      SliceAgree(w, a, b, l, r);
    } else if r > l {
      SliceAgree(w, a, b, r, l);
    }
  }

  lemma LceSymmetric(w: seq<byte>, a: nat, b: nat)
    requires a <= |w| && b <= |w|
    ensures Lce(w, a, b) == Lce(w, b, a)
  {
    LceAgree(w, a, b);
    LceExact(w, b, a, Lce(w, a, b));
  }

  /** Past a common prefix of length l, suffix a ends first or has the smaller byte. */
  predicate FirstSmaller(w: seq<byte>, a: nat, b: nat, l: nat)
  {
    (a + l == |w| && b + l < |w|) || (a + l < |w| && b + l < |w| && w[a + l] < w[b + l])
  }

  /** Suffix a strictly precedes suffix b; a proper prefix comes first. */
  predicate Less(w: seq<byte>, a: nat, b: nat)
    requires a <= |w| && b <= |w|
  {
    FirstSmaller(w, a, b, Lce(w, a, b))
  }

  /** A common prefix followed by a smaller byte (or an end) decides the order. */
  lemma LessWitness(w: seq<byte>, a: nat, b: nat, l: nat)
    requires a + l <= |w| && b + l <= |w| && w[a..a + l] == w[b..b + l]
    requires FirstSmaller(w, a, b, l)
    ensures Lce(w, a, b) == l && Less(w, a, b)
  {
    LceExact(w, a, b, l);
  }

  /** A common prefix of length l is one of every shorter length too. */
  lemma AgreeShorter(w: seq<byte>, a: nat, b: nat, l: nat, m: nat)
    requires a + l <= |w| && b + l <= |w| && w[a..a + l] == w[b..b + l] && m <= l
    ensures w[a..a + m] == w[b..b + m]
  {
    assert w[a..a + m] == w[a..a + l][..m];
    assert w[b..b + m] == w[b..b + l][..m];
  }

  lemma LessAsymmetric(w: seq<byte>, a: nat, b: nat)
    requires a <= |w| && b <= |w|
    ensures Less(w, a, b) ==> !Less(w, b, a)
    ensures !Less(w, a, a)
  {
    LceSymmetric(w, a, b);
  }

  /** Transitivity, stated on explicit common-prefix lengths. */
  lemma FirstSmallerTransitive(w: seq<byte>, a: nat, b: nat, c: nat, l1: nat, l2: nat)
    requires a + l1 <= |w| && b + l1 <= |w| && w[a..a + l1] == w[b..b + l1] && FirstSmaller(w, a, b, l1)
    requires b + l2 <= |w| && c + l2 <= |w| && w[b..b + l2] == w[c..c + l2] && FirstSmaller(w, b, c, l2)
    ensures var m := if l1 < l2 then l1 else l2;
      a + m <= |w| && c + m <= |w| && w[a..a + m] == w[c..c + m] && FirstSmaller(w, a, c, m)
  {
    if l1 < l2 {
      AgreeShorter(w, b, c, l2, l1);
      SliceAgree(w, b, c, l2, l1);
    } else if l2 < l1 {
      AgreeShorter(w, a, b, l1, l2);
      SliceAgree(w, a, b, l1, l2);
    }
  }

  lemma LessTransitive(w: seq<byte>, a: nat, b: nat, c: nat)
    requires a <= |w| && b <= |w| && c <= |w|
    requires Less(w, a, b) && Less(w, b, c)
    ensures Less(w, a, c)
  {
    var l1, l2 := Lce(w, a, b), Lce(w, b, c);
    LceAgree(w, a, b);
    LceAgree(w, b, c);
    FirstSmallerTransitive(w, a, b, c, l1, l2);
    LessWitness(w, a, c, if l1 < l2 then l1 else l2);
  }

  /** The core of LceBetween, on explicit lengths: b cannot split from c before a does. */
  lemma BetweenCore(w: seq<byte>, a: nat, b: nat, c: nat, l: nat, l1: nat, l2: nat)
    requires a + l <= |w| && c + l <= |w| && w[a..a + l] == w[c..c + l]
    requires a + l1 <= |w| && b + l1 <= |w| && w[a..a + l1] == w[b..b + l1] && FirstSmaller(w, a, b, l1)
    requires b + l2 <= |w| && c + l2 <= |w| && w[b..b + l2] == w[c..c + l2] && FirstSmaller(w, b, c, l2)
    ensures l2 >= l
  {
    if l2 < l {
      // a agrees with c where b and c first differ, which would put b after a
      SliceAgree(w, a, c, l, l2);
      if l1 < l2 {
        SliceAgree(w, b, c, l2, l1);
        SliceAgree(w, a, c, l, l1);
      } else if l2 < l1 {
        SliceAgree(w, a, b, l1, l2);
      }
    }
  }

  /**
   * A suffix between two others in the order shares at least as long a
   * prefix with the larger one as the smaller one does.
   */
  lemma LceBetween(w: seq<byte>, a: nat, b: nat, c: nat)
    requires a <= |w| && b <= |w| && c <= |w|
    requires Less(w, a, b) && Less(w, b, c)
    ensures Lce(w, b, c) >= Lce(w, a, c)
  {
    LceAgree(w, a, c);
    LceAgree(w, a, b);
    LceAgree(w, b, c);
    BetweenCore(w, a, b, c, Lce(w, a, c), Lce(w, a, b), Lce(w, b, c));
  }

  /** Dropping a shared first byte keeps the order and shortens the common prefix by one. */
  lemma LessShift(w: seq<byte>, a: nat, b: nat)
    requires a <= |w| && b <= |w|
    requires Less(w, a, b) && Lce(w, a, b) >= 1
    ensures a + 1 <= |w| && b + 1 <= |w|
    ensures Less(w, a + 1, b + 1) && Lce(w, a + 1, b + 1) == Lce(w, a, b) - 1
  {
  }

  /** sa lists each of 0..n-1 exactly once. */
  ghost predicate IsPermutation(sa: seq<int>, n: nat)
  {
    && |sa| == n
    && (forall i :: 0 <= i < n ==> 0 <= sa[i] < n)
    && (forall i, j :: 0 <= i < j < n ==> sa[i] != sa[j])
    && (forall p :: 0 <= p < n ==> p in sa)
  }

  /** sa is the suffix array of w: a permutation of its positions in suffix order. */
  ghost predicate IsSuffixArray(w: seq<byte>, sa: seq<int>)
  {
    && IsPermutation(sa, |w|)
    && (forall i :: 1 <= i < |sa| ==> Less(w, sa[i - 1], sa[i]))
  }

  /** The rank of position p: where it stands in sa. */
  ghost function Rank(sa: seq<int>, p: nat): (k: nat)
    requires IsPermutation(sa, |sa|) && p < |sa|
    ensures k < |sa| && sa[k] == p
    ensures forall j :: 0 <= j < |sa| && sa[j] == p ==> j == k
  {
    assert p in sa;
    var k :| 0 <= k < |sa| && sa[k] == p;
    k
  }

  /** Φ: the position of the suffix ranked just before that of p, or -1 for the first one. */
  ghost function Phi(sa: seq<int>, p: nat): (r: int)
    requires IsPermutation(sa, |sa|) && p < |sa|
    ensures -1 <= r < |sa| && r != p
  {
    var k := Rank(sa, p);
    if k == 0 then -1 else sa[k - 1]
  }

  lemma {:induction false} SortedLess(w: seq<byte>, sa: seq<int>, i: nat, j: nat)
    requires IsSuffixArray(w, sa) && i < j < |sa|
    ensures Less(w, sa[i], sa[j])
    decreases j - i
  {
    if i + 1 < j {
      SortedLess(w, sa, i, j - 1);
      LessTransitive(w, sa[i], sa[j - 1], sa[j]);
    }
  }

  /** The order of two suffixes decides the order of their ranks. */
  lemma RankOrder(w: seq<byte>, sa: seq<int>, i: nat, j: nat)
    requires IsSuffixArray(w, sa) && i < |sa| && j < |sa|
    requires Less(w, sa[i], sa[j])
    ensures i < j
  {
    LessAsymmetric(w, sa[j], sa[i]);
    if j < i {
      SortedLess(w, sa, j, i);
    }
  }

  /**
   * Kasai's observation, the reason the running length of the permuted-LCP
   * loop may start from the previous value minus one: the common prefix of
   * position i + 1 with its predecessor is at most one shorter than that of
   * i, and a position whose common prefix is at least 2 is followed by one
   * that has a predecessor.
   */
  lemma PermutedLcpStep(w: seq<byte>, sa: seq<int>, i: nat)
    requires IsSuffixArray(w, sa) && i + 1 < |w| && Phi(sa, i) != -1
    ensures Lce(w, i, Phi(sa, i)) >= 2 ==> Phi(sa, i + 1) != -1
    ensures Phi(sa, i + 1) != -1 ==> Lce(w, i + 1, Phi(sa, i + 1)) + 1 >= Lce(w, i, Phi(sa, i))
  {
    var x := Phi(sa, i);
    if Lce(w, i, x) >= 2 {
      LceSymmetric(w, i, x);
      assert Less(w, x, i) by {
        var ri := Rank(sa, i);
        assert sa[ri - 1] == x;
      }
      LessShift(w, x, i);
      var rx1, ri1 := Rank(sa, x + 1), Rank(sa, i + 1);
      RankOrder(w, sa, rx1, ri1);
      NeighbourLce(w, sa, rx1, ri1);
      LceSymmetric(w, x + 1, i + 1);
      LceSymmetric(w, sa[ri1 - 1], i + 1);
    }
  }

  /** In a sorted suffix array the neighbour just before rank j shares the longest prefix with it. */
  lemma NeighbourLce(w: seq<byte>, sa: seq<int>, k: nat, j: nat)
    requires IsSuffixArray(w, sa) && k < j < |sa|
    ensures Lce(w, sa[j - 1], sa[j]) >= Lce(w, sa[k], sa[j])
  {
    if k < j - 1 {
      SortedLess(w, sa, k, j - 1);
      LceBetween(w, sa[k], sa[j - 1], sa[j]);
    }
  }
}
