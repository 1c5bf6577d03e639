/** Small shared vocabulary: an optional value, reals extended with +infinity,
    index ranges and sums. */
module Common {

  datatype Option<T> = None | Some(value: T)

  /** A numpy 2-d float array, row by row. */
  type Mat = seq<seq<real>>

  /** A float that may be numpy's `inf`: the +infinity written on the diagonal
      of the neighbor-joining criterion, and the start value of running minima. */
  datatype Ext = Fin(v: real) | Inf

  /** Strict order of extended reals; `Inf` is below nothing. */
  predicate Less(a: Ext, b: Ext)
  {
    match a
    case Inf => false
    case Fin(x) => b.Inf? || x < b.v
  }

  /** `xrange(lo, hi)`. */
  function Range(lo: nat, hi: nat): (r: seq<nat>)
    decreases hi - lo
    ensures |r| == if lo <= hi then hi - lo else 0
    ensures forall k :: 0 <= k < |r| ==> r[k] == lo + k
  {
    if lo >= hi then [] else [lo] + Range(lo + 1, hi)
  }

  predicate Distinct<T(==)>(s: seq<T>)
  {
    forall i, j :: 0 <= i < j < |s| ==> s[i] != s[j]
  }

  /** Sum of a sequence of reals, left to right. */
  function Sum(s: seq<real>): real
  {
    if s == [] then 0.0 else Sum(s[..|s| - 1]) + s[|s| - 1]
  }

  /** Sum of a sequence of integers, left to right. */
  function SumInt(s: seq<int>): int
  {
    if s == [] then 0 else SumInt(s[..|s| - 1]) + s[|s| - 1]
  }

  function Min(a: int, b: int): int { if a <= b then a else b }

  function Max(a: int, b: int): int { if a >= b then a else b }

  /** Every index of `Range(0, n)` occurs exactly once in a sequence whose
      multiset is that of `Range(0, n)`. */
  lemma {:induction false} RangeMultiset(n: nat, y: int)
    ensures multiset(Range(0, n))[y] == if 0 <= y < n then 1 else 0
  {
    RangeCount(0, n, y);
  }

  lemma {:induction false} RangeCount(lo: nat, hi: nat, y: int)
    decreases hi - lo
    ensures multiset(Range(lo, hi))[y] == if lo <= y < hi then 1 else 0
  {
    if lo < hi {
      assert Range(lo, hi) == [lo] + Range(lo + 1, hi);
      RangeCount(lo + 1, hi, y);
    }
  }

  lemma RangeSnoc(lo: nat, hi: nat)
    requires lo <= hi
    ensures Range(lo, hi + 1) == Range(lo, hi) + [hi]
  {
  }

  lemma RangeDistinct(lo: nat, hi: nat)
    ensures Distinct(Range(lo, hi))
  {
  }

  /** A sequence with the multiset of `Range(0, n)` lists 0..n-1 once each. */
  lemma PermutationOfRange(s: seq<nat>, n: nat)
    requires multiset(s) == multiset(Range(0, n))
    ensures |s| == n
    ensures Distinct(s)
    ensures forall y :: 0 <= y < n ==> y in s
    ensures forall k :: 0 <= k < |s| ==> s[k] < n
  {
    assert |s| == |multiset(s)| == |multiset(Range(0, n))| == n;
    forall y | 0 <= y < n ensures y in s {
      RangeMultiset(n, y);
      assert multiset(s)[y] == 1;
    }
    forall k | 0 <= k < |s| ensures s[k] < n {
      RangeMultiset(n, s[k]);
      assert s[k] in multiset(s);
    }
    forall i, j | 0 <= i < j < |s| ensures s[i] != s[j] {
      var y := s[i];
      RangeMultiset(n, y);
      assert s == s[..i] + [s[i]] + s[i+1..j] + [s[j]] + s[j+1..];
      assert multiset(s)[y] >= 1 + (if s[j] == y then 1 else 0);
    }
  }
}
