/** Python's `sorted` on lists of sample ids. */
module Sorting {

  predicate SortedSeq(s: seq<nat>)
  {
    forall i, j :: 0 <= i < j < |s| ==> s[i] <= s[j]
  }

  lemma SortedCons(a: nat, t: seq<nat>)
    requires SortedSeq(t) && forall k :: 0 <= k < |t| ==> a <= t[k]
    ensures SortedSeq([a] + t)
  {
    var r := [a] + t;
    forall i, j | 0 <= i < j < |r| ensures r[i] <= r[j] {
      assert r[j] == t[j - 1];
      if i > 0 {
        assert r[i] == t[i - 1];
      }
    }
  }

  /** Inserts x before the first element not below it. */
  function Insert(x: nat, s: seq<nat>): (r: seq<nat>)
    ensures multiset(r) == multiset(s) + multiset{x}
  {
    if s == [] || x <= s[0] then [x] + s
    else
      assert s == [s[0]] + s[1..];
      [s[0]] + Insert(x, s[1..])
  }

  lemma {:induction false} InsertSorted(x: nat, s: seq<nat>)
    requires SortedSeq(s)
    ensures SortedSeq(Insert(x, s))
    ensures forall k :: 0 <= k < |Insert(x, s)| ==> Insert(x, s)[k] == x || (s != [] && s[0] <= Insert(x, s)[k])
  {
    if s == [] || x <= s[0] {
      SortedCons(x, s);
    } else {
      InsertSorted(x, s[1..]);
      SortedCons(s[0], Insert(x, s[1..]));
    }
  }

  /** `sorted(s)`: the ascending permutation of s. */
  function Sort(s: seq<nat>): (r: seq<nat>)
    ensures SortedSeq(r) && multiset(r) == multiset(s)
  {
    if s == [] then []
    else
      assert s == [s[0]] + s[1..];
      InsertSorted(s[0], Sort(s[1..]));
      Insert(s[0], Sort(s[1..]))
  }

  lemma SortedHeads(a: seq<nat>, b: seq<nat>)
    requires SortedSeq(a) && SortedSeq(b) && multiset(a) == multiset(b) && a != []
    ensures b != [] && a[0] == b[0]
  {
    assert a[0] in multiset(b);
    assert b[0] in multiset(a);
    var i :| 0 <= i < |b| && b[i] == a[0];
    var j :| 0 <= j < |a| && a[j] == b[0];
    assert b[0] <= b[i] && a[0] <= a[j];
  }

  lemma TailMultiset(a: seq<nat>)
    requires a != []
    ensures multiset(a[1..]) == multiset(a) - multiset{a[0]}
  {
    assert a == [a[0]] + a[1..];
  }

  /** There is one ascending arrangement of a multiset, so two lists sort to
      the same list exactly when they hold the same ids. */
  lemma {:induction false} SortedUnique(a: seq<nat>, b: seq<nat>)
    requires SortedSeq(a) && SortedSeq(b) && multiset(a) == multiset(b)
    ensures a == b
    decreases |a|
  {
    if a == [] {
      assert |b| == |multiset(b)| == 0;
    } else {
      SortedHeads(a, b);
      TailMultiset(a);
      TailMultiset(b);
      SortedUnique(a[1..], b[1..]);
      assert a == [a[0]] + a[1..] && b == [b[0]] + b[1..];
    }
  }

  lemma SortSameIffSameIds(a: seq<nat>, b: seq<nat>)
    ensures Sort(a) == Sort(b) <==> multiset(a) == multiset(b)
  {
    if multiset(a) == multiset(b) {
      SortedUnique(Sort(a), Sort(b));
    }
  }
}
