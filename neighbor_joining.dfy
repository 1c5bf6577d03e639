/** Neighbor joining as `make_D` and `neighbor_joining` in bin/tree_est.py do
    it: D is a (2n-2)x(2n-2) real matrix rewritten in place, `internals` is
    the list of active labels, and the tree is an arena whose root (stored at
    index Slots(n)) starts as a star over the n leaves. */
module NeighborJoining {
  import opened Common
  import opened Arena

  /** Node labels used by the joining: `len(D)` labels for n >= 2 (leaves
      0..n-1, joins n..2n-3); the root is stored at index Slots(n). */
  function Slots(n: nat): nat
  {
    if n < 2 then n else 2 * n - 2
  }

  /** Python's `int()` on a float: truncation toward zero (not Floor). */
  function Trunc(v: real): (r: int)
    ensures 0.0 <= v ==> r as real <= v < r as real + 1.0
    ensures v < 0.0 ==> r as real - 1.0 < v <= r as real
  {
    if v >= 0.0 then v.Floor else -((-v).Floor)
  }

  ghost predicate Symmetric(D: array2<real>)
    reads D
  {
    D.Length0 == D.Length1 &&
    forall x, y :: 0 <= x < D.Length0 && 0 <= y < D.Length0 ==> D[x, y] == D[y, x]
  }

  ghost predicate ZeroDiagonal(D: array2<real>)
    reads D
  {
    D.Length0 == D.Length1 &&
    forall x :: 0 <= x < D.Length0 ==> D[x, x] == 0.0
  }

  /** `make_D`: a zero (2m-2)x(2m-2) matrix whose top-left m x m block holds
      the pairwise differences. `pd[i][j]` stands for `pairwise_diff(PLs, i, j)`
      and is read only for i < j. */
  method MakeD(m: nat, pd: seq<seq<real>>) returns (D: array2<real>)
    requires 1 <= m
    requires |pd| == m && forall i :: 0 <= i < m ==> |pd[i]| == m
    ensures fresh(D) && D.Length0 == 2 * m - 2 && D.Length1 == 2 * m - 2
    ensures forall x, y :: 0 <= x < D.Length0 && 0 <= y < D.Length1 ==>
      D[x, y] == (if x < y < m then pd[x][y] else if y < x < m then pd[y][x] else 0.0)
    ensures Symmetric(D) && ZeroDiagonal(D)
  {
    D := new real[2 * m - 2, 2 * m - 2]((x, y) => 0.0);
    var i := 0;
    while i < m
      invariant 0 <= i <= m
      invariant forall x, y :: 0 <= x < D.Length0 && 0 <= y < D.Length1 ==>
        D[x, y] == (if x < y < m && x < i then pd[x][y] else if y < x < m && y < i then pd[y][x] else 0.0)
    {
      var j := i + 1;
      while j < m
        invariant i + 1 <= j <= m
        invariant forall x, y :: 0 <= x < D.Length0 && 0 <= y < D.Length1 ==>
          D[x, y] == (if x < y < m && (x < i || (x == i && y < j)) then pd[x][y]
                      else if y < x < m && (y < i || (y == i && x < j)) then pd[y][x]
                      else 0.0)
      {
        D[i, j] := pd[i][j];
        D[j, i] := D[i, j];
        j := j + 1;
      }
      i := i + 1;
    }
  }

  /** `d = D[internals[:,None], internals]`: a copy of the active block. */
  function Gather(D: array2<real>, ix: seq<nat>): (d: seq<seq<real>>)
    reads D
    requires forall k :: 0 <= k < |ix| ==> ix[k] < D.Length0 && ix[k] < D.Length1
    ensures |d| == |ix| && forall a :: 0 <= a < |ix| ==> |d[a]| == |ix|
    ensures forall a, b :: 0 <= a < |ix| && 0 <= b < |ix| ==> d[a][b] == D[ix[a], ix[b]]
  {
    seq(|ix|, a requires 0 <= a < |ix| reads D =>
      seq(|ix|, b requires 0 <= b < |ix| reads D => D[ix[a], ix[b]]))
  }

  ghost predicate Square(d: seq<seq<real>>)
  {
    forall a :: 0 <= a < |d| ==> |d[a]| == |d|
  }

  /** `u = d.sum(axis=1)/(m-2)`. */
  function Means(d: seq<seq<real>>): (u: seq<real>)
    requires Square(d) && |d| > 2
    ensures |u| == |d|
  {
    seq(|d|, a requires 0 <= a < |d| => Sum(d[a]) / (|d| - 2) as real)
  }

  /** The neighbor-joining criterion as the source fills it: computed for
      i < j, mirrored for i > j, +infinity on the diagonal. */
  function QEntry(d: seq<seq<real>>, u: seq<real>, i: nat, j: nat): Ext
    requires Square(d) && |u| == |d| && i < |d| && j < |d|
  {
    if i == j then Inf
    else if i < j then Fin(d[i][j] - u[i] - u[j])
    else Fin(d[j][i] - u[j] - u[i])
  }

  lemma QEntrySymmetric(d: seq<seq<real>>, u: seq<real>, i: nat, j: nat)
    requires Square(d) && |u| == |d| && i < |d| && j < |d|
    ensures QEntry(d, u, i, j) == QEntry(d, u, j, i)
    ensures QEntry(d, u, i, j).Inf? <==> i == j
  {
  }

  /** The Q loop over `itertools.combinations` and `np.fill_diagonal(Q, inf)`. */
  method BuildQ(d: seq<seq<real>>, u: seq<real>) returns (Q: array2<Ext>)
    requires Square(d) && |u| == |d|
    ensures fresh(Q) && Q.Length0 == |d| && Q.Length1 == |d|
    ensures forall a, b :: 0 <= a < |d| && 0 <= b < |d| ==> Q[a, b] == QEntry(d, u, a, b)
  {
    var m := |d|;
    Q := new Ext[m, m]((a, b) => Fin(0.0));
    var i := 0;
    while i < m
      invariant 0 <= i <= m
      invariant forall a, b :: 0 <= a < m && 0 <= b < m ==>
        Q[a, b] == (if a != b && Min(a, b) < i then QEntry(d, u, a, b) else Fin(0.0))
    {
      var j := i + 1;
      while j < m
        invariant i + 1 <= j <= m
        invariant forall a, b :: 0 <= a < m && 0 <= b < m ==>
          Q[a, b] == (if a != b && (Min(a, b) < i || (Min(a, b) == i && Max(a, b) < j))
                      then QEntry(d, u, a, b) else Fin(0.0))
      {
        Q[i, j] := Fin(d[i][j] - u[i] - u[j]);
        Q[j, i] := Q[i, j];
        j := j + 1;
      }
      i := i + 1;
    }
    var k := 0;
    while k < m
      invariant 0 <= k <= m
      invariant forall a, b :: 0 <= a < m && 0 <= b < m ==>
        Q[a, b] == (if a != b || a < k then QEntry(d, u, a, b) else Fin(0.0))
    {
      Q[k, k] := Inf;
      k := k + 1;
    }
  }

  /** (i, j) is where `np.unravel_index(Q.argmin(), Q.shape)` lands: no entry
      is smaller, and every entry before it in row-major order is larger. */
  ghost predicate FirstMin(Q: array2<Ext>, i: nat, j: nat)
    reads Q
  {
    i < Q.Length0 && j < Q.Length1 &&
    (forall a, b :: 0 <= a < Q.Length0 && 0 <= b < Q.Length1 ==> !Less(Q[a, b], Q[i, j])) &&
    (forall a, b :: 0 <= a < Q.Length0 && 0 <= b < Q.Length1 && (a < i || (a == i && b < j)) ==>
      Less(Q[i, j], Q[a, b]))
  }

  /** `Q.argmin()`: a row-major scan keeping the first strict minimum. */
  method ArgminQ(Q: array2<Ext>) returns (i: nat, j: nat)
    requires Q.Length0 > 0 && Q.Length1 > 0
    ensures FirstMin(Q, i, j)
  {
    i, j := 0, 0;
    var a := 0;
    while a < Q.Length0
      invariant 0 <= a <= Q.Length0 && i < Q.Length0 && j < Q.Length1
      invariant a == 0 ==> i == 0 && j == 0
      invariant a > 0 ==> i < a
      invariant forall x, y :: 0 <= x < a && 0 <= y < Q.Length1 ==> !Less(Q[x, y], Q[i, j])
      invariant forall x, y :: 0 <= x < Q.Length0 && 0 <= y < Q.Length1 && (x < i || (x == i && y < j)) ==>
        Less(Q[i, j], Q[x, y])
    {
      var b := 0;
      while b < Q.Length1
        invariant 0 <= b <= Q.Length1 && i < Q.Length0 && j < Q.Length1
        invariant i < a || (i == a && j < Max(b, 1))
        invariant forall x, y :: 0 <= x < Q.Length0 && 0 <= y < Q.Length1 && (x < a || (x == a && y < b)) ==>
          !Less(Q[x, y], Q[i, j])
        invariant forall x, y :: 0 <= x < Q.Length0 && 0 <= y < Q.Length1 && (x < i || (x == i && y < j)) ==>
          Less(Q[i, j], Q[x, y])
      {
        if Less(Q[a, b], Q[i, j]) {
          i, j := a, b;
        }
        b := b + 1;
      }
      a := a + 1;
    }
  }

  /** The pair the criterion picks: a first minimum of QEntry in row-major order. */
  ghost predicate ArgminOf(d: seq<seq<real>>, u: seq<real>, i: nat, j: nat)
    requires Square(d) && |u| == |d|
  {
    i < |d| && j < |d| &&
    (forall a, b :: 0 <= a < |d| && 0 <= b < |d| ==> !Less(QEntry(d, u, a, b), QEntry(d, u, i, j))) &&
    (forall a, b :: 0 <= a < |d| && 0 <= b < |d| && (a < i || (a == i && b < j)) ==>
      Less(QEntry(d, u, i, j), QEntry(d, u, a, b)))
  }

  /** With at least two active nodes the pick lies strictly above the
      diagonal: off-diagonal entries are finite, and the mirror image of a
      pick below the diagonal would come first in row-major order. */
  lemma ArgminAboveDiagonal(d: seq<seq<real>>, u: seq<real>, i: nat, j: nat)
    requires Square(d) && |u| == |d| && |d| >= 2
    requires ArgminOf(d, u, i, j)
    ensures i < j
  {
    assert !Less(QEntry(d, u, 0, 1), QEntry(d, u, i, j));
    QEntrySymmetric(d, u, i, j);
  }

  /** The branch lengths to the joined pair; they add up to d[i][j]. */
  function Branches(d: seq<seq<real>>, u: seq<real>, i: nat, j: nat): (v: (real, real))
    requires Square(d) && |u| == |d| && i < |d| && j < |d|
    ensures v.0 + v.1 == d[i][j]
    ensures v.0 - v.1 == u[i] - u[j]
  {
    ((d[i][j] + u[i] - u[j]) / 2.0, (d[i][j] + u[j] - u[i]) / 2.0)
  }

  /** The distance written from the new node to active position k: the pair
      gets its branch length, the rest `d[i,k]+d[j,k]-d[i,j]` (not halved). */
  function NewDistance(d: seq<seq<real>>, u: seq<real>, i: nat, j: nat, k: nat): real
    requires Square(d) && |u| == |d| && i < |d| && j < |d| && k < |d|
  {
    if k == i then Branches(d, u, i, j).0
    else if k == j then Branches(d, u, i, j).1
    else d[i][k] + d[j][k] - d[i][j]
  }

  /** `np.delete(s, [i, j])`. */
  function RemoveTwo(s: seq<nat>, i: nat, j: nat): (r: seq<nat>)
    requires i < j < |s|
    ensures |r| == |s| - 2
    ensures forall k :: 0 <= k < |r| ==> r[k] == s[if k < i then k else if k < j - 1 then k + 1 else k + 2]
  {
    s[..i] + s[i + 1..j] + s[j + 1..]
  }

  /** Python's `list.remove(v)`: drops the first occurrence. */
  function Without(s: seq<nat>, v: nat): seq<nat>
  {
    if s == [] then []
    else if s[0] == v then s[1..]
    else [s[0]] + Without(s[1..], v)
  }

  lemma {:induction false} WithoutAppend(a: seq<nat>, b: seq<nat>, v: nat)
    requires v !in a
    ensures Without(a + b, v) == a + Without(b, v)
    decreases |a|
  {
    if a != [] {
      assert (a + b)[1..] == a[1..] + b;
      WithoutAppend(a[1..], b, v);
    } else {
      assert a + b == b;
    }
  }

  lemma WithoutAt(s: seq<nat>, i: nat)
    requires i < |s| && Distinct(s)
    ensures Without(s, s[i]) == s[..i] + s[i + 1..]
  {
    NotBefore(s, i);
    assert s == s[..i] + ([s[i]] + s[i + 1..]);
    WithoutSkips(s[..i], s[i], s[i + 1..]);
  }

  lemma NotBefore(s: seq<nat>, i: nat)
    requires i < |s| && Distinct(s)
    ensures s[i] !in s[..i]
  {
    forall k | 0 <= k < i ensures s[..i][k] != s[i] {
      assert s[..i][k] == s[k];
    }
  }

  lemma WithoutSkips(pre: seq<nat>, v: nat, post: seq<nat>)
    requires v !in pre
    ensures Without(pre + ([v] + post), v) == pre + post
  {
    WithoutAppend(pre, [v] + post, v);
    assert ([v] + post)[1..] == post;
  }

  lemma DistinctSuffix(s: seq<nat>, i: nat)
    requires i <= |s| && Distinct(s)
    ensures Distinct(s[i..])
  {
    var b := s[i..];
    forall p, q | 0 <= p < q < |b| ensures b[p] != b[q] {
      assert b[p] == s[p + i] && b[q] == s[q + i];
    }
  }

  lemma WithoutInSuffix(s: seq<nat>, h: nat, j: nat)
    requires h <= j < |s| && Distinct(s)
    ensures Without(s[h..], s[j]) == s[h..j] + s[j + 1..]
  {
    var b := s[h..];
    assert b[j - h] == s[j];
    DistinctSuffix(s, h);
    WithoutAt(b, j - h);
    assert b[..j - h] == s[h..j] && b[j - h + 1..] == s[j + 1..];
  }

  lemma WithoutLater(s: seq<nat>, i: nat, j: nat)
    requires i < j < |s| && Distinct(s)
    ensures Without(s[..i] + s[i + 1..], s[j]) == s[..i] + s[i + 1..j] + s[j + 1..]
  {
    assert s[j] !in s[..i];
    WithoutAppend(s[..i], s[i + 1..], s[j]);
    WithoutInSuffix(s, i + 1, j);
  }

  /** Detaching the two joined nodes from the root's children list (kept
      equal to `internals`) removes exactly positions i and j. */
  lemma DetachBoth(s: seq<nat>, i: nat, j: nat)
    requires i < j < |s| && Distinct(s)
    ensures Without(Without(s, s[i]), s[j]) == RemoveTwo(s, i, j)
  {
    WithoutAt(s, i);
    WithoutLater(s, i, j);
  }

  // ------------------------------------------------------------ tree shape

  ghost predicate Ordered(kids: Kids)
  {
    forall x, k :: 0 <= x < |kids| && 0 <= k < |kids[x]| ==> kids[x][k] < x
  }

  /** Ranks of an ordered arena: each node's own index. */
  ghost predicate IdRank(rank: seq<nat>, len: nat)
  {
    |rank| == len && forall x :: 0 <= x < len ==> rank[x] == x
  }

  lemma OrderedRanked(kids: Kids, rank: seq<nat>)
    requires Ordered(kids) && IdRank(rank, |kids|)
    ensures Ranked(kids, rank)
  {
  }

  /** `init_star_tree(n)`: a root with the n leaves as children. */
  function InitStarTree(n: nat): (kids: Kids)
  {
    seq(Slots(n) + 1, x => if x == Slots(n) then Range(0, n) else [])
  }

  lemma {:induction false} LeafListPostorder(kids: Kids, rank: seq<nat>, xs: seq<nat>)
    requires Ranked(kids, rank) && InArena(kids, xs)
    requires forall i :: 0 <= i < |xs| ==> kids[xs[i]] == []
    ensures PostorderAll(kids, rank, xs) == xs && LeavesAll(kids, rank, xs) == xs
    decreases |xs|
  {
    if xs != [] {
      assert kids[xs[0]] == [];
      assert PostorderAll(kids, rank, kids[xs[0]]) == [];
      LeafListPostorder(kids, rank, xs[1..]);
    }
  }

  lemma StarTreeKids(n: nat)
    ensures |InitStarTree(n)| == Slots(n) + 1 && InitStarTree(n)[Slots(n)] == Range(0, n)
    ensures forall x :: 0 <= x < Slots(n) ==> InitStarTree(n)[x] == []
    ensures Ordered(InitStarTree(n))
  {
    var kids := InitStarTree(n);
    forall x, k | 0 <= x < |kids| && 0 <= k < |kids[x]| ensures kids[x][k] < x {
      assert x == Slots(n) && kids[x] == Range(0, n);
    }
  }

  /** The star tree: a root whose post-order is the n leaves 0..n-1 and then
      itself. */
  lemma StarTreeShape(n: nat, rank: seq<nat>)
    requires IdRank(rank, Slots(n) + 1)
    ensures Ranked(InitStarTree(n), rank)
    ensures PostorderAll(InitStarTree(n), rank, Range(0, n)) == Range(0, n)
    ensures Postorder(InitStarTree(n), rank, Slots(n)) == Range(0, n) + [Slots(n)]
    ensures n > 0 ==> Leaves(InitStarTree(n), rank, Slots(n)) == Range(0, n)
  {
    var kids := InitStarTree(n);
    StarTreeKids(n);
    OrderedRanked(kids, rank);
    LeafListPostorder(kids, rank, Range(0, n));
  }

  /** The layout between joins: slot R = Slots(n) is the root, whose
      children are exactly `internals`; with c = 2n - |internals| labels below
      c are in use (leaves below n, joined pairs from n on) and slots from c on
      are still empty. */
  ghost predicate NJLayout(n: nat, kids: Kids, rank: seq<nat>, ix: seq<nat>)
  {
    var R := Slots(n);
    |ix| <= 2 * n && var c := 2 * n - |ix|;
    |kids| == R + 1 && kids[R] == ix && n <= c <= R &&
    Distinct(ix) && (forall t :: 0 <= t < |ix| ==> ix[t] < c) &&
    (forall x :: 0 <= x < R ==>
      if n <= x < c then |kids[x]| == 2 && kids[x][0] < x && kids[x][1] < x && kids[x][0] != kids[x][1]
      else kids[x] == []) &&
    IdRank(rank, R + 1) && Ranked(kids, rank)
  }

  /** ... and every label in use lies in the subtree of exactly one active node. */
  ghost predicate NJShape(n: nat, kids: Kids, rank: seq<nat>, ix: seq<nat>)
  {
    NJLayout(n, kids, rank, ix) &&
    multiset(PostorderAll(kids, rank, ix)) == multiset(Range(0, 2 * n - |ix|))
  }

  /** `neighbor_joining` is called on `init_star_tree(n)` and `arange(n)`. */
  lemma StarTreeStarts(n: nat, rank: seq<nat>)
    requires IdRank(rank, Slots(n) + 1)
    ensures NJShape(n, InitStarTree(n), rank, Range(0, n))
  {
    StarTreeKids(n);
    StarTreeShape(n, rank);
    RangeDistinct(0, n);
  }

  /** s without position i. */
  function Drop(s: seq<nat>, i: nat): seq<nat>
    requires i < |s|
  {
    s[..i] + s[i + 1..]
  }

  lemma RemoveTwoDrops(s: seq<nat>, i: nat, j: nat)
    requires i < j < |s|
    ensures Drop(s, j)[i] == s[i]
    ensures RemoveTwo(s, i, j) == Drop(Drop(s, j), i)
  {
    var t := Drop(s, j);
    assert t[..i] == s[..i];
    assert t[i + 1..] == s[i + 1..j] + s[j + 1..];
  }

  lemma DropPostorder(kids: Kids, rank: seq<nat>, s: seq<nat>, i: nat)
    requires Ranked(kids, rank) && InArena(kids, s) && i < |s|
    ensures multiset(PostorderAll(kids, rank, s)) ==
      multiset(PostorderAll(kids, rank, Drop(s, i))) + multiset(Postorder(kids, rank, s[i]))
  {
    assert s == s[..i] + [s[i]] + s[i + 1..];
    PostorderAllRemove(kids, rank, s[..i], s[i], s[i + 1..]);
  }

  /** Splitting the active list around the picked positions i < j. */
  lemma SplitPostorder(kids: Kids, rank: seq<nat>, ix: seq<nat>, i: nat, j: nat)
    requires Ranked(kids, rank) && InArena(kids, ix) && i < j < |ix|
    ensures multiset(PostorderAll(kids, rank, ix)) ==
      multiset(PostorderAll(kids, rank, RemoveTwo(ix, i, j))) +
      multiset(Postorder(kids, rank, ix[i])) + multiset(Postorder(kids, rank, ix[j]))
  {
    RemoveTwoDrops(ix, i, j);
    DropPostorder(kids, rank, ix, j);
    DropPostorder(kids, rank, Drop(ix, j), i);
  }

  lemma RemoveTwoBelow(rank: seq<nat>, ix: seq<nat>, i: nat, j: nat, c: nat)
    requires IdRank(rank, |rank|) && c <= |rank| && i < j < |ix|
    requires forall t :: 0 <= t < |ix| ==> ix[t] < c
    ensures forall t :: 0 <= t < |ix| - 2 ==> RemoveTwo(ix, i, j)[t] < c && rank[RemoveTwo(ix, i, j)[t]] < c
  {
  }

  /** The new node c over the picked pair adds exactly c to the post-order of
      the active nodes. */
  lemma JoinPostorder(kids: Kids, kids': Kids, rank: seq<nat>, ix: seq<nat>, i: nat, j: nat, c: nat)
    requires Ranked(kids, rank) && Ranked(kids', rank) && |kids'| == |kids|
    requires IdRank(rank, |kids|) && c < |kids| && i < j < |ix|
    requires forall t :: 0 <= t < |ix| ==> ix[t] < c
    requires forall y :: 0 <= y < |kids| && rank[y] < c ==> kids'[y] == kids[y]
    requires kids'[c] == [ix[i], ix[j]]
    ensures multiset(PostorderAll(kids', rank, RemoveTwo(ix, i, j) + [c])) ==
      multiset(PostorderAll(kids, rank, ix)) + multiset{c}
  {
    var r2 := RemoveTwo(ix, i, j);
    SplitPostorder(kids, rank, ix, i, j);
    RemoveTwoBelow(rank, ix, i, j, c);
    PostorderAllFrameBelow(kids, kids', rank, r2, c);
    NewNodePostorder(kids, kids', rank, ix[i], ix[j], c);
    PostorderAllSnoc(kids', rank, r2, c);
    MultisetJoin(PostorderAll(kids, rank, ix), PostorderAll(kids', rank, r2 + [c]),
      PostorderAll(kids, rank, r2), Postorder(kids, rank, ix[i]), Postorder(kids, rank, ix[j]), c);
  }

  lemma MultisetJoin(all: seq<nat>, joined: seq<nat>, rest: seq<nat>, pa: seq<nat>, pb: seq<nat>, c: nat)
    requires multiset(all) == multiset(rest) + multiset(pa) + multiset(pb)
    requires joined == rest + (pa + pb + [c])
    ensures multiset(joined) == multiset(all) + multiset{c}
  {
  }

  lemma NewNodePostorder(kids: Kids, kids': Kids, rank: seq<nat>, a: nat, b: nat, c: nat)
    requires Ranked(kids, rank) && Ranked(kids', rank) && |kids'| == |kids|
    requires IdRank(rank, |kids|) && a < c && b < c && c < |kids|
    requires forall y :: 0 <= y < |kids| && rank[y] < c ==> kids'[y] == kids[y]
    requires kids'[c] == [a, b]
    ensures Postorder(kids', rank, c) == Postorder(kids, rank, a) + Postorder(kids, rank, b) + [c]
  {
    PostorderFrameBelow(kids, kids', rank, a, c);
    PostorderFrameBelow(kids, kids', rank, b, c);
    assert [a, b] == [a] + [b];
    PostorderAllAppend(kids', rank, [a], [b]);
    PostorderAllOne(kids', rank, a);
    PostorderAllOne(kids', rank, b);
  }

  lemma DistinctJoin(ix: seq<nat>, i: nat, j: nat, c: nat)
    requires Distinct(ix) && i < j < |ix| && forall t :: 0 <= t < |ix| ==> ix[t] < c
    ensures Distinct(RemoveTwo(ix, i, j) + [c])
    ensures forall t :: 0 <= t < |ix| - 1 ==> (RemoveTwo(ix, i, j) + [c])[t] <= c
  {
    var r2 := RemoveTwo(ix, i, j);
    var ix' := r2 + [c];
    forall p, q | 0 <= p < q < |ix'| ensures ix'[p] != ix'[q] {
      var p' := if p < i then p else if p < j - 1 then p + 1 else p + 2;
      if q < |r2| {
        var q' := if q < i then q else if q < j - 1 then q + 1 else q + 2;
        assert ix'[p] == ix[p'] && ix'[q] == ix[q'] && p' < q';
      } else {
        assert ix'[p] == ix[p'] < c == ix'[q];
      }
    }
  }

  /** One join keeps the layout: the two picked nodes hang under the new node
      c, which replaces them among the root's children. */
  lemma JoinKeepsLayout(n: nat, kids: Kids, rank: seq<nat>, ix: seq<nat>, i: nat, j: nat)
    requires NJLayout(n, kids, rank, ix) && i < j < |ix| && |ix| > 2
    ensures var c := 2 * n - |ix|;
      NJLayout(n, kids[c := [ix[i], ix[j]]][Slots(n) := RemoveTwo(ix, i, j) + [c]], rank,
               RemoveTwo(ix, i, j) + [c])
  {
    var c := 2 * n - |ix|;
    var R := Slots(n);
    var ix' := RemoveTwo(ix, i, j) + [c];
    var kids' := kids[c := [ix[i], ix[j]]][R := ix'];
    DistinctJoin(ix, i, j, c);
    assert R == 2 * n - 2 && c < R && |ix'| == |ix| - 1 && 2 * n - |ix'| == c + 1;
    JoinRanked(kids, rank, ix, i, j, c, R, ix', kids');
    JoinSlotsFilled(n, kids, ix, i, j, c, R, ix', kids');
    LayoutIntro(n, kids', rank, ix', c + 1);
  }

  lemma LayoutIntro(n: nat, kids: Kids, rank: seq<nat>, ix: seq<nat>, c: nat)
    requires |ix| <= 2 * n && c == 2 * n - |ix|
    requires |kids| == Slots(n) + 1 && kids[Slots(n)] == ix && n <= c <= Slots(n)
    requires Distinct(ix) && forall t :: 0 <= t < |ix| ==> ix[t] < c
    requires forall x :: 0 <= x < Slots(n) ==>
      if n <= x < c then |kids[x]| == 2 && kids[x][0] < x && kids[x][1] < x && kids[x][0] != kids[x][1]
      else kids[x] == []
    requires IdRank(rank, Slots(n) + 1) && Ranked(kids, rank)
    ensures NJLayout(n, kids, rank, ix)
  {
  }

  /** Rewiring slot c to two active nodes and the root to `ix'` keeps children below parents. */
  lemma JoinRanked(kids: Kids, rank: seq<nat>, ix: seq<nat>, i: nat, j: nat, c: nat, R: nat,
                   ix': seq<nat>, kids': Kids)
    requires Ranked(kids, rank) && IdRank(rank, |kids|) && c < R < |kids| && i < j < |ix|
    requires forall t :: 0 <= t < |ix| ==> ix[t] < c
    requires forall t :: 0 <= t < |ix'| ==> ix'[t] <= c
    requires kids' == kids[c := [ix[i], ix[j]]][R := ix']
    ensures Ranked(kids', rank)
  {
    forall x, k | 0 <= x < |kids'| && 0 <= k < |kids'[x]|
      ensures kids'[x][k] < |kids'| && rank[kids'[x][k]] < rank[x]
    {
      if x == R {
        assert kids'[x][k] == ix'[k] <= c;
      } else if x == c {
        assert kids'[x][k] < c;
      } else {
        assert kids'[x] == kids[x];
      }
    }
  }

  /** After the join the slots n .. c hold binary internal nodes and the rest stay empty. */
  lemma JoinSlotsFilled(n: nat, kids: Kids, ix: seq<nat>, i: nat, j: nat, c: nat, R: nat,
                        ix': seq<nat>, kids': Kids)
    requires |kids| == R + 1 && n <= c < R && i < j < |ix| && Distinct(ix)
    requires forall t :: 0 <= t < |ix| ==> ix[t] < c
    requires forall x :: 0 <= x < R ==>
      if n <= x < c then |kids[x]| == 2 && kids[x][0] < x && kids[x][1] < x && kids[x][0] != kids[x][1]
      else kids[x] == []
    requires kids' == kids[c := [ix[i], ix[j]]][R := ix']
    ensures forall x :: 0 <= x < R ==>
      if n <= x < c + 1 then |kids'[x]| == 2 && kids'[x][0] < x && kids'[x][1] < x && kids'[x][0] != kids'[x][1]
      else kids'[x] == []
  {
    forall x | 0 <= x < R
      ensures if n <= x < c + 1 then
          |kids'[x]| == 2 && kids'[x][0] < x && kids'[x][1] < x && kids'[x][0] != kids'[x][1]
        else kids'[x] == []
    {
      if x == c {
        assert kids'[x] == [ix[i], ix[j]] && ix[i] != ix[j];
      } else {
        assert kids'[x] == kids[x];
      }
    }
  }

  lemma JoinKeepsShape(n: nat, kids: Kids, rank: seq<nat>, ix: seq<nat>, i: nat, j: nat,
                        kids': Kids, ix': seq<nat>)
    requires NJShape(n, kids, rank, ix) && i < j < |ix| && |ix| > 2
    requires ix' == RemoveTwo(ix, i, j) + [2 * n - |ix|]
    requires kids' == kids[2 * n - |ix| := [ix[i], ix[j]]][Slots(n) := ix']
    ensures NJShape(n, kids', rank, ix')
  {
    var c := 2 * n - |ix|;
    JoinKeepsLayout(n, kids, rank, ix, i, j);
    forall y | 0 <= y < c
      ensures kids'[y] == kids[y]
    {
    }
    JoinKeepsCover(kids, rank, ix, i, j, c, kids');
    assert 2 * n - |ix'| == c + 1;
  }

  /** The join adds exactly the new label c to the labels under the active nodes. */
  lemma JoinKeepsCover(kids: Kids, rank: seq<nat>, ix: seq<nat>, i: nat, j: nat, c: nat, kids': Kids)
    requires Ranked(kids, rank) && Ranked(kids', rank) && |kids'| == |kids|
    requires IdRank(rank, |kids|) && c < |kids| && i < j < |ix|
    requires forall t :: 0 <= t < |ix| ==> ix[t] < c
    requires forall y :: 0 <= y < c ==> kids'[y] == kids[y]
    requires kids'[c] == [ix[i], ix[j]]
    requires multiset(PostorderAll(kids, rank, ix)) == multiset(Range(0, c))
    ensures multiset(PostorderAll(kids', rank, RemoveTwo(ix, i, j) + [c])) == multiset(Range(0, c + 1))
  {
    forall y | 0 <= y < |kids| && rank[y] < c
      ensures kids'[y] == kids[y]
    {
      assert rank[y] == y;
    }
    JoinPostorder(kids, kids', rank, ix, i, j, c);
    CoverSnoc(PostorderAll(kids, rank, ix), PostorderAll(kids', rank, RemoveTwo(ix, i, j) + [c]), c);
  }

  lemma CoverSnoc(a: seq<nat>, b: seq<nat>, c: nat)
    requires multiset(a) == multiset(Range(0, c)) && multiset(b) == multiset(a) + multiset{c}
    ensures multiset(b) == multiset(Range(0, c + 1))
  {
    RangeSnoc(0, c);
    calc {
      multiset(b);
      multiset(Range(0, c)) + multiset{c};
      multiset(Range(0, c) + [c]);
    }
  }

  /** At the end the active nodes are the root's two (for n = 1, one)
      children and every slot is used: one tree over all 2n-1 nodes. */
  lemma FinalTree(n: nat, kids: Kids, rank: seq<nat>, ix: seq<nat>)
    requires 1 <= n && NJShape(n, kids, rank, ix) && |ix| <= 2
    ensures IsTree(kids, rank, Slots(n))
  {
    assert 2 * n - |ix| == Slots(n);
    RootCovers(kids, rank, Slots(n));
  }

  lemma FinalLayout(n: nat, kids: Kids, rank: seq<nat>, ix: seq<nat>)
    requires 1 <= n && NJLayout(n, kids, rank, ix) && |ix| <= 2
    ensures n >= 2 ==> Binary(kids) && |kids| == 2 * n - 1 && |ix| == 2
    ensures forall x :: 0 <= x < |kids| ==> (kids[x] == [] <==> x < n)
  {
    assert 2 * n - |ix| == Slots(n);
  }

  /** The Q matrix and its argmin: the pair of active positions to join. */
  method PickPair(d: seq<seq<real>>, u: seq<real>) returns (i: nat, j: nat)
    requires Square(d) && |u| == |d| && |d| >= 2
    ensures i < j < |d| && ArgminOf(d, u, i, j)
  {
    var Q := BuildQ(d, u);
    i, j := ArgminQ(Q);
    assert ArgminOf(d, u, i, j);
    ArgminAboveDiagonal(d, u, i, j);
  }

  /** The `for k in xrange(m)` loop: row and column l of D receive `vals`
      at the active nodes' labels. */
  method WriteRow(D: array2<real>, ix: seq<nat>, l: nat, vals: seq<real>)
    modifies D
    requires l < D.Length0 == D.Length1 && l !in ix && Distinct(ix) && |vals| == |ix|
    requires forall t :: 0 <= t < |ix| ==> ix[t] < D.Length0
    requires Symmetric(D) && ZeroDiagonal(D)
    ensures forall k :: 0 <= k < |ix| ==> D[l, ix[k]] == vals[k] && D[ix[k], l] == vals[k]
    ensures forall x, y :: 0 <= x < D.Length0 && 0 <= y < D.Length1 && x != l && y != l ==>
      D[x, y] == old(D[x, y])
    ensures forall y :: 0 <= y < D.Length0 && y !in ix ==> D[l, y] == old(D[l, y]) && D[y, l] == old(D[y, l])
    ensures Symmetric(D) && ZeroDiagonal(D)
  {
    var k := 0;
    while k < |ix|
      invariant 0 <= k <= |ix|
      invariant forall t :: 0 <= t < k ==> D[l, ix[t]] == vals[t] && D[ix[t], l] == vals[t]
      invariant forall x, y :: 0 <= x < D.Length0 && 0 <= y < D.Length1 && x != l && y != l ==>
        D[x, y] == old(D[x, y])
      invariant forall y :: 0 <= y < D.Length0 && y !in ix[..k] ==> D[l, y] == old(D[l, y]) && D[y, l] == old(D[y, l])
    {
      D[l, ix[k]] := vals[k];
      D[ix[k], l] := vals[k];
      assert ix[..k + 1] == ix[..k] + [ix[k]];
      k := k + 1;
    }
    assert ix[..|ix|] == ix;
  }

  /** `D[l,a] = D[a,l] = v`. */
  method WritePair(D: array2<real>, l: nat, a: nat, v: real)
    modifies D
    requires l < D.Length0 == D.Length1 && a < D.Length0 && l != a
    requires Symmetric(D) && ZeroDiagonal(D)
    ensures D[l, a] == v && D[a, l] == v
    ensures forall x, y :: 0 <= x < D.Length0 && 0 <= y < D.Length1 && !(x == l && y == a) && !(x == a && y == l) ==>
      D[x, y] == old(D[x, y])
    ensures Symmetric(D) && ZeroDiagonal(D)
  {
    D[l, a] := v;
    D[a, l] := v;
  }

  /** The loop and the two branch-length writes: row and column l of D
      receive the new node's distances to the active nodes. */
  method WriteJoined(D: array2<real>, ix: seq<nat>, l: nat, d: seq<seq<real>>, u: seq<real>, i: nat, j: nat)
    modifies D
    requires Square(d) && |d| == |ix| && |u| == |d| && i < j < |ix|
    requires l < D.Length0 == D.Length1 && l !in ix && Distinct(ix)
    requires forall t :: 0 <= t < |ix| ==> ix[t] < D.Length0
    requires Symmetric(D) && ZeroDiagonal(D)
    ensures forall k :: 0 <= k < |ix| ==>
      D[l, ix[k]] == NewDistance(d, u, i, j, k) && D[ix[k], l] == NewDistance(d, u, i, j, k)
    ensures forall x, y :: 0 <= x < D.Length0 && 0 <= y < D.Length1 && x != l && y != l ==>
      D[x, y] == old(D[x, y])
    ensures forall y :: 0 <= y < D.Length0 && y !in ix ==> D[l, y] == old(D[l, y]) && D[y, l] == old(D[y, l])
    ensures Symmetric(D) && ZeroDiagonal(D)
  {
    var vals := seq(|ix|, k requires 0 <= k < |ix| => d[i][k] + d[j][k] - d[i][j]);
    WriteRow(D, ix, l, vals);
    var v := Branches(d, u, i, j);
    WritePair(D, l, ix[i], v.0);
    WritePair(D, l, ix[j], v.1);
  }

  /** `ci.detach()`, `cj.detach()`, the new node l adopting both, and
      `internals = append(delete(internals, [i, j]), l)`. */
  method Regroup(n: nat, kids: Kids, ghost rank: seq<nat>, ix: seq<nat>, i: nat, j: nat, l: nat)
    returns (kids': Kids, ix': seq<nat>)
    requires NJShape(n, kids, rank, ix) && |ix| > 2 && i < j < |ix| && l == 2 * n - |ix|
    ensures ix' == RemoveTwo(ix, i, j) + [l]
    ensures kids' == kids[l := [ix[i], ix[j]]][Slots(n) := ix']
    ensures NJShape(n, kids', rank, ix')
  {
    DetachBoth(ix, i, j);
    ix' := Without(Without(ix, ix[i]), ix[j]) + [l];
    kids' := kids[l := [ix[i], ix[j]]][Slots(n) := ix'];
    JoinKeepsShape(n, kids, rank, ix, i, j, kids', ix');
  }

  // ------------------------------------------------------------ the join log

  /** One join: the active labels `ix` and their distances `d` before it,
      the picked positions i and j, and the new label l. */
  datatype Join = Join(ix: seq<nat>, d: seq<seq<real>>, i: nat, j: nat, l: nat)

  ghost predicate JoinShaped(e: Join)
  {
    |e.d| == |e.ix| > 2 && Square(e.d) && e.i < e.j < |e.ix|
  }

  /** Position k of `np.delete(s, [i, j])` in s. */
  function Kept(k: nat, i: nat, j: nat): nat
  {
    if k < i then k else if k < j - 1 then k + 1 else k + 2
  }

  /** `internals` after the join. */
  function After(e: Join): seq<nat>
    requires e.i < e.j < |e.ix|
  {
    RemoveTwo(e.ix, e.i, e.j) + [e.l]
  }

  /** `D[internals[:,None], internals]` after the join, from `d` alone: the
      kept labels keep their distances, the new label is at distance
      `d[i,k]+d[j,k]-d[i,j]` from kept position k, and 0 from itself. */
  function NextD(e: Join): (d': seq<seq<real>>)
    requires JoinShaped(e)
  {
    var m := |e.d|;
    var u := Means(e.d);
    seq(m - 1, p requires 0 <= p < m - 1 => seq(m - 1, q requires 0 <= q < m - 1 =>
      if p < m - 2 && q < m - 2 then e.d[Kept(p, e.i, e.j)][Kept(q, e.i, e.j)]
      else if p < m - 2 then NewDistance(e.d, u, e.i, e.j, Kept(p, e.i, e.j))
      else if q < m - 2 then NewDistance(e.d, u, e.i, e.j, Kept(q, e.i, e.j))
      else 0.0))
  }

  /** The join `neighbor_joining` makes on its `d`: the first minimum of the
      criterion, labelled `len(D)+2-m`, with every active label below it. */
  ghost predicate Made(n: nat, e: Join)
  {
    JoinShaped(e) && ArgminOf(e.d, Means(e.d), e.i, e.j) && e.l == 2 * n - |e.ix| &&
    forall k :: 0 <= k < |e.ix| ==> e.ix[k] < e.l
  }

  /** The join as the tree shows it: l has the picked pair as its children,
      and their branch lengths are `int(vi)` and `int(vj)`. */
  ghost predicate Recorded(e: Join, kids: Kids, dist: seq<int>)
    requires JoinShaped(e)
  {
    var a, b := e.ix[e.i], e.ix[e.j];
    var v := Branches(e.d, Means(e.d), e.i, e.j);
    e.l < |kids| && kids[e.l] == [a, b] && a < |dist| && b < |dist| &&
    dist[a] == Trunc(v.0) && dist[b] == Trunc(v.1)
  }

  /** The active labels after the joins of `log`. */
  function Active(ix0: seq<nat>, log: seq<Join>): seq<nat>
    requires log != [] ==> log[|log| - 1].i < log[|log| - 1].j < |log[|log| - 1].ix|
  {
    if log == [] then ix0 else After(log[|log| - 1])
  }

  /** Every join of `log` is made by `neighbor_joining`, each on the labels
      and distances the one before it left. */
  ghost predicate Chained(n: nat, log: seq<Join>)
  {
    (forall t :: 0 <= t < |log| ==> Made(n, log[t])) &&
    forall t {:trigger After(log[t])} :: 0 <= t < |log| - 1 ==>
      log[t + 1].ix == After(log[t]) && log[t + 1].d == NextD(log[t])
  }

  /** What the joins of `log` leave, started from the active labels `ix0`
      and branch lengths `dist0`: they are chained from `ix0` and each is
      recorded in the tree; the labels still active keep their starting
      branch lengths. */
  ghost predicate Joined(n: nat, ix0: seq<nat>, dist0: seq<int>, log: seq<Join>, kids: Kids, dist: seq<int>)
  {
    Chained(n, log) && (|log| > 0 ==> log[0].ix == ix0) &&
    (forall t :: 0 <= t < |log| ==> Recorded(log[t], kids, dist)) &&
    |dist0| == |dist| && forall x :: x in Active(ix0, log) ==> x < |dist| && dist[x] == dist0[x]
  }

  /** The state of the `while m > 2` loop after the joins of `log`, with
      `ix` active: on top of `Joined`, the pair of every join is no longer
      active, and every label not yet used has its starting branch length. */
  ghost predicate Log(n: nat, ix0: seq<nat>, dist0: seq<int>, log: seq<Join>, kids: Kids, dist: seq<int>, ix: seq<nat>)
  {
    Joined(n, ix0, dist0, log, kids, dist) && ix == Active(ix0, log) &&
    (forall t :: 0 <= t < |log| ==>
      log[t].ix[log[t].i] !in ix && log[t].ix[log[t].j] !in ix && log[t].l < 2 * n - |ix|) &&
    forall x :: 0 <= x < |dist| && 2 * n - |ix| <= x ==> dist[x] == dist0[x]
  }

  /** `np.delete` drops the two picked labels and keeps only labels of s. */
  lemma RemoveTwoGone(s: seq<nat>, i: nat, j: nat)
    requires i < j < |s| && Distinct(s)
    ensures s[i] !in RemoveTwo(s, i, j) && s[j] !in RemoveTwo(s, i, j)
    ensures forall x :: x in RemoveTwo(s, i, j) ==> x in s
  {
    var r := RemoveTwo(s, i, j);
    forall x | x in r ensures x in s && x != s[i] && x != s[j] {
      var k :| 0 <= k < |r| && r[k] == x;
      assert x == s[Kept(k, i, j)];
    }
  }

  /** The distances gathered after a join are `NextD` of those before it. */
  lemma GatherAfterJoin(D: array2<real>, e: Join)
    requires JoinShaped(e) && D.Length0 == D.Length1 && e.l < D.Length0 && ZeroDiagonal(D)
    requires forall k :: 0 <= k < |e.ix| ==> e.ix[k] < D.Length0 && e.ix[k] != e.l
    requires forall p, q :: 0 <= p < |e.ix| && 0 <= q < |e.ix| ==> D[e.ix[p], e.ix[q]] == e.d[p][q]
    requires forall k :: 0 <= k < |e.ix| ==>
      D[e.l, e.ix[k]] == NewDistance(e.d, Means(e.d), e.i, e.j, k) &&
      D[e.ix[k], e.l] == NewDistance(e.d, Means(e.d), e.i, e.j, k)
    ensures Gather(D, After(e)) == NextD(e)
  {
    var ix' := After(e);
    var g, nd := Gather(D, ix'), NextD(e);
    var m := |e.ix|;
    forall p | 0 <= p < m - 1 ensures g[p] == nd[p] {
      forall q | 0 <= q < m - 1 ensures g[p][q] == nd[p][q] {
        var x := if p < m - 2 then e.ix[Kept(p, e.i, e.j)] else e.l;
        var y := if q < m - 2 then e.ix[Kept(q, e.i, e.j)] else e.l;
        assert ix'[p] == x && ix'[q] == y;
        assert g[p][q] == D[x, y];
      }
    }
  }

  /** A join made on what the last one left extends the chain. */
  lemma ChainedSnoc(n: nat, log: seq<Join>, e: Join)
    requires Chained(n, log) && Made(n, e)
    requires |log| > 0 ==> e.ix == After(log[|log| - 1]) && e.d == NextD(log[|log| - 1])
    ensures Chained(n, log + [e])
  {
    var log' := log + [e];
    forall t | 0 <= t < |log'| - 1
      ensures log'[t + 1].ix == After(log'[t]) && log'[t + 1].d == NextD(log'[t])
    {
      assert log'[t] == log[t];
      if t < |log| - 1 {
        assert After(log[t]) == log[t + 1].ix;
      }
    }
  }

  /** After one more join, every join so far is recorded in the tree and
      its pair is no longer active. */
  lemma RecordStep(n: nat, log: seq<Join>, kids: Kids, dist: seq<int>, e: Join, kids': Kids, dist': seq<int>)
    requires Chained(n, log) && Made(n, e) && Distinct(e.ix) && e.l < Slots(n) && Slots(n) < |kids| == |dist|
    requires forall t :: 0 <= t < |log| ==>
      Recorded(log[t], kids, dist) && log[t].ix[log[t].i] !in e.ix && log[t].ix[log[t].j] !in e.ix && log[t].l < e.l
    requires kids' == kids[e.l := [e.ix[e.i], e.ix[e.j]]][Slots(n) := After(e)]
    requires var v := Branches(e.d, Means(e.d), e.i, e.j);
      dist' == dist[e.ix[e.i] := Trunc(v.0)][e.ix[e.j] := Trunc(v.1)]
    ensures forall t :: 0 <= t < |log + [e]| ==>
      var f := (log + [e])[t];
      JoinShaped(f) && Recorded(f, kids', dist') && f.ix[f.i] !in After(e) && f.ix[f.j] !in After(e) && f.l < e.l + 1
  {
    RemoveTwoGone(e.ix, e.i, e.j);
    forall t | 0 <= t < |log|
      ensures Recorded(log[t], kids', dist') && log[t].ix[log[t].i] !in After(e) && log[t].ix[log[t].j] !in After(e)
    {
      var a, b := log[t].ix[log[t].i], log[t].ix[log[t].j];
      assert a < log[t].l && b < log[t].l;
    }
  }

  /** After one more join, the active labels and those not yet used keep
      their starting branch lengths. */
  lemma DistStep(dist0: seq<int>, dist: seq<int>, e: Join, dist': seq<int>)
    requires JoinShaped(e) && Distinct(e.ix) && e.l < |dist| == |dist0|
    requires forall k :: 0 <= k < |e.ix| ==> e.ix[k] < e.l
    requires forall x :: x in e.ix ==> dist[x] == dist0[x]
    requires forall x :: e.l <= x < |dist| ==> dist[x] == dist0[x]
    requires var v := Branches(e.d, Means(e.d), e.i, e.j);
      dist' == dist[e.ix[e.i] := Trunc(v.0)][e.ix[e.j] := Trunc(v.1)]
    ensures forall x :: x in After(e) ==> x < |dist'| && dist'[x] == dist0[x]
    ensures forall x :: 0 <= x < |dist'| && e.l + 1 <= x ==> dist'[x] == dist0[x]
  {
    RemoveTwoGone(e.ix, e.i, e.j);
    forall x | x in After(e) ensures x < |dist'| && dist'[x] == dist0[x] {
      if x != e.l {
        assert x in RemoveTwo(e.ix, e.i, e.j);
      }
    }
  }

  /** One more join keeps the loop state. */
  lemma LogStep(n: nat, ix0: seq<nat>, dist0: seq<int>, log: seq<Join>, kids: Kids, dist: seq<int>,
                rank: seq<nat>, e: Join, kids': Kids, dist': seq<int>)
    requires Log(n, ix0, dist0, log, kids, dist, e.ix) && NJLayout(n, kids, rank, e.ix) && |dist| == |kids|
    requires Made(n, e) && (|log| > 0 ==> e.d == NextD(log[|log| - 1]))
    requires kids' == kids[e.l := [e.ix[e.i], e.ix[e.j]]][Slots(n) := After(e)]
    requires var v := Branches(e.d, Means(e.d), e.i, e.j);
      dist' == dist[e.ix[e.i] := Trunc(v.0)][e.ix[e.j] := Trunc(v.1)]
    ensures Log(n, ix0, dist0, log + [e], kids', dist', After(e))
  {
    ChainedSnoc(n, log, e);
    assert After(e) == Active(ix0, log + [e]);
    assert Slots(n) == 2 * n - 2;
    RecordStep(n, log, kids, dist, e, kids', dist');
    DistStep(dist0, dist, e, dist');
  }

  /** One pass of the `while m > 2` loop. The caller's D is rewritten in place:
      row and column l get the new node's distances to the active nodes, and
      nothing else changes; the picked pair moves under the new node l. */
  method JoinStep(D: array2<real>, n: nat, kids: Kids, ghost rank: seq<nat>, ix: seq<nat>, dist: seq<int>)
    returns (kids': Kids, ix': seq<nat>, dist': seq<int>, i: nat, j: nat, l: nat)
    modifies D
    requires D.Length0 == 2 * n - 2 && D.Length1 == 2 * n - 2
    requires NJShape(n, kids, rank, ix) && |ix| > 2 && |dist| == |kids|
    requires Symmetric(D) && ZeroDiagonal(D)
    ensures Symmetric(D) && ZeroDiagonal(D)
    ensures l == 2 * n - |ix| && n <= l < 2 * n - 2 && l !in ix
    ensures var d := old(Gather(D, ix)); var u := Means(d);
      i < j < |ix| && ArgminOf(d, u, i, j) &&
      (forall k :: 0 <= k < |ix| ==>
        D[l, ix[k]] == NewDistance(d, u, i, j, k) && D[ix[k], l] == NewDistance(d, u, i, j, k)) &&
      dist' == dist[ix[i] := Trunc(Branches(d, u, i, j).0)][ix[j] := Trunc(Branches(d, u, i, j).1)]
    ensures forall x, y :: 0 <= x < D.Length0 && 0 <= y < D.Length1 && x != l && y != l ==>
      D[x, y] == old(D[x, y])
    ensures forall y :: 0 <= y < D.Length0 && y !in ix ==> D[l, y] == old(D[l, y]) && D[y, l] == old(D[y, l])
    ensures ix' == RemoveTwo(ix, i, j) + [l]
    ensures kids' == kids[l := [ix[i], ix[j]]][Slots(n) := ix']
    ensures NJShape(n, kids', rank, ix')
    ensures Made(n, Join(ix, old(Gather(D, ix)), i, j, l)) && ix' == After(Join(ix, old(Gather(D, ix)), i, j, l))
    ensures Gather(D, ix') == NextD(Join(ix, old(Gather(D, ix)), i, j, l))
  {
    var d := Gather(D, ix);
    var u := Means(d);
    i, j := PickPair(d, u);
    l := D.Length0 + 2 - |ix|;
    WriteJoined(D, ix, l, d, u, i, j);
    var v := Branches(d, u, i, j);
    dist' := dist[ix[i] := Trunc(v.0)][ix[j] := Trunc(v.1)];
    kids', ix' := Regroup(n, kids, rank, ix, i, j, l);
    GatherAfterJoin(D, Join(ix, d, i, j, l));
  }

  /** One pass of the loop together with its entry e in the log: `dCur` is the
      distance block of the active nodes before the pass, `e.d`. */
  method JoinLogged(D: array2<real>, n: nat, kids: Kids, ghost rank: seq<nat>, ix: seq<nat>, dist: seq<int>,
                    ghost ix0: seq<nat>, ghost dist0: seq<int>, ghost log: seq<Join>, ghost dCur: seq<seq<real>>)
    returns (kids': Kids, ix': seq<nat>, dist': seq<int>, ghost e: Join)
    modifies D
    requires D.Length0 == 2 * n - 2 && D.Length1 == 2 * n - 2
    requires NJShape(n, kids, rank, ix) && |ix| > 2 && |dist| == |kids|
    requires Symmetric(D) && ZeroDiagonal(D)
    requires Log(n, ix0, dist0, log, kids, dist, ix)
    requires Gather(D, ix) == dCur && (|log| > 0 ==> Made(n, log[|log| - 1]) && dCur == NextD(log[|log| - 1]))
    ensures Symmetric(D) && ZeroDiagonal(D)
    ensures NJShape(n, kids', rank, ix') && |dist'| == |kids'| == |kids| && |ix'| == |ix| - 1
    ensures e.ix == ix && e.d == dCur && Made(n, e) && ix' == After(e)
    ensures Log(n, ix0, dist0, log + [e], kids', dist', ix')
    ensures Gather(D, ix') == NextD(e)
  {
    var i, j, l;
    kids', ix', dist', i, j, l := JoinStep(D, n, kids, rank, ix, dist);
    e := Join(ix, dCur, i, j, l);
    LogStep(n, ix0, dist0, log, kids, dist, rank, e, kids', dist');
  }

  /** `neighbor_joining(D, tree, internals)`: joins until two active nodes
      remain. D stays symmetric with a zero diagonal, and the result is one
      binary tree over all 2n-1 nodes whose leaves are the n samples. `log`
      lists the joins in order: the first is made on `D` at `internals`,
      each later one on the distances the one before it left; each picks
      the first minimum of the criterion and is recorded in the tree. The
      nodes still active at the end keep their branch lengths from `dist0`
      (ete2 gives every node 1.0 until `add_child` sets it). */
  method NeighborJoining(D: array2<real>, n: nat, kids0: Kids, ghost rank: seq<nat>, ix0: seq<nat>, dist0: seq<int>)
    returns (kids: Kids, dist: seq<int>, ghost log: seq<Join>)
    modifies D
    requires 1 <= n && D.Length0 == 2 * n - 2 && D.Length1 == 2 * n - 2
    requires Symmetric(D) && ZeroDiagonal(D)
    requires NJShape(n, kids0, rank, ix0) && |dist0| == |kids0|
    ensures Symmetric(D) && ZeroDiagonal(D)
    ensures |kids| == |kids0| && |dist| == |kids|
    ensures |log| == |ix0| - Min(|ix0|, 2)
    ensures IsTree(kids, rank, Slots(n))
    ensures n >= 2 ==> Binary(kids) && |kids| == 2 * n - 1 && |kids[Slots(n)]| == 2
    ensures forall x :: 0 <= x < |kids| ==> (kids[x] == [] <==> x < n)
    ensures Joined(n, ix0, dist0, log, kids, dist) && kids[Slots(n)] == Active(ix0, log)
    ensures |log| > 0 ==> |ix0| > 2 && log[0].d == old(Gather(D, ix0))
  {
    kids, dist, log := kids0, dist0, [];
    var ix := ix0;
    ghost var d0 := if |ix0| > 2 then Gather(D, ix0) else [];
    ghost var dCur := d0;
    while |ix| > 2
      invariant D.Length0 == 2 * n - 2 && D.Length1 == 2 * n - 2
      invariant Symmetric(D) && ZeroDiagonal(D)
      invariant NJShape(n, kids, rank, ix) && |dist| == |kids| && |kids| == |kids0|
      invariant |log| == |ix0| - |ix| && Min(|ix0|, 2) <= |ix|
      invariant Log(n, ix0, dist0, log, kids, dist, ix)
      invariant |log| > 0 ==> |ix0| > 2 && log[0].d == d0
      invariant log == [] ==> dCur == d0
      invariant log != [] ==> dCur == NextD(log[|log| - 1])
      invariant |ix| > 2 ==> Gather(D, ix) == dCur
      decreases |ix|
    {
      ghost var e;
      kids, ix, dist, e := JoinLogged(D, n, kids, rank, ix, dist, ix0, dist0, log, dCur);
      assert e.d == dCur;
      if log == [] {
        assert (log + [e])[0] == e;
      } else {
        assert (log + [e])[0] == log[0];
      }
      assert (log + [e])[|log|] == e;
      log := log + [e];
      dCur := NextD(e);
    }
    FinalTree(n, kids, rank, ix);
    FinalLayout(n, kids, rank, ix);
  }
}
