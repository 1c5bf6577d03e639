/** A rooted ordered tree stored as an arena: `kids[x]` lists the children of
    node x in order (ete2's `node.children`); a node without children is a
    leaf, and a leaf's sample id is its own index. A ghost `rank` that
    strictly decreases from parent to child makes the arena acyclic, so the
    traversals below terminate. */
module Arena {
  import opened Common

  type Kids = seq<seq<nat>>

  ghost predicate Ranked(kids: Kids, rank: seq<nat>)
  {
    |rank| == |kids| &&
    forall x, k :: 0 <= x < |kids| && 0 <= k < |kids[x]| ==>
      kids[x][k] < |kids| && rank[kids[x][k]] < rank[x]
  }

  ghost predicate InArena(kids: Kids, xs: seq<nat>)
  {
    forall i :: 0 <= i < |xs| ==> xs[i] < |kids|
  }

  /** One more than the largest rank in `xs` (0 for none): the termination
      measure of the traversals over a list of siblings. */
  ghost function RankBound(kids: Kids, rank: seq<nat>, xs: seq<nat>): nat
    requires Ranked(kids, rank) && InArena(kids, xs)
  {
    if xs == [] then 0 else Max(rank[xs[0]] + 1, RankBound(kids, rank, xs[1..]))
  }

  lemma {:induction false} RankBoundBelow(kids: Kids, rank: seq<nat>, x: nat)
    requires Ranked(kids, rank) && x < |kids|
    ensures InArena(kids, kids[x]) && RankBound(kids, rank, kids[x]) <= rank[x]
  {
    RankBoundLe(kids, rank, kids[x], rank[x]);
  }

  lemma {:induction false} RankBoundLe(kids: Kids, rank: seq<nat>, xs: seq<nat>, b: nat)
    requires Ranked(kids, rank) && InArena(kids, xs)
    requires forall i :: 0 <= i < |xs| ==> rank[xs[i]] < b
    ensures RankBound(kids, rank, xs) <= b
    decreases |xs|
  {
    if xs != [] {
      RankBoundLe(kids, rank, xs[1..], b);
    }
  }

  /** ete2's `traverse('postorder')` from x: every child's subtree, in child
      order, then x. */
  function Postorder(kids: Kids, ghost rank: seq<nat>, x: nat): seq<nat>
    requires Ranked(kids, rank) && x < |kids|
    decreases rank[x] + 1, 0
  {
    RankBoundBelow(kids, rank, x);
    PostorderAll(kids, rank, kids[x]) + [x]
  }

  function PostorderAll(kids: Kids, ghost rank: seq<nat>, xs: seq<nat>): seq<nat>
    requires Ranked(kids, rank) && InArena(kids, xs)
    decreases RankBound(kids, rank, xs), |xs|
  {
    if xs == [] then []
    else Postorder(kids, rank, xs[0]) + PostorderAll(kids, rank, xs[1..])
  }

  /** ete2's `get_leaf_names()` under x (as ids), left to right. */
  function Leaves(kids: Kids, ghost rank: seq<nat>, x: nat): seq<nat>
    requires Ranked(kids, rank) && x < |kids|
    decreases rank[x] + 1, 0
  {
    RankBoundBelow(kids, rank, x);
    if kids[x] == [] then [x] else LeavesAll(kids, rank, kids[x])
  }

  function LeavesAll(kids: Kids, ghost rank: seq<nat>, xs: seq<nat>): seq<nat>
    requires Ranked(kids, rank) && InArena(kids, xs)
    decreases RankBound(kids, rank, xs), |xs|
  {
    if xs == [] then []
    else Leaves(kids, rank, xs[0]) + LeavesAll(kids, rank, xs[1..])
  }

  /** Every node has no child or exactly two. */
  ghost predicate Binary(kids: Kids)
  {
    forall x :: 0 <= x < |kids| ==> |kids[x]| == 0 || |kids[x]| == 2
  }

  /** The arena is one tree below `root`: its post-order lists every node once. */
  ghost predicate IsTree(kids: Kids, rank: seq<nat>, root: nat)
  {
    Ranked(kids, rank) && root < |kids| &&
    multiset(Postorder(kids, rank, root)) == multiset(Range(0, |kids|))
  }

  /** A root stored last whose children's subtrees hold every other node
      once makes the arena one tree. */
  lemma RootCovers(kids: Kids, rank: seq<nat>, root: nat)
    requires Ranked(kids, rank) && root + 1 == |kids|
    requires multiset(PostorderAll(kids, rank, kids[root])) == multiset(Range(0, root))
    ensures IsTree(kids, rank, root)
  {
    RankBoundBelow(kids, rank, root);
    assert Postorder(kids, rank, root) == PostorderAll(kids, rank, kids[root]) + [root];
    RangeSnoc(0, root);
  }

  /** `order` visits every slot once, children before parents, root last. */
  ghost predicate Numbering(kids: Kids, order: seq<nat>, root: nat)
  {
    |order| == |kids| > 0 && Distinct(order) && order[|order| - 1] == root &&
    (forall x :: 0 <= x < |kids| ==> x in order) &&
    (forall t :: 0 <= t < |order| ==> order[t] < |kids|) &&
    ChildrenBefore(kids, order)
  }

  /** A tree's post-order is such a numbering. */
  lemma PostorderNumbering(kids: Kids, rank: seq<nat>, root: nat)
    requires IsTree(kids, rank, root)
    ensures Numbering(kids, Postorder(kids, rank, root), root)
  {
    PermutationOfRange(Postorder(kids, rank, root), |kids|);
    RankBoundBelow(kids, rank, root);
    PostorderChildrenBefore(kids, rank, root);
  }

  // ---------------------------------------------------------------- lemmas

  lemma {:induction false} PostorderAllAppend(kids: Kids, rank: seq<nat>, xs: seq<nat>, ys: seq<nat>)
    requires Ranked(kids, rank) && InArena(kids, xs) && InArena(kids, ys)
    ensures PostorderAll(kids, rank, xs + ys) == PostorderAll(kids, rank, xs) + PostorderAll(kids, rank, ys)
    decreases |xs|
  {
    if xs == [] {
      assert xs + ys == ys;
    } else {
      assert (xs + ys)[1..] == xs[1..] + ys;
      PostorderAllAppend(kids, rank, xs[1..], ys);
    }
  }

  lemma {:induction false} LeavesAllAppend(kids: Kids, rank: seq<nat>, xs: seq<nat>, ys: seq<nat>)
    requires Ranked(kids, rank) && InArena(kids, xs) && InArena(kids, ys)
    ensures LeavesAll(kids, rank, xs + ys) == LeavesAll(kids, rank, xs) + LeavesAll(kids, rank, ys)
    decreases |xs|
  {
    if xs == [] {
      assert xs + ys == ys;
    } else {
      assert (xs + ys)[1..] == xs[1..] + ys;
      LeavesAllAppend(kids, rank, xs[1..], ys);
    }
  }

  lemma PostorderAllSnoc(kids: Kids, rank: seq<nat>, xs: seq<nat>, x: nat)
    requires Ranked(kids, rank) && InArena(kids, xs) && x < |kids|
    ensures PostorderAll(kids, rank, xs + [x]) == PostorderAll(kids, rank, xs) + Postorder(kids, rank, x)
  {
    PostorderAllAppend(kids, rank, xs, [x]);
    PostorderAllOne(kids, rank, x);
  }

  /** Taking one node out of a list of siblings takes its subtree out of
      their joint post-order. */
  lemma PostorderAllRemove(kids: Kids, rank: seq<nat>, p: seq<nat>, x: nat, q: seq<nat>)
    requires Ranked(kids, rank) && InArena(kids, p) && x < |kids| && InArena(kids, q)
    ensures multiset(PostorderAll(kids, rank, p + [x] + q)) ==
      multiset(PostorderAll(kids, rank, p + q)) + multiset(Postorder(kids, rank, x))
  {
    PostorderAllAppend(kids, rank, p + [x], q);
    PostorderAllAppend(kids, rank, p, [x]);
    PostorderAllAppend(kids, rank, p, q);
    PostorderAllOne(kids, rank, x);
  }

  lemma PostorderAllOne(kids: Kids, rank: seq<nat>, x: nat)
    requires Ranked(kids, rank) && x < |kids|
    ensures PostorderAll(kids, rank, [x]) == Postorder(kids, rank, x)
    ensures LeavesAll(kids, rank, [x]) == Leaves(kids, rank, x)
  {
    assert [x][1..] == [];
  }

  /** A node of x's subtree is in the arena and ranks no higher than x. */
  lemma {:induction false} PostorderRanks(kids: Kids, rank: seq<nat>, x: nat)
    requires Ranked(kids, rank) && x < |kids|
    ensures forall y :: y in Postorder(kids, rank, x) ==> y < |kids| && rank[y] <= rank[x]
    ensures forall y :: y in Leaves(kids, rank, x) ==> y in Postorder(kids, rank, x)
    decreases rank[x] + 1, 0
  {
    RankBoundBelow(kids, rank, x);
    PostorderAllRanks(kids, rank, kids[x]);
  }

  lemma {:induction false} PostorderAllRanks(kids: Kids, rank: seq<nat>, xs: seq<nat>)
    requires Ranked(kids, rank) && InArena(kids, xs)
    ensures forall y :: y in PostorderAll(kids, rank, xs) ==> y < |kids| && rank[y] < RankBound(kids, rank, xs)
    ensures forall y :: y in LeavesAll(kids, rank, xs) ==> y in PostorderAll(kids, rank, xs)
    ensures forall i :: 0 <= i < |xs| ==> xs[i] in PostorderAll(kids, rank, xs)
    decreases RankBound(kids, rank, xs), |xs|
  {
    if xs != [] {
      PostorderRanks(kids, rank, xs[0]);
      PostorderAllRanks(kids, rank, xs[1..]);
      var p := Postorder(kids, rank, xs[0]);
      assert p[|p| - 1] == xs[0];
      forall i | 0 <= i < |xs| ensures xs[i] in PostorderAll(kids, rank, xs) {
        if i > 0 {
          assert xs[i] == xs[1..][i - 1];
        }
      }
    }
  }

  /** The traversals under x read only the children lists of x's subtree:
      another arena that agrees there gives the same post-order and leaves. */
  lemma {:induction false} PostorderFrame(kids: Kids, rank: seq<nat>, kids': Kids, rank': seq<nat>, x: nat)
    requires Ranked(kids, rank) && Ranked(kids', rank') && x < |kids| && |kids'| == |kids|
    requires forall y :: 0 <= y < |kids| && y in Postorder(kids, rank, x) ==> kids'[y] == kids[y]
    ensures Postorder(kids', rank', x) == Postorder(kids, rank, x)
    ensures Leaves(kids', rank', x) == Leaves(kids, rank, x)
    decreases rank[x] + 1, 0
  {
    assert x in Postorder(kids, rank, x);
    RankBoundBelow(kids, rank, x);
    PostorderAllFrame(kids, rank, kids', rank', kids[x]);
  }

  lemma {:induction false} PostorderAllFrame(kids: Kids, rank: seq<nat>, kids': Kids, rank': seq<nat>, xs: seq<nat>)
    requires Ranked(kids, rank) && Ranked(kids', rank') && InArena(kids, xs) && |kids'| == |kids|
    requires forall y :: 0 <= y < |kids| && y in PostorderAll(kids, rank, xs) ==> kids'[y] == kids[y]
    ensures PostorderAll(kids', rank', xs) == PostorderAll(kids, rank, xs)
    ensures LeavesAll(kids', rank', xs) == LeavesAll(kids, rank, xs)
    decreases RankBound(kids, rank, xs), |xs|
  {
    if xs != [] {
      PostorderFrame(kids, rank, kids', rank', xs[0]);
      PostorderAllFrame(kids, rank, kids', rank', xs[1..]);
    }
  }

  /** The same for an arena that agrees with this one on every node ranked
      below b: traversals from nodes ranked below b do not change. */
  lemma {:induction false} PostorderFrameBelow(kids: Kids, kids': Kids, rank: seq<nat>, x: nat, b: nat)
    requires Ranked(kids, rank) && Ranked(kids', rank) && x < |kids| && rank[x] < b
    requires forall y :: 0 <= y < |kids| && rank[y] < b ==> kids'[y] == kids[y]
    ensures Postorder(kids', rank, x) == Postorder(kids, rank, x)
    ensures Leaves(kids', rank, x) == Leaves(kids, rank, x)
    decreases rank[x] + 1, 0
  {
    RankBoundBelow(kids, rank, x);
    assert kids'[x] == kids[x];
    PostorderAllFrameBelow(kids, kids', rank, kids[x], b);
  }

  lemma {:induction false} PostorderAllFrameBelow(kids: Kids, kids': Kids, rank: seq<nat>, xs: seq<nat>, b: nat)
    requires Ranked(kids, rank) && Ranked(kids', rank) && InArena(kids, xs)
    requires forall i :: 0 <= i < |xs| ==> rank[xs[i]] < b
    requires forall y :: 0 <= y < |kids| && rank[y] < b ==> kids'[y] == kids[y]
    ensures PostorderAll(kids', rank, xs) == PostorderAll(kids, rank, xs)
    ensures LeavesAll(kids', rank, xs) == LeavesAll(kids, rank, xs)
    decreases RankBound(kids, rank, xs), |xs|
  {
    if xs != [] {
      PostorderFrameBelow(kids, kids', rank, xs[0], b);
      PostorderAllFrameBelow(kids, kids', rank, xs[1..], b);
    }
  }

  /** In a post-order every child of a node appears before it. */
  ghost predicate ChildrenBefore(kids: Kids, s: seq<nat>)
  {
    forall i, k :: 0 <= i < |s| && s[i] < |kids| && 0 <= k < |kids[s[i]]| ==> kids[s[i]][k] in s[..i]
  }

  lemma ChildrenBeforeAppend(kids: Kids, s: seq<nat>, t: seq<nat>)
    requires ChildrenBefore(kids, s) && ChildrenBefore(kids, t)
    ensures ChildrenBefore(kids, s + t)
  {
    var u := s + t;
    forall i, k | 0 <= i < |u| && u[i] < |kids| && 0 <= k < |kids[u[i]]|
      ensures kids[u[i]][k] in u[..i]
    {
      if i < |s| {
        assert u[i] == s[i] && s[..i] == u[..i];
      } else {
        assert u[i] == t[i - |s|];
        assert kids[u[i]][k] in t[..i - |s|];
        assert u[..i] == s + t[..i - |s|];
      }
    }
  }

  lemma {:induction false} PostorderChildrenBefore(kids: Kids, rank: seq<nat>, x: nat)
    requires Ranked(kids, rank) && x < |kids|
    ensures ChildrenBefore(kids, Postorder(kids, rank, x))
    decreases rank[x] + 1, 0
  {
    RankBoundBelow(kids, rank, x);
    PostorderAllChildrenBefore(kids, rank, kids[x]);
    PostorderAllRanks(kids, rank, kids[x]);
    var s := PostorderAll(kids, rank, kids[x]);
    var u := s + [x];
    assert u[..|s|] == s;
    forall i, k | 0 <= i < |u| && u[i] < |kids| && 0 <= k < |kids[u[i]]|
      ensures kids[u[i]][k] in u[..i]
    {
      if i < |s| {
        assert u[i] == s[i] && s[..i] == u[..i];
      } else {
        assert kids[x][k] in s;
      }
    }
  }

  lemma {:induction false} PostorderAllChildrenBefore(kids: Kids, rank: seq<nat>, xs: seq<nat>)
    requires Ranked(kids, rank) && InArena(kids, xs)
    ensures ChildrenBefore(kids, PostorderAll(kids, rank, xs))
    decreases RankBound(kids, rank, xs), |xs|
  {
    if xs != [] {
      PostorderChildrenBefore(kids, rank, xs[0]);
      PostorderAllChildrenBefore(kids, rank, xs[1..]);
      ChildrenBeforeAppend(kids, Postorder(kids, rank, xs[0]), PostorderAll(kids, rank, xs[1..]));
    }
  }

  /** In a binary tree a subtree with L leaves has 2L-1 nodes. */
  lemma {:induction false} BinaryCount(kids: Kids, rank: seq<nat>, x: nat)
    requires Ranked(kids, rank) && Binary(kids) && x < |kids|
    ensures |Postorder(kids, rank, x)| == 2 * |Leaves(kids, rank, x)| - 1
    ensures |Leaves(kids, rank, x)| >= 1
    decreases rank[x]
  {
    if kids[x] != [] {
      var a, b := kids[x][0], kids[x][1];
      assert kids[x] == [a] + [b];
      PostorderAllAppend(kids, rank, [a], [b]);
      LeavesAllAppend(kids, rank, [a], [b]);
      PostorderAllOne(kids, rank, a);
      PostorderAllOne(kids, rank, b);
      BinaryCount(kids, rank, a);
      BinaryCount(kids, rank, b);
    }
  }

  /** A child's subtree lies inside its parent's. */
  lemma ChildSubtree(kids: Kids, rank: seq<nat>, x: nat, k: nat)
    requires Ranked(kids, rank) && x < |kids| && k < |kids[x]|
    ensures forall z :: z in Postorder(kids, rank, kids[x][k]) ==> z in Postorder(kids, rank, x)
  {
    RankBoundBelow(kids, rank, x);
    PostorderAllHas(kids, rank, kids[x], k);
  }

  lemma {:induction false} PostorderAllHas(kids: Kids, rank: seq<nat>, xs: seq<nat>, k: nat)
    requires Ranked(kids, rank) && InArena(kids, xs) && k < |xs|
    ensures forall z :: z in Postorder(kids, rank, xs[k]) ==> z in PostorderAll(kids, rank, xs)
    decreases k
  {
    if k > 0 {
      PostorderAllHas(kids, rank, xs[1..], k - 1);
    }
  }

  /** The post-order under a node with children a and b. */
  lemma BinaryPostorder(kids: Kids, rank: seq<nat>, x: nat)
    requires Ranked(kids, rank) && x < |kids| && |kids[x]| == 2
    ensures Postorder(kids, rank, x) ==
      Postorder(kids, rank, kids[x][0]) + Postorder(kids, rank, kids[x][1]) + [x]
  {
    var a, b := kids[x][0], kids[x][1];
    assert kids[x] == [a] + [b];
    PostorderAllAppend(kids, rank, [a], [b]);
    PostorderAllOne(kids, rank, a);
    PostorderAllOne(kids, rank, b);
  }

  lemma DistinctParts(p: seq<nat>, q: seq<nat>, x: nat)
    requires Distinct(p + q + [x])
    ensures Distinct(p) && Distinct(q)
    ensures forall z :: z in p ==> z !in q && z != x
    ensures x !in q
  {
    var u := p + q + [x];
    assert u[|u| - 1] == x;
    assert forall i :: 0 <= i < |p| ==> u[i] == p[i];
    assert forall j :: 0 <= j < |q| ==> u[|p| + j] == q[j];
  }

  /** Every subtree of a binary subtree that lists each node once does so too. */
  lemma {:induction false} SubtreeDistinct(kids: Kids, rank: seq<nat>, x: nat, z: nat)
    requires Ranked(kids, rank) && Binary(kids) && x < |kids|
    requires Distinct(Postorder(kids, rank, x)) && z in Postorder(kids, rank, x)
    ensures z < |kids| && Distinct(Postorder(kids, rank, z))
    decreases rank[x]
  {
    PostorderRanks(kids, rank, x);
    if z != x {
      RankBoundBelow(kids, rank, x);
      var a, b := kids[x][0], kids[x][1];
      BinaryPostorder(kids, rank, x);
      DistinctParts(Postorder(kids, rank, a), Postorder(kids, rank, b), x);
      if z in Postorder(kids, rank, a) {
        SubtreeDistinct(kids, rank, a, z);
      } else {
        SubtreeDistinct(kids, rank, b, z);
      }
    }
  }

  /** In a binary tree every node's subtree lists each node once. */
  lemma TreeDistinct(kids: Kids, rank: seq<nat>, root: nat, z: nat)
    requires IsTree(kids, rank, root) && Binary(kids) && z < |kids|
    ensures Distinct(Postorder(kids, rank, z))
  {
    PermutationOfRange(Postorder(kids, rank, root), |kids|);
    SubtreeDistinct(kids, rank, root, z);
  }
}
