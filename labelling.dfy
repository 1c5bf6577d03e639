/** `init_tree`: after neighbor joining every node gets `sid`, the sorted
    sample ids below it, and `nid`, its position in post-order. Node fields are
    kept in arrays indexed by arena slot. */
module Labelling {
  import opened Common
  import opened Arena
  import opened Sorting

  lemma LeavesAllPrefix(kids: Kids, rank: seq<nat>, xs: seq<nat>, k: nat)
    requires Ranked(kids, rank) && InArena(kids, xs) && k < |xs|
    ensures InArena(kids, xs[..k]) && InArena(kids, xs[..k + 1])
    ensures LeavesAll(kids, rank, xs[..k + 1]) == LeavesAll(kids, rank, xs[..k]) + Leaves(kids, rank, xs[k])
  {
    assert xs[..k + 1] == xs[..k] + [xs[k]];
    LeavesAllAppend(kids, rank, xs[..k], [xs[k]]);
    PostorderAllOne(kids, rank, xs[k]);
  }

  /** `for child in node.children: node.sid.extend(child.sid)`, once every
      child holds its own leaf ids. */
  method CollectSids(kids: Kids, ghost rank: seq<nat>, sid: array<seq<nat>>, x: nat) returns (acc: seq<nat>)
    requires Ranked(kids, rank) && x < |kids| && sid.Length == |kids|
    requires forall k :: 0 <= k < |kids[x]| ==> sid[kids[x][k]] == Leaves(kids, rank, kids[x][k])
    ensures acc == LeavesAll(kids, rank, kids[x])
  {
    RankBoundBelow(kids, rank, x);
    acc := [];
    var k := 0;
    while k < |kids[x]|
      invariant 0 <= k <= |kids[x]| && InArena(kids, kids[x][..k])
      invariant acc == LeavesAll(kids, rank, kids[x][..k])
    {
      LeavesAllPrefix(kids, rank, kids[x], k);
      acc := acc + sid[kids[x][k]];
      k := k + 1;
    }
    assert kids[x][..|kids[x]|] == kids[x];
  }

  /** The first post-order pass: each leaf's `sid` is `[its id]` and each
      inner node's is its children's `sid`s concatenated in child order, that
      is, the leaf ids below it from left to right. */
  method GatherSids(kids: Kids, ghost rank: seq<nat>, root: nat, order: seq<nat>) returns (sid: array<seq<nat>>)
    requires Ranked(kids, rank) && Numbering(kids, order, root)
    ensures fresh(sid) && sid.Length == |kids|
    ensures forall x :: 0 <= x < |kids| ==> sid[x] == Leaves(kids, rank, x)
  {
    sid := new seq<nat>[|kids|];
    var i := 0;
    while i < |order|
      invariant 0 <= i <= |order|
      invariant forall t :: 0 <= t < i ==> sid[order[t]] == Leaves(kids, rank, order[t])
    {
      var x := order[i];
      if kids[x] == [] {
        sid[x] := [x];
      } else {
        forall k | 0 <= k < |kids[x]| ensures sid[kids[x][k]] == Leaves(kids, rank, kids[x][k]) {
          var c := kids[x][k];
          assert c in order[..i];
          var t :| 0 <= t < i && order[t] == c;
        }
        var acc := CollectSids(kids, rank, sid, x);
        sid[x] := acc;
      }
      i := i + 1;
    }
    forall x | 0 <= x < |kids| ensures sid[x] == Leaves(kids, rank, x) {
      assert x in order;
      var t :| 0 <= t < |order| && order[t] == x;
    }
  }

  /** The second pass, `for i, node in zip(xrange(count), postorder)`: the
      t-th node visited gets `nid = t` and its `sid` sorted. */
  method NumberNodes(order: seq<nat>, count: nat, sids: array<seq<nat>>) returns (nids: array<Option<nat>>)
    modifies sids
    requires Distinct(order) && count <= |order|
    requires forall t :: 0 <= t < |order| ==> order[t] < sids.Length
    ensures fresh(nids) && nids.Length == sids.Length
    ensures forall t :: 0 <= t < count ==> nids[order[t]] == Some(t) && sids[order[t]] == Sort(old(sids[order[t]]))
    ensures forall t :: count <= t < |order| ==> nids[order[t]] == None && sids[order[t]] == old(sids[order[t]])
  {
    nids := new Option<nat>[sids.Length](_ => None);
    var i := 0;
    while i < count
      invariant 0 <= i <= count
      invariant forall t :: 0 <= t < i ==> nids[order[t]] == Some(t) && sids[order[t]] == Sort(old(sids[order[t]]))
      invariant forall t :: i <= t < |order| ==> nids[order[t]] == None && sids[order[t]] == old(sids[order[t]])
    {
      var x := order[i];
      nids[x] := Some(i);
      sids[x] := Sort(sids[x]);
      i := i + 1;
    }
  }

  /** `init_tree(tree)`. `leaf_order` is the leaf ids from left to right;
      inner nodes lose their names; walking the post-order alongside
      `xrange(2m-1)` (m leaves), the t-th node gets `nid = t` and its `sid`
      sorted. `zip` stops at the shorter of the two, so a node past position
      2m-2 keeps no `nid` and an unsorted `sid`. */
  method InitTree(kids: Kids, ghost rank: seq<nat>, root: nat)
    returns (leafOrder: seq<nat>, named: seq<bool>, sid: seq<seq<nat>>, nid: seq<Option<nat>>)
    requires IsTree(kids, rank, root)
    ensures Numbering(kids, Postorder(kids, rank, root), root)
    ensures leafOrder == Leaves(kids, rank, root)
    ensures |named| == |kids| && forall x :: 0 <= x < |kids| ==> (named[x] <==> kids[x] == [])
    ensures |sid| == |kids| && |nid| == |kids|
    ensures var order := Postorder(kids, rank, root);
      forall t :: 0 <= t < |order| ==>
        nid[order[t]] == (if t < 2 * |leafOrder| - 1 then Some(t) else None) &&
        sid[order[t]] == (if t < 2 * |leafOrder| - 1 then Sort(Leaves(kids, rank, order[t]))
                          else Leaves(kids, rank, order[t]))
  {
    var order := Postorder(kids, rank, root);
    PostorderNumbering(kids, rank, root);
    leafOrder := Leaves(kids, rank, root);
    named := seq(|kids|, x requires 0 <= x < |kids| => kids[x] == []);
    var sids := GatherSids(kids, rank, root, order);
    sid, nid := NumberPostorder(kids, rank, root, |leafOrder|, sids);
  }

  /** The second pass of `init_tree` over a tree with m leaves, once every
      `sid` holds the leaf ids below its node. */
  method NumberPostorder(kids: Kids, ghost rank: seq<nat>, root: nat, m: nat, sids: array<seq<nat>>)
    returns (sid: seq<seq<nat>>, nid: seq<Option<nat>>)
    modifies sids
    requires Ranked(kids, rank) && root < |kids| && Numbering(kids, Postorder(kids, rank, root), root)
    requires sids.Length == |kids| && forall x :: 0 <= x < |kids| ==> sids[x] == Leaves(kids, rank, x)
    ensures |sid| == |kids| && |nid| == |kids|
    ensures var order := Postorder(kids, rank, root);
      forall t :: 0 <= t < |order| ==>
        nid[order[t]] == (if t < 2 * m - 1 then Some(t) else None) &&
        sid[order[t]] == (if t < 2 * m - 1 then Sort(Leaves(kids, rank, order[t]))
                          else Leaves(kids, rank, order[t]))
  {
    var order := Postorder(kids, rank, root);
    // xrange(2m-1) is empty when 2m-1 <= 0
    var count := if m == 0 then 0 else Min(2 * m - 1, |order|);
    ghost var gathered := sids[..];
    var nids := NumberNodes(order, count, sids);
    sid, nid := sids[..], nids[..];
    forall t | 0 <= t < |order|
      ensures nid[order[t]] == (if t < 2 * m - 1 then Some(t) else None)
      ensures sid[order[t]] == (if t < 2 * m - 1 then Sort(Leaves(kids, rank, order[t]))
                                else Leaves(kids, rank, order[t]))
    {
      assert gathered[order[t]] == Leaves(kids, rank, order[t]);
      assert t < count <==> t < 2 * m - 1;
    }
  }

  /** A binary tree has 2m-1 nodes for m leaves, so on the tree neighbor
      joining builds every node is numbered and sorted. */
  lemma {:induction false} BinaryAllNumbered(kids: Kids, rank: seq<nat>, root: nat)
    requires IsTree(kids, rank, root) && Binary(kids)
    ensures 2 * |Leaves(kids, rank, root)| - 1 == |Postorder(kids, rank, root)| == |kids|
  {
    BinaryCount(kids, rank, root);
    PostorderNumbering(kids, rank, root);
  }

  /** A leaf's sorted `sid` is `[its id]`. */
  lemma LeafSid(kids: Kids, rank: seq<nat>, x: nat)
    requires Ranked(kids, rank) && x < |kids| && kids[x] == []
    ensures Sort(Leaves(kids, rank, x)) == [x]
  {
    assert Leaves(kids, rank, x) == [x];
    SortedUnique(Sort([x]), [x]);
  }

  /** The children's sorted `sid`s, concatenated in child order. */
  function ChildSids(kids: Kids, ghost rank: seq<nat>, xs: seq<nat>): (r: seq<nat>)
    requires Ranked(kids, rank) && InArena(kids, xs)
    ensures multiset(r) == multiset(LeavesAll(kids, rank, xs))
  {
    if xs == [] then []
    else Sort(Leaves(kids, rank, xs[0])) + ChildSids(kids, rank, xs[1..])
  }

  /** An inner node's sorted `sid` is the sorted union of its children's
      sorted `sid`s. */
  lemma InnerSid(kids: Kids, rank: seq<nat>, x: nat)
    requires Ranked(kids, rank) && x < |kids| && kids[x] != []
    ensures InArena(kids, kids[x])
    ensures Sort(Leaves(kids, rank, x)) == Sort(ChildSids(kids, rank, kids[x]))
  {
    RankBoundBelow(kids, rank, x);
    SortSameIffSameIds(Leaves(kids, rank, x), ChildSids(kids, rank, kids[x]));
  }
}
