/** The mutation-likelihood tables of `calc_mut_likelihoods` and `update_PL`.
    Each node carries `PL0`, a sites-by-genotypes table, and `PLm`, a list of
    such tables (rows), one per place a mutation can sit below the node.
    Tables are kept in probability space: the Phred table T of the source is
    10^(-T/10) here, so the Phred sum `a + b` of two tables is their entrywise
    product and `p2phred(np.dot(phred2p(T), mm))` is the matrix product of T
    and mm. No logarithm or power is taken. */
module Likelihood {
  import opened Common
  import opened Arena
  import opened Sorting

  function Entry(m: Mat, a: nat, b: nat): real
  {
    if a < |m| && b < |m[a]| then m[a][b] else 0.0
  }

  /** The sum over a < k of v[a] * mm[a][b]. */
  function DotSum(v: seq<real>, mm: Mat, b: nat, k: nat): real
    requires k <= |v|
  {
    if k == 0 then 0.0 else DotSum(v, mm, b, k - 1) + v[k - 1] * Entry(mm, k - 1, b)
  }

  /** `np.dot(T, mm)` for a square genotype matrix mm. */
  function Dot(t: Mat, mm: Mat): Mat
  {
    seq(|t|, s requires 0 <= s < |t| => seq(|mm|, b requires 0 <= b < |mm| => DotSum(t[s], mm, b, |t[s]|)))
  }

  /** The entrywise product: Phred tables added. */
  function Times(a: Mat, b: Mat): Mat
  {
    seq(|a|, s requires 0 <= s < |a| => seq(|a[s]|, k requires 0 <= k < |a[s]| => a[s][k] * Entry(b, s, k)))
  }

  /** A table of a's shape holding Phred 0, that is probability 1:
      `PL0.fill(0.0)` and `np.zeros`. */
  function Blank(a: Mat): Mat
  {
    seq(|a|, s requires 0 <= s < |a| => seq(|a[s]|, _ => 1.0))
  }

  lemma BlankTimes(a: Mat, b: Mat)
    ensures Blank(Times(a, b)) == Blank(a) && Blank(Blank(a)) == Blank(a)
  {
  }

  /** The fixed part of the model: the tree and the two mutation matrices
      (`mm0` the diagonal, `mm1` the off-diagonal part). */
  datatype Env = Env(kids: Kids, mm0: Mat, mm1: Mat)

  /** The per-node fields `PL0`, `PLm` and `sid`, indexed by arena slot. */
  datatype Lik = Lik(pl0: seq<Mat>, plm: seq<seq<Mat>>, sid: seq<seq<nat>>)

  predicate Sized(e: Env, s: Lik)
  {
    |s.pl0| == |e.kids| && |s.plm| == |e.kids| && |s.sid| == |e.kids|
  }

  /** The tree is ranked and binary, and the fields cover every slot. */
  ghost predicate Good(e: Env, rank: seq<nat>, s: Lik)
  {
    Ranked(e.kids, rank) && Binary(e.kids) && Sized(e, s)
  }

  /** `child.get_sisters()[0]` for child k of a node with two children. */
  function Sister(xs: seq<nat>, k: nat): nat
    requires |xs| == 2 && k < 2
  {
    if k == 0 then xs[1] else xs[0]
  }

  /** The edge row of child c: a mutation on the edge above c. */
  function Edge(e: Env, s: Lik, c: nat, sis: nat): Mat
    requires Sized(e, s) && c < |e.kids| && sis < |e.kids|
  {
    Times(Dot(s.pl0[c], e.mm1), Dot(s.pl0[sis], e.mm0))
  }

  /** A row r of child c's block, carried up one edge next to its sister. */
  function Carry(e: Env, s: Lik, r: Mat, sis: nat): Mat
    requires Sized(e, s) && sis < |e.kids|
  {
    Times(Dot(r, e.mm0), Dot(s.pl0[sis], e.mm0))
  }

  /** The rows child k of x contributes: its whole `PLm` carried up (none for
      a leaf child), then its edge row. */
  function ChildRows(e: Env, rank: seq<nat>, s: Lik, x: nat, k: nat): (r: seq<Mat>)
    requires Good(e, rank, s) && x < |e.kids| && |e.kids[x]| == 2 && k < 2
  {
    var c := e.kids[x][k];
    var sis := Sister(e.kids[x], k);
    (if e.kids[c] == [] then [] else Block(e, s, c, sis)) + [Edge(e, s, c, sis)]
  }

  /** `p2phred(np.dot(phred2p(child.PLm), mm0)) + p2phred(np.dot(phred2p(sister.PL0), mm0))`. */
  function Block(e: Env, s: Lik, c: nat, sis: nat): seq<Mat>
    requires Sized(e, s) && c < |e.kids| && sis < |e.kids|
  {
    seq(|s.plm[c]|, j requires 0 <= j < |s.plm[c]| => Carry(e, s, s.plm[c][j], sis))
  }

  /** The rows of the first k children, in child order. */
  function LayoutTo(e: Env, rank: seq<nat>, s: Lik, x: nat, k: nat): seq<Mat>
    requires Good(e, rank, s) && x < |e.kids| && k <= |e.kids[x]|
  {
    if k == 0 then [] else LayoutTo(e, rank, s, x, k - 1) + ChildRows(e, rank, s, x, k - 1)
  }

  /** The `PLm` of node x as the filling loop lays it out. */
  function Layout(e: Env, rank: seq<nat>, s: Lik, x: nat): seq<Mat>
    requires Good(e, rank, s) && x < |e.kids|
  {
    LayoutTo(e, rank, s, x, |e.kids[x]|)
  }

  /** `rows` written from the start of buffer `buf`; rows past the end would
      not fit (the source fails there, and no caller gets that far). */
  function Overwrite(buf: seq<Mat>, rows: seq<Mat>): seq<Mat>
  {
    rows + buf[Min(|rows|, |buf|)..]
  }

  lemma {:induction false} LeavesNonEmpty(kids: Kids, rank: seq<nat>, x: nat)
    requires Ranked(kids, rank) && x < |kids|
    ensures |Leaves(kids, rank, x)| >= 1
    decreases rank[x]
  {
    RankBoundBelow(kids, rank, x);
    if kids[x] != [] {
      var c := kids[x][0];
      assert kids[x] == [c] + kids[x][1..];
      LeavesAllAppend(kids, rank, [c], kids[x][1..]);
      PostorderAllOne(kids, rank, c);
      LeavesNonEmpty(kids, rank, c);
    }
  }

  /** `len(node)`: the number of leaves below x. */
  function LeafCount(kids: Kids, ghost rank: seq<nat>, x: nat): (r: nat)
    requires Ranked(kids, rank) && x < |kids|
    ensures r >= 1 && r == |Leaves(kids, rank, x)|
  {
    LeavesNonEmpty(kids, rank, x);
    |Leaves(kids, rank, x)|
  }

  /** `2*len(node)-2`, the number of `PLm` rows of node x. */
  function RowCount(kids: Kids, ghost rank: seq<nat>, x: nat): nat
    requires Ranked(kids, rank) && x < |kids|
  {
    2 * LeafCount(kids, rank, x) - 2
  }

  /** A binary node whose inner children have `2*len-2` rows each lays out
      exactly `2*len(x)-2` rows: `i` ends at the length of the buffer. */
  lemma LayoutCount(e: Env, rank: seq<nat>, s: Lik, x: nat)
    requires Good(e, rank, s) && x < |e.kids| && e.kids[x] != []
    requires forall k :: 0 <= k < 2 && e.kids[e.kids[x][k]] != [] ==>
      |s.plm[e.kids[x][k]]| == RowCount(e.kids, rank, e.kids[x][k])
    ensures |Layout(e, rank, s, x)| == RowCount(e.kids, rank, x)
  {
    var kids := e.kids;
    var a, b := kids[x][0], kids[x][1];
    assert kids[x] == [a] + [b];
    RankBoundBelow(kids, rank, x);
    LeavesAllAppend(kids, rank, [a], [b]);
    PostorderAllOne(kids, rank, a);
    PostorderAllOne(kids, rank, b);
    assert Leaves(kids, rank, x) == Leaves(kids, rank, a) + Leaves(kids, rank, b);
    ChildRowsCount(e, rank, s, x, 0);
    ChildRowsCount(e, rank, s, x, 1);
    assert LayoutTo(e, rank, s, x, 1) == ChildRows(e, rank, s, x, 0);
  }

  lemma ChildRowsCount(e: Env, rank: seq<nat>, s: Lik, x: nat, k: nat)
    requires Good(e, rank, s) && x < |e.kids| && |e.kids[x]| == 2 && k < 2
    requires e.kids[e.kids[x][k]] != [] ==> |s.plm[e.kids[x][k]]| == RowCount(e.kids, rank, e.kids[x][k])
    ensures |ChildRows(e, rank, s, x, k)| == 2 * LeafCount(e.kids, rank, e.kids[x][k]) - 1
  {
    var c := e.kids[x][k];
    if e.kids[c] == [] {
      assert Leaves(e.kids, rank, c) == [c];
    }
  }

  // ------------------------------------------------------------ update_PL

  /** `sorted(map(int, child.get_leaf_names()))`. */
  function SortedLeaves(kids: Kids, ghost rank: seq<nat>, x: nat): seq<nat>
    requires Ranked(kids, rank) && x < |kids|
  {
    Sort(Leaves(kids, rank, x))
  }

  /** The state after `update_PL(x)`: PL0 of x blanked and PLm of x set to
      `2*len(x)-2` blank rows; each child in turn repaired first if its `sid`
      is stale (and then given its sorted leaf ids), and folded into PL0 of x;
      finally the rows laid out over the buffer. */
  ghost function Repair(e: Env, rank: seq<nat>, s: Lik, x: nat): (r: Lik)
    requires Good(e, rank, s) && x < |e.kids|
    ensures Sized(e, r)
    decreases rank[x], 1
  {
    var s2 := RepairKids(e, rank, Blanked(e, rank, s, x), x, 0);
    s2.(plm := s2.plm[x := Overwrite(s2.plm[x], Layout(e, rank, s2, x))])
  }

  /** The first two statements of `update_PL(x)`: PL0 of x blanked and PLm of
      x set to `2*len(x)-2` blank rows. */
  function Blanked(e: Env, rank: seq<nat>, s: Lik, x: nat): (r: Lik)
    requires Good(e, rank, s) && x < |e.kids|
    ensures Good(e, rank, r) && |r.plm[x]| == RowCount(e.kids, rank, x)
  {
    var blank := Blank(s.pl0[x]);
    s.(pl0 := s.pl0[x := blank], plm := s.plm[x := seq(RowCount(e.kids, rank, x), _ => blank)])
  }

  /** The `for child in node.children` loop of `update_PL(x)` from child k on. */
  ghost function RepairKids(e: Env, rank: seq<nat>, s: Lik, x: nat, k: nat): (r: Lik)
    requires Good(e, rank, s) && x < |e.kids| && k <= |e.kids[x]|
    ensures Sized(e, r)
    decreases rank[x], 0, |e.kids[x]| - k
  {
    if k == |e.kids[x]| then s
    else RepairKids(e, rank, RepairStep(e, rank, s, x, k), x, k + 1)
  }

  /** One pass of that loop, for child k of x. */
  ghost function RepairStep(e: Env, rank: seq<nat>, s: Lik, x: nat, k: nat): (r: Lik)
    requires Good(e, rank, s) && x < |e.kids| && k < |e.kids[x]|
    ensures Sized(e, r)
    decreases rank[x], 0, 0
  {
    var c := e.kids[x][k];
    var want := SortedLeaves(e.kids, rank, c);
    var t := if s.sid[c] != want then var t := Repair(e, rank, s, c); t.(sid := t.sid[c := want]) else s;
    t.(pl0 := t.pl0[x := Times(t.pl0[x], Dot(t.pl0[c], e.mm0))])
  }

  /** Running the child loop of x from child k on, from s, ends in goal. */
  ghost predicate Reaches(e: Env, rank: seq<nat>, s: Lik, x: nat, k: nat, goal: Lik)
  {
    Good(e, rank, s) && x < |e.kids| && k <= |e.kids[x]| && RepairKids(e, rank, s, x, k) == goal
  }

  lemma RepairKidsTwo(e: Env, rank: seq<nat>, s: Lik, x: nat)
    requires Good(e, rank, s) && x < |e.kids| && e.kids[x] != []
    ensures |e.kids[x]| == 2 && Good(e, rank, RepairStep(e, rank, s, x, 0))
    ensures RepairKids(e, rank, s, x, 0) == RepairStep(e, rank, RepairStep(e, rank, s, x, 0), x, 1)
  {
    assert |e.kids[x]| == 2;
    var t1 := RepairStep(e, rank, s, x, 0);
    assert RepairKids(e, rank, s, x, 0) == RepairKids(e, rank, t1, x, 1);
    var t2 := RepairStep(e, rank, t1, x, 1);
    assert RepairKids(e, rank, t1, x, 1) == RepairKids(e, rank, t2, x, 2);
  }

  lemma RepairKidsUnfold(e: Env, rank: seq<nat>, s: Lik, x: nat, k: nat, goal: Lik)
    requires Reaches(e, rank, s, x, k, goal) && k < |e.kids[x]|
    ensures Reaches(e, rank, RepairStep(e, rank, s, x, k), x, k + 1, goal)
  {
  }

  /** Every inner node whose `sid` is up to date holds its `2*len-2` rows. */
  ghost predicate Consistent(e: Env, rank: seq<nat>, s: Lik)
  {
    Good(e, rank, s) &&
    forall y :: 0 <= y < |e.kids| && e.kids[y] != [] && s.sid[y] == SortedLeaves(e.kids, rank, y) ==>
      |s.plm[y]| == RowCount(e.kids, rank, y)
  }

  /** From s to s' nothing changed at nodes ranked above x, `sid` changed only
      at nodes ranked below x, and every `sid` that changed became the sorted
      leaf ids of its node. */
  ghost predicate KeptAbove(e: Env, rank: seq<nat>, s: Lik, s': Lik, x: nat)
    requires Good(e, rank, s) && Sized(e, s') && x < |e.kids|
  {
    (forall y :: 0 <= y < |e.kids| && rank[y] > rank[x] ==> s'.pl0[y] == s.pl0[y] && s'.plm[y] == s.plm[y]) &&
    (forall y :: 0 <= y < |e.kids| && rank[y] >= rank[x] ==> s'.sid[y] == s.sid[y]) &&
    (forall y :: 0 <= y < |e.kids| ==> s'.sid[y] == s.sid[y] || s'.sid[y] == SortedLeaves(e.kids, rank, y))
  }

  /** A sorted `sid` stays sorted. */
  lemma SortedStays(e: Env, rank: seq<nat>, s: Lik, s': Lik, x: nat, y: nat)
    requires Good(e, rank, s) && Sized(e, s') && x < |e.kids| && y < |e.kids|
    requires KeptAbove(e, rank, s, s', x) && s.sid[y] == SortedLeaves(e.kids, rank, y)
    ensures s'.sid[y] == SortedLeaves(e.kids, rank, y)
  {
  }

  lemma KeptTrans(e: Env, rank: seq<nat>, s0: Lik, s1: Lik, s2: Lik, c: nat, x: nat)
    requires Good(e, rank, s0) && Good(e, rank, s1) && Sized(e, s2) && c < |e.kids| && x < |e.kids|
    requires rank[c] <= rank[x] && KeptAbove(e, rank, s0, s1, c) && KeptAbove(e, rank, s1, s2, x)
    ensures KeptAbove(e, rank, s0, s2, x)
  {
  }

  /** After `update_PL(x)` every child of x carries its sorted leaf ids, x
      holds its `2*len(x)-2` rows, and nothing ranked above x changed. */
  lemma {:induction false} RepairFacts(e: Env, rank: seq<nat>, s: Lik, x: nat)
    requires Consistent(e, rank, s) && x < |e.kids|
    ensures Consistent(e, rank, Repair(e, rank, s, x))
    ensures |Repair(e, rank, s, x).plm[x]| == RowCount(e.kids, rank, x)
    ensures KeptAbove(e, rank, s, Repair(e, rank, s, x), x)
    ensures forall k :: 0 <= k < |e.kids[x]| ==>
      Repair(e, rank, s, x).sid[e.kids[x][k]] == SortedLeaves(e.kids, rank, e.kids[x][k])
    decreases rank[x], 1
  {
    var s1 := Blanked(e, rank, s, x);
    RepairKidsFacts(e, rank, s1, x, 0);
    RepairKidsSorted(e, rank, s1, x, 0);
    var s2 := RepairKids(e, rank, s1, x, 0);
    assert |s2.plm[x]| == RowCount(e.kids, rank, x);
    if e.kids[x] != [] {
      LayoutCount(e, rank, s2, x);
    } else {
      assert Layout(e, rank, s2, x) == [];
    }
  }

  /** After the child loop of `update_PL(x)` the buffer of x has room for
      its layout. */
  lemma RepairedRows(e: Env, rank: seq<nat>, s: Lik, x: nat, s2: Lik)
    requires Consistent(e, rank, s) && x < |e.kids|
    requires s2 == RepairKids(e, rank, Blanked(e, rank, s, x), x, 0)
    ensures Good(e, rank, s2) && |Layout(e, rank, s2, x)| <= |s2.plm[x]|
  {
    RepairKidsFacts(e, rank, Blanked(e, rank, s, x), x, 0);
    RepairKidsSorted(e, rank, Blanked(e, rank, s, x), x, 0);
    if e.kids[x] != [] {
      LayoutCount(e, rank, s2, x);
    }
  }

  lemma {:induction false} RepairKidsFacts(e: Env, rank: seq<nat>, s: Lik, x: nat, k: nat)
    requires Consistent(e, rank, s) && x < |e.kids| && k <= |e.kids[x]|
    requires |s.plm[x]| == RowCount(e.kids, rank, x)
    ensures Consistent(e, rank, RepairKids(e, rank, s, x, k))
    ensures RepairKids(e, rank, s, x, k).plm[x] == s.plm[x]
    ensures KeptAbove(e, rank, s, RepairKids(e, rank, s, x, k), x)
    decreases rank[x], 0, |e.kids[x]| - k
  {
    if k < |e.kids[x]| {
      var t := RepairStep(e, rank, s, x, k);
      RepairStepFacts(e, rank, s, x, k);
      RepairKidsFacts(e, rank, t, x, k + 1);
      KeptTrans(e, rank, s, t, RepairKids(e, rank, t, x, k + 1), x, x);
    }
  }

  /** The child loop from child k on leaves each later child's sid sorted. */
  lemma {:induction false} RepairKidsSorted(e: Env, rank: seq<nat>, s: Lik, x: nat, k: nat)
    requires Consistent(e, rank, s) && x < |e.kids| && k <= |e.kids[x]|
    requires |s.plm[x]| == RowCount(e.kids, rank, x)
    ensures forall j :: k <= j < |e.kids[x]| ==>
      RepairKids(e, rank, s, x, k).sid[e.kids[x][j]] == SortedLeaves(e.kids, rank, e.kids[x][j])
    decreases rank[x], 0, |e.kids[x]| - k
  {
    if k < |e.kids[x]| {
      var t := RepairStep(e, rank, s, x, k);
      RepairStepFacts(e, rank, s, x, k);
      RepairKidsFacts(e, rank, t, x, k + 1);
      RepairKidsSorted(e, rank, t, x, k + 1);
      var r := RepairKids(e, rank, t, x, k + 1);
      assert RepairKids(e, rank, s, x, k) == r;
      forall j | k <= j < |e.kids[x]|
        ensures r.sid[e.kids[x][j]] == SortedLeaves(e.kids, rank, e.kids[x][j])
      {
        if j == k {
          SortedStays(e, rank, t, r, x, e.kids[x][k]);
        } else {
          assert k + 1 <= j;
        }
      }
    }
  }

  lemma {:induction false} RepairStepFacts(e: Env, rank: seq<nat>, s: Lik, x: nat, k: nat)
    requires Consistent(e, rank, s) && x < |e.kids| && k < |e.kids[x]|
    requires |s.plm[x]| == RowCount(e.kids, rank, x)
    ensures Consistent(e, rank, RepairStep(e, rank, s, x, k))
    ensures RepairStep(e, rank, s, x, k).plm[x] == s.plm[x]
    ensures KeptAbove(e, rank, s, RepairStep(e, rank, s, x, k), x)
    ensures RepairStep(e, rank, s, x, k).sid[e.kids[x][k]] == SortedLeaves(e.kids, rank, e.kids[x][k])
    decreases rank[x], 0, 0
  {
    var c := e.kids[x][k];
    if s.sid[c] != SortedLeaves(e.kids, rank, c) {
      RepairFacts(e, rank, s, c);
    }
  }

  /** s and s' hold the same fields at node y. */
  ghost predicate SameAt(e: Env, s: Lik, s': Lik, y: nat)
    requires Sized(e, s) && Sized(e, s') && y < |e.kids|
  {
    s'.pl0[y] == s.pl0[y] && s'.plm[y] == s.plm[y] && s'.sid[y] == s.sid[y]
  }

  /** `update_PL(x)` touches only the nodes of x's subtree. */
  lemma {:induction false} RepairOutside(e: Env, rank: seq<nat>, s: Lik, x: nat, y: nat)
    requires Good(e, rank, s) && x < |e.kids| && y < |e.kids| && y !in Postorder(e.kids, rank, x)
    ensures SameAt(e, s, Repair(e, rank, s, x), y)
    decreases rank[x], 1
  {
    RepairKidsOutside(e, rank, Blanked(e, rank, s, x), x, 0, y);
  }

  lemma {:induction false} RepairKidsOutside(e: Env, rank: seq<nat>, s: Lik, x: nat, k: nat, y: nat)
    requires Good(e, rank, s) && x < |e.kids| && k <= |e.kids[x]| && y < |e.kids|
    requires y !in Postorder(e.kids, rank, x)
    ensures SameAt(e, s, RepairKids(e, rank, s, x, k), y)
    decreases rank[x], 0, |e.kids[x]| - k
  {
    if k < |e.kids[x]| {
      RepairStepOutside(e, rank, s, x, k, y);
      RepairKidsOutside(e, rank, RepairStep(e, rank, s, x, k), x, k + 1, y);
    }
  }

  lemma {:induction false} RepairStepOutside(e: Env, rank: seq<nat>, s: Lik, x: nat, k: nat, y: nat)
    requires Good(e, rank, s) && x < |e.kids| && k < |e.kids[x]| && y < |e.kids|
    requires y !in Postorder(e.kids, rank, x)
    ensures SameAt(e, s, RepairStep(e, rank, s, x, k), y)
    decreases rank[x], 0, 0
  {
    var c := e.kids[x][k];
    ChildSubtree(e.kids, rank, x, k);
    if s.sid[c] != SortedLeaves(e.kids, rank, c) {
      RepairOutside(e, rank, s, c, y);
    }
  }

  /** Rows that fill the buffer exactly replace it. */
  lemma OverwriteExact(buf: seq<Mat>, rows: seq<Mat>)
    requires |rows| == |buf|
    ensures Overwrite(buf, rows) == rows
  {
  }

  /** After `update_PL(x)` on a binary node, PL0 of x is the blank folded
      with both children's final PL0, in child order. */
  lemma FoldedPl0(e: Env, rank: seq<nat>, s: Lik, x: nat)
    requires Good(e, rank, s) && x < |e.kids| && e.kids[x] != [] && Distinct(Postorder(e.kids, rank, x))
    ensures var r := Repair(e, rank, s, x);
      r.pl0[x] == Times(Times(Blank(s.pl0[x]), Dot(r.pl0[e.kids[x][0]], e.mm0)), Dot(r.pl0[e.kids[x][1]], e.mm0))
  {
    var kids := e.kids;
    var a, b := kids[x][0], kids[x][1];
    var s1 := Blanked(e, rank, s, x);
    BinaryPostorder(kids, rank, x);
    DistinctParts(Postorder(kids, rank, a), Postorder(kids, rank, b), x);
    assert a in Postorder(kids, rank, a) && b in Postorder(kids, rank, b);
    var t1 := RepairStep(e, rank, s1, x, 0);
    RepairKidsTwo(e, rank, s1, x);
    var t2 := RepairStep(e, rank, t1, x, 1);
    if s1.sid[a] != SortedLeaves(kids, rank, a) {
      RepairOutside(e, rank, s1, a, x);
    }
    if t1.sid[b] != SortedLeaves(kids, rank, b) {
      RepairOutside(e, rank, t1, b, x);
      RepairOutside(e, rank, t1, b, a);
    }
  }

  /** After `update_PL(x)` the rows of x are exactly its layout. */
  lemma RowsLaidOut(e: Env, rank: seq<nat>, s: Lik, x: nat)
    requires Consistent(e, rank, s) && x < |e.kids|
    ensures Repair(e, rank, s, x).plm[x] == Layout(e, rank, Repair(e, rank, s, x), x)
  {
    var s1 := Blanked(e, rank, s, x);
    RepairKidsFacts(e, rank, s1, x, 0);
    RepairKidsSorted(e, rank, s1, x, 0);
    var s2 := RepairKids(e, rank, s1, x, 0);
    var r := s2.(plm := s2.plm[x := Overwrite(s2.plm[x], Layout(e, rank, s2, x))]);
    assert r == Repair(e, rank, s, x);
    RankBoundBelow(e.kids, rank, x);
    forall k | 0 <= k < |e.kids[x]|
      ensures r.pl0[e.kids[x][k]] == s2.pl0[e.kids[x][k]] && r.plm[e.kids[x][k]] == s2.plm[e.kids[x][k]]
    {
      assert e.kids[x][k] != x;
    }
    LayoutFrame(e, rank, s2, r, x);
    if e.kids[x] != [] {
      forall k | 0 <= k < 2 && e.kids[e.kids[x][k]] != []
        ensures |s2.plm[e.kids[x][k]]| == RowCount(e.kids, rank, e.kids[x][k])
      {
        assert s2.sid[e.kids[x][k]] == SortedLeaves(e.kids, rank, e.kids[x][k]);
      }
      LayoutCount(e, rank, s2, x);
    }
  }

  /** `update_PL(x)` on a node whose children are clean recomputes PL0 of x
      from a blank and the rows of x from the layout, and repairs nothing. */
  lemma RepairClean(e: Env, rank: seq<nat>, r: Lik, x: nat)
    requires Consistent(e, rank, r) && x < |e.kids| && e.kids[x] != []
    requires forall k :: 0 <= k < |e.kids[x]| ==> r.sid[e.kids[x][k]] == SortedLeaves(e.kids, rank, e.kids[x][k])
    ensures Repair(e, rank, r, x) == r.(
      pl0 := r.pl0[x := Times(Times(Blank(r.pl0[x]), Dot(r.pl0[e.kids[x][0]], e.mm0)), Dot(r.pl0[e.kids[x][1]], e.mm0))],
      plm := r.plm[x := Layout(e, rank, r, x)])
  {
    var u1 := Blanked(e, rank, r, x);
    KidsClean(e, rank, u1, x);
    CleanRows(e, rank, r, x);
  }

  /** The last statement of `update_PL(x)` after a clean child loop. */
  lemma CleanRows(e: Env, rank: seq<nat>, r: Lik, x: nat)
    requires Consistent(e, rank, r) && x < |e.kids| && e.kids[x] != []
    requires forall k :: 0 <= k < |e.kids[x]| ==> r.sid[e.kids[x][k]] == SortedLeaves(e.kids, rank, e.kids[x][k])
    ensures |e.kids[x]| == 2
    ensures var u1 := Blanked(e, rank, r, x);
      var v2 := u1.(pl0 := u1.pl0[x := Times(Times(u1.pl0[x], Dot(u1.pl0[e.kids[x][0]], e.mm0)), Dot(u1.pl0[e.kids[x][1]], e.mm0))]);
      v2.(plm := v2.plm[x := Overwrite(v2.plm[x], Layout(e, rank, v2, x))]) == r.(
        pl0 := r.pl0[x := Times(Times(Blank(r.pl0[x]), Dot(r.pl0[e.kids[x][0]], e.mm0)), Dot(r.pl0[e.kids[x][1]], e.mm0))],
        plm := r.plm[x := Layout(e, rank, r, x)])
  {
    var kids := e.kids;
    assert |kids[x]| == 2;
    var a, b := kids[x][0], kids[x][1];
    var blank := Blank(r.pl0[x]);
    var blanks := seq(RowCount(kids, rank, x), _ => blank);
    var u1 := Blanked(e, rank, r, x);
    var v2 := u1.(pl0 := u1.pl0[x := Times(Times(u1.pl0[x], Dot(u1.pl0[a], e.mm0)), Dot(u1.pl0[b], e.mm0))]);
    RankBoundBelow(kids, rank, x);
    assert a != x && b != x;
    var t := Times(Times(blank, Dot(r.pl0[a], e.mm0)), Dot(r.pl0[b], e.mm0));
    assert u1.pl0[a] == r.pl0[a] && u1.pl0[b] == r.pl0[b];
    assert v2.pl0 == r.pl0[x := blank][x := t];
    UpdateTwice(r.pl0, x, blank, t);
    assert v2.plm == r.plm[x := blanks];
    forall k | 0 <= k < 2 && kids[kids[x][k]] != []
      ensures |r.plm[kids[x][k]]| == RowCount(kids, rank, kids[x][k])
    {
      assert r.sid[kids[x][k]] == SortedLeaves(kids, rank, kids[x][k]);
    }
    CleanLayout(e, rank, r, v2, x, blanks);
  }

  /** With x's rows blank and its children untouched, writing x's layout
      gives the rows x had. */
  lemma CleanLayout(e: Env, rank: seq<nat>, r: Lik, v2: Lik, x: nat, blanks: seq<Mat>)
    requires Good(e, rank, r) && Good(e, rank, v2) && x < |e.kids| && |e.kids[x]| == 2
    requires v2.pl0[e.kids[x][0]] == r.pl0[e.kids[x][0]] && v2.pl0[e.kids[x][1]] == r.pl0[e.kids[x][1]]
    requires |blanks| == RowCount(e.kids, rank, x) && v2.plm == r.plm[x := blanks]
    requires forall k :: 0 <= k < 2 && e.kids[e.kids[x][k]] != [] ==>
      |r.plm[e.kids[x][k]]| == RowCount(e.kids, rank, e.kids[x][k])
    ensures v2.plm[x := Overwrite(v2.plm[x], Layout(e, rank, v2, x))] == r.plm[x := Layout(e, rank, r, x)]
  {
    var kids := e.kids;
    var a, b := kids[x][0], kids[x][1];
    RankBoundBelow(kids, rank, x);
    assert a != x && b != x;
    forall k | 0 <= k < |kids[x]|
      ensures v2.pl0[kids[x][k]] == r.pl0[kids[x][k]] && v2.plm[kids[x][k]] == r.plm[kids[x][k]]
    {
      assert kids[x][k] == if k == 0 then a else b;
    }
    LayoutFrame(e, rank, r, v2, x);
    LayoutCount(e, rank, r, x);
    OverwriteExact(v2.plm[x], Layout(e, rank, r, x));
    UpdateTwice(r.plm, x, blanks, Layout(e, rank, r, x));
  }

  lemma UpdateTwice<T>(s: seq<T>, i: nat, a: T, b: T)
    requires i < |s|
    ensures s[i := a][i := b] == s[i := b]
  {
    var t, u := s[i := a][i := b], s[i := b];
    assert forall j :: 0 <= j < |s| ==> t[j] == u[j];
  }

  /** The child loop over clean children only folds them into PL0 of x. */
  lemma KidsClean(e: Env, rank: seq<nat>, u: Lik, x: nat)
    requires Good(e, rank, u) && x < |e.kids| && e.kids[x] != []
    requires forall k :: 0 <= k < |e.kids[x]| ==> u.sid[e.kids[x][k]] == SortedLeaves(e.kids, rank, e.kids[x][k])
    ensures |e.kids[x]| == 2
    ensures RepairKids(e, rank, u, x, 0) == u.(pl0 := u.pl0[x :=
      Times(Times(u.pl0[x], Dot(u.pl0[e.kids[x][0]], e.mm0)), Dot(u.pl0[e.kids[x][1]], e.mm0))])
  {
    RepairKidsTwo(e, rank, u, x);
    StepClean(e, rank, u, x, 0);
    var v1 := u.(pl0 := u.pl0[x := Times(u.pl0[x], Dot(u.pl0[e.kids[x][0]], e.mm0))]);
    StepClean(e, rank, v1, x, 1);
  }

  /** A child whose `sid` is clean is only folded into PL0 of its parent. */
  lemma StepClean(e: Env, rank: seq<nat>, s: Lik, x: nat, k: nat)
    requires Good(e, rank, s) && x < |e.kids| && k < |e.kids[x]|
    requires s.sid[e.kids[x][k]] == SortedLeaves(e.kids, rank, e.kids[x][k])
    ensures e.kids[x][k] != x
    ensures RepairStep(e, rank, s, x, k) == s.(pl0 := s.pl0[x := Times(s.pl0[x], Dot(s.pl0[e.kids[x][k]], e.mm0))])
  {
  }

  /** A second `update_PL(x)` right after the first changes nothing: the
      children are now clean so nothing is repaired again, PL0 of x is blanked
      before the children are folded in again, and the rows are laid out
      again from the same children. Needs x's subtree to hold each node
      once, as in a tree. */
  lemma RepairIdempotent(e: Env, rank: seq<nat>, s: Lik, x: nat)
    requires Consistent(e, rank, s) && x < |e.kids| && Distinct(Postorder(e.kids, rank, x))
    ensures Repair(e, rank, Repair(e, rank, s, x), x) == Repair(e, rank, s, x)
  {
    var r := Repair(e, rank, s, x);
    RepairFacts(e, rank, s, x);
    RowsLaidOut(e, rank, s, x);
    if e.kids[x] == [] {
      BlankTimes(s.pl0[x], s.pl0[x]);
      assert Layout(e, rank, r, x) == [];
    } else {
      InnerRepairIdempotent(e, rank, s, x);
    }
  }

  lemma InnerRepairIdempotent(e: Env, rank: seq<nat>, s: Lik, x: nat)
    requires Consistent(e, rank, s) && x < |e.kids| && Distinct(Postorder(e.kids, rank, x)) && e.kids[x] != []
    requires Consistent(e, rank, Repair(e, rank, s, x))
    requires forall k :: 0 <= k < |e.kids[x]| ==>
      Repair(e, rank, s, x).sid[e.kids[x][k]] == SortedLeaves(e.kids, rank, e.kids[x][k])
    requires Repair(e, rank, s, x).plm[x] == Layout(e, rank, Repair(e, rank, s, x), x)
    ensures Repair(e, rank, Repair(e, rank, s, x), x) == Repair(e, rank, s, x)
  {
    var r := Repair(e, rank, s, x);
    var da, db := Dot(r.pl0[e.kids[x][0]], e.mm0), Dot(r.pl0[e.kids[x][1]], e.mm0);
    FoldedPl0(e, rank, s, x);
    BlankTimes(Times(Blank(s.pl0[x]), da), db);
    BlankTimes(Blank(s.pl0[x]), da);
    BlankTimes(s.pl0[x], s.pl0[x]);
    RepairClean(e, rank, r, x);
    assert r.pl0[x := r.pl0[x]] == r.pl0 && r.plm[x := r.plm[x]] == r.plm;
  }

  /** In a tree, so in the tree neighbor joining builds, repeating
      `update_PL(x)` gives the same state. */
  lemma TreeRepairIdempotent(e: Env, rank: seq<nat>, s: Lik, root: nat, x: nat)
    requires Consistent(e, rank, s) && IsTree(e.kids, rank, root) && x < |e.kids|
    ensures Repair(e, rank, Repair(e, rank, s, x), x) == Repair(e, rank, s, x)
  {
    TreeDistinct(e.kids, rank, root, x);
    RepairIdempotent(e, rank, s, x);
  }

  /** Layout reads only x's children's fields. */
  lemma LayoutFrame(e: Env, rank: seq<nat>, s: Lik, s': Lik, x: nat)
    requires Good(e, rank, s) && Good(e, rank, s') && x < |e.kids|
    requires forall k :: 0 <= k < |e.kids[x]| ==>
      s'.pl0[e.kids[x][k]] == s.pl0[e.kids[x][k]] && s'.plm[e.kids[x][k]] == s.plm[e.kids[x][k]]
    ensures Layout(e, rank, s', x) == Layout(e, rank, s, x)
  {
    if e.kids[x] != [] {
      assert LayoutTo(e, rank, s, x, 1) == ChildRows(e, rank, s, x, 0);
      assert LayoutTo(e, rank, s', x, 1) == ChildRows(e, rank, s', x, 0);
    }
  }

  /** The tree with its likelihood fields. */
  class LikTree {
    const kids: Kids
    ghost const rank: seq<nat>
    const mm0: Mat
    const mm1: Mat
    var pl0: seq<Mat>
    var plm: seq<seq<Mat>>
    var sid: seq<seq<nat>>

    function E(): Env
    {
      Env(kids, mm0, mm1)
    }

    function State(): Lik
      reads this
    {
      Lik(pl0, plm, sid)
    }

    /** Every inner node whose `sid` is up to date has its `2*len-2` rows. */
    ghost predicate Valid()
      reads this
    {
      Consistent(E(), rank, State())
    }

    /** A tree whose `PL0` and `sid` fields are set; no node has `PLm` yet. */
    constructor (kids: Kids, ghost rank: seq<nat>, mm0: Mat, mm1: Mat, pl0: seq<Mat>, sid: seq<seq<nat>>)
      requires Ranked(kids, rank) && Binary(kids) && |pl0| == |kids| && |sid| == |kids|
      ensures this.kids == kids && this.rank == rank && this.mm0 == mm0 && this.mm1 == mm1
      ensures this.pl0 == pl0 && this.sid == sid && this.plm == seq(|kids|, _ => [])
      ensures Good(E(), rank, State())
    {
      this.kids, this.rank, this.mm0, this.mm1 := kids, rank, mm0, mm1;
      this.pl0, this.sid := pl0, sid;
      this.plm := seq(|kids|, _ => []);
    }

    /** `calc_mut_likelihoods(tree, mm0, mm1)`: every inner node first gets
        `2*len-2` blank rows shaped like the root's PL0; then, in post-order,
        each inner node's rows are filled from its children's. Afterwards every
        inner node's PLm is exactly its layout over the final fields. */
    method CalcMutLikelihoods(root: nat)
      modifies this
      requires Good(E(), rank, State()) && IsTree(kids, rank, root)
      ensures Valid()
      ensures pl0 == old(pl0) && sid == old(sid)
      ensures forall y :: 0 <= y < |kids| && kids[y] == [] ==> plm[y] == old(plm[y])
      ensures forall y :: 0 <= y < |kids| && kids[y] != [] ==>
        plm[y] == Layout(E(), rank, State(), y) && |plm[y]| == RowCount(kids, rank, y)
    {
      var order := Postorder(kids, rank, root);
      PostorderNumbering(kids, rank, root);
      AllocateRows(order, root, Blank(pl0[root]));
      plm := FillPostorder(E(), rank, State(), order, root);
      FilledAll(E(), rank, State(), order, root);
    }

    /** `update_PL(node, mm0, mm1)`: PL0 of x is blanked and x gets
        `2*len(x)-2` blank rows; each child whose `sid` differs from its sorted
        leaf ids is repaired first and then given those ids; each child's PL0
        is folded into x's; finally x's rows are filled. */
    method UpdatePL(x: nat)
      modifies this
      requires Valid() && x < |kids|
      ensures Valid() && State() == Repair(E(), rank, old(State()), x)
      decreases rank[x], 1
    {
      ghost var s0 := State();
      RepairFacts(E(), rank, s0, x);
      var blank := Blank(pl0[x]);
      pl0 := pl0[x := blank];
      plm := plm[x := seq(RowCount(kids, rank, x), _ => blank)];
      assert State() == Blanked(E(), rank, s0, x);
      RepairKidsFacts(E(), rank, State(), x, 0);
      RepairKidsSorted(E(), rank, State(), x, 0);
      RepairAllKids(x);
      ghost var s2 := State();
      RepairedRows(E(), rank, s0, x, s2);
      var rows := FillRows(E(), rank, State(), x, plm[x]);
      plm := plm[x := rows];
      assert State() == s2.(plm := s2.plm[x := rows]);
    }

    /** The `for child in node.children` loop of `update_PL(x)`. */
    method RepairAllKids(x: nat)
      modifies this
      requires Valid() && x < |kids| && |plm[x]| == RowCount(kids, rank, x)
      ensures State() == RepairKids(E(), rank, old(State()), x, 0)
      decreases rank[x], 0, 1
    {
      ghost var goal := RepairKids(E(), rank, State(), x, 0);
      var k := 0;
      while k < |kids[x]|
        invariant 0 <= k <= |kids[x]| && Valid()
        invariant |plm[x]| == RowCount(kids, rank, x)
        invariant Reaches(E(), rank, State(), x, k, goal)
      {
        ghost var sk := State();
        RepairStepFacts(E(), rank, sk, x, k);
        RepairChild(x, k);
        RepairKidsUnfold(E(), rank, sk, x, k, goal);
        k := k + 1;
      }
    }

    /** One pass of the child loop of `update_PL(x)`, for child k. */
    method RepairChild(x: nat, k: nat)
      modifies this
      requires Valid() && x < |kids| && k < |kids[x]|
      ensures State() == RepairStep(E(), rank, old(State()), x, k)
      decreases rank[x], 0, 0
    {
      var c := kids[x][k];
      var want := SortedLeaves(kids, rank, c);
      if sid[c] != want {
        UpdatePL(c);
        sid := sid[c := want];
      }
      pl0 := pl0[x := Times(pl0[x], Dot(pl0[c], mm0))];
    }

    /** The first loop of `calc_mut_likelihoods`: `np.zeros((2*len(node)-2, n, g))`
        for every inner node. */
    method AllocateRows(order: seq<nat>, root: nat, blank: Mat)
      modifies this
      requires Good(E(), rank, State()) && Numbering(kids, order, root)
      ensures Good(E(), rank, State()) && pl0 == old(pl0) && sid == old(sid)
      ensures forall y :: 0 <= y < |kids| ==>
        plm[y] == if kids[y] == [] then old(plm[y]) else seq(RowCount(kids, rank, y), _ => blank)
    {
      ghost var plm0 := plm;
      var i := 0;
      while i < |order|
        invariant 0 <= i <= |order| && Good(E(), rank, State()) && pl0 == old(pl0) && sid == old(sid)
        invariant forall t :: 0 <= t < |order| ==>
          plm[order[t]] == if kids[order[t]] == [] || t >= i then plm0[order[t]]
                           else seq(RowCount(kids, rank, order[t]), _ => blank)
      {
        var x := order[i];
        if kids[x] != [] {
          ghost var prev := plm;
          plm := plm[x := seq(RowCount(kids, rank, x), _ => blank)];
          forall t | 0 <= t < |order|
            ensures plm[order[t]] == if kids[order[t]] == [] || t >= i + 1 then plm0[order[t]]
                                     else seq(RowCount(kids, rank, order[t]), _ => blank)
          {
            if t != i {
              assert order[t] != x && plm[order[t]] == prev[order[t]];
            }
          }
        }
        i := i + 1;
      }
      forall y | 0 <= y < |kids|
        ensures plm[y] == if kids[y] == [] then plm0[y] else seq(RowCount(kids, rank, y), _ => blank)
      {
        assert y in order;
        var t :| 0 <= t < |order| && order[t] == y;
      }
    }
  }

  /** The filling loop shared by `calc_mut_likelihoods` and `update_PL`:
      with a running row index i, each child writes its carried-up block
      `PLm[i:i+l]` and then its edge row `PLm[i]`, into the buffer `buf`. */
  method FillRows(e: Env, ghost rank: seq<nat>, st: Lik, x: nat, buf: seq<Mat>) returns (rows: seq<Mat>)
    requires Good(e, rank, st) && x < |e.kids|
    requires |Layout(e, rank, st, x)| <= |buf|
    ensures rows == Overwrite(buf, Layout(e, rank, st, x))
  {
    var kids := e.kids;
    rows := buf;
    var i := 0;
    var k := 0;
    while k < |kids[x]|
      invariant 0 <= k <= |kids[x]| && |rows| == |buf|
      invariant i == |LayoutTo(e, rank, st, x, k)| <= |buf|
      invariant rows == LayoutTo(e, rank, st, x, k) + buf[i..]
    {
      LayoutToGrows(e, rank, st, x, k + 1, |kids[x]|);
      rows, i := WriteChild(e, rank, st, x, k, buf, rows, i);
      k := k + 1;
    }
  }

  /** One pass of the filling loop: child k's block at `PLm[i:i+l]` (skipped
      for a leaf child) and its edge row at `PLm[i]`. */
  method WriteChild(e: Env, ghost rank: seq<nat>, st: Lik, x: nat, k: nat, buf: seq<Mat>, rows: seq<Mat>, i: nat)
    returns (rows': seq<Mat>, i': nat)
    requires Good(e, rank, st) && x < |e.kids| && k < |e.kids[x]|
    requires |LayoutTo(e, rank, st, x, k + 1)| <= |buf|
    requires i == |LayoutTo(e, rank, st, x, k)| && rows == LayoutTo(e, rank, st, x, k) + buf[i..]
    ensures i' == |LayoutTo(e, rank, st, x, k + 1)| && rows' == LayoutTo(e, rank, st, x, k + 1) + buf[i'..]
  {
    var kids := e.kids;
    var c := kids[x][k];
    var sis := Sister(kids[x], k);
    ghost var before := LayoutTo(e, rank, st, x, k);
    rows', i' := rows, i;
    if kids[c] != [] {
      var blk := Block(e, st, c, sis);
      SpliceRows(before, blk, buf);
      rows' := rows'[..i'] + blk + rows'[i' + |blk|..];
      i' := i' + |blk|;
    }
    ghost var mid := before + (if kids[c] == [] then [] else Block(e, st, c, sis));
    assert rows' == mid + buf[i'..] && i' == |mid|;
    SetRow(mid, Edge(e, st, c, sis), buf);
    rows' := rows'[i' := Edge(e, st, c, sis)];
    assert LayoutTo(e, rank, st, x, k + 1) == mid + [Edge(e, st, c, sis)];
    i' := i' + 1;
  }

  lemma {:induction false} LayoutToGrows(e: Env, rank: seq<nat>, s: Lik, x: nat, k: nat, k': nat)
    requires Good(e, rank, s) && x < |e.kids| && k <= k' <= |e.kids[x]|
    ensures |LayoutTo(e, rank, s, x, k)| <= |LayoutTo(e, rank, s, x, k')|
    decreases k' - k
  {
    if k < k' {
      LayoutToGrows(e, rank, s, x, k, k' - 1);
    }
  }

  lemma SpliceRows(p: seq<Mat>, b: seq<Mat>, buf: seq<Mat>)
    requires |p| + |b| <= |buf|
    ensures (p + buf[|p|..])[..|p|] + b + (p + buf[|p|..])[|p| + |b|..] == p + b + buf[|p| + |b|..]
  {
    var rows := p + buf[|p|..];
    assert rows[..|p|] == p;
    assert rows[|p| + |b|..] == buf[|p| + |b|..];
  }

  lemma SetRow(p: seq<Mat>, r: Mat, buf: seq<Mat>)
    requires |p| < |buf|
    ensures (p + buf[|p|..])[|p| := r] == p + [r] + buf[|p| + 1..]
  {
  }

  /** Filling the i-th node of a post-order changes no layout of a node
      visited before it: none of those is its parent. */
  lemma LayoutsKept(e: Env, rank: seq<nat>, s: Lik, s': Lik, order: seq<nat>, root: nat, i: nat)
    requires Good(e, rank, s) && Good(e, rank, s') && Numbering(e.kids, order, root) && i < |order|
    requires s'.pl0 == s.pl0 && forall y :: 0 <= y < |e.kids| && y != order[i] ==> s'.plm[y] == s.plm[y]
    ensures forall t :: 0 <= t <= i ==> Layout(e, rank, s', order[t]) == Layout(e, rank, s, order[t])
  {
    var kids, x := e.kids, order[i];
    forall t | 0 <= t <= i ensures Layout(e, rank, s', order[t]) == Layout(e, rank, s, order[t]) {
      LayoutFrame(e, rank, s, s', order[t]);
    }
  }

  /** Between the passes of the second loop of `calc_mut_likelihoods`: every
      inner node has its `2*len-2` rows, and those of the first i nodes of the
      post-order are their layouts. */
  ghost predicate Filled(e: Env, rank: seq<nat>, s: Lik, order: seq<nat>, i: nat)
    requires Good(e, rank, s)
  {
    (forall y :: 0 <= y < |e.kids| && e.kids[y] != [] ==> |s.plm[y]| == RowCount(e.kids, rank, y)) &&
    forall t :: 0 <= t < i && t < |order| && order[t] < |e.kids| && e.kids[order[t]] != [] ==>
      s.plm[order[t]] == Layout(e, rank, s, order[t])
  }

  /** A leaf of the post-order has no rows to fill. */
  lemma FillSkipsLeaf(e: Env, rank: seq<nat>, s: Lik, order: seq<nat>, i: nat)
    requires Good(e, rank, s) && i < |order| && order[i] < |e.kids| && e.kids[order[i]] == []
    requires Filled(e, rank, s, order, i)
    ensures Filled(e, rank, s, order, i + 1)
  {
    forall t | 0 <= t < i + 1 && t < |order| && order[t] < |e.kids| && e.kids[order[t]] != []
      ensures s.plm[order[t]] == Layout(e, rank, s, order[t])
    {
      assert t < i;
    }
  }

  /** Filling x with its own layout keeps every node's row count. */
  lemma FillSizes(e: Env, rank: seq<nat>, s: Lik, x: nat, rows: seq<Mat>)
    requires Good(e, rank, s) && x < |e.kids|
    requires forall y :: 0 <= y < |e.kids| && e.kids[y] != [] ==> |s.plm[y]| == RowCount(e.kids, rank, y)
    requires |rows| == |s.plm[x]|
    ensures Good(e, rank, s.(plm := s.plm[x := rows]))
    ensures forall y :: 0 <= y < |e.kids| && e.kids[y] != [] ==>
      |s.plm[x := rows][y]| == RowCount(e.kids, rank, y)
  {
  }

  /** Filling the i-th node (an inner one) keeps the earlier layouts. */
  lemma FillKeeps(e: Env, rank: seq<nat>, s: Lik, order: seq<nat>, root: nat, i: nat, rows: seq<Mat>)
    requires Good(e, rank, s) && Numbering(e.kids, order, root) && i < |order| && e.kids[order[i]] != []
    requires Filled(e, rank, s, order, i)
    requires |Layout(e, rank, s, order[i])| == |s.plm[order[i]]|
    requires rows == Overwrite(s.plm[order[i]], Layout(e, rank, s, order[i]))
    ensures Good(e, rank, s.(plm := s.plm[order[i] := rows]))
    ensures Filled(e, rank, s.(plm := s.plm[order[i] := rows]), order, i + 1)
  {
    var x := order[i];
    assert rows == Layout(e, rank, s, x);
    FillSizes(e, rank, s, x, rows);
    var s' := s.(plm := s.plm[x := rows]);
    LayoutsKept(e, rank, s, s', order, root, i);
    forall t | 0 <= t <= i && e.kids[order[t]] != []
      ensures s'.plm[order[t]] == Layout(e, rank, s', order[t])
    {
      if t < i {
        assert order[t] != x;
      }
    }
  }

  lemma FilledAll(e: Env, rank: seq<nat>, s: Lik, order: seq<nat>, root: nat)
    requires Good(e, rank, s) && Numbering(e.kids, order, root) && Filled(e, rank, s, order, |order|)
    ensures forall y :: 0 <= y < |e.kids| && e.kids[y] != [] ==>
      s.plm[y] == Layout(e, rank, s, y) && |s.plm[y]| == RowCount(e.kids, rank, y)
  {
    forall y | 0 <= y < |e.kids| && e.kids[y] != []
      ensures s.plm[y] == Layout(e, rank, s, y)
    {
      assert y in order;
      var t :| 0 <= t < |order| && order[t] == y;
    }
  }

  /** The second loop of `calc_mut_likelihoods`: in post-order, each inner
      node's rows are filled from its children's, which are already final. */
  method FillPostorder(e: Env, ghost rank: seq<nat>, s: Lik, order: seq<nat>, root: nat) returns (plm: seq<seq<Mat>>)
    requires Good(e, rank, s) && Numbering(e.kids, order, root) && Filled(e, rank, s, order, 0)
    ensures Good(e, rank, s.(plm := plm))
    ensures forall y :: 0 <= y < |e.kids| && e.kids[y] == [] ==> plm[y] == s.plm[y]
    ensures Filled(e, rank, s.(plm := plm), order, |order|)
  {
    var kids := e.kids;
    var st := s;
    var i := 0;
    while i < |order|
      invariant 0 <= i <= |order| && Good(e, rank, st) && st.pl0 == s.pl0 && st.sid == s.sid
      invariant forall y :: 0 <= y < |kids| && kids[y] == [] ==> st.plm[y] == s.plm[y]
      invariant Filled(e, rank, st, order, i)
    {
      var x := order[i];
      if kids[x] != [] {
        LayoutCount(e, rank, st, x);
        var rows := FillRows(e, rank, st, x, st.plm[x]);
        FillKeeps(e, rank, st, order, root, i, rows);
        ghost var before := st;
        st := st.(plm := st.plm[x := rows]);
        forall y | 0 <= y < |kids| && kids[y] == [] ensures st.plm[y] == s.plm[y] {
          assert y != x && st.plm[y] == before.plm[y];
        }
      } else {
        FillSkipsLeaf(e, rank, st, order, i);
      }
      i := i + 1;
    }
    plm := st.plm;
    assert st == s.(plm := plm);
  }
}
