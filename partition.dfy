/** `calc_minimum_pt_cost` and `partition`: the samples under a node are split
    in two by the cheapest row of the selection matrix, and each side with
    more than one sample is split again. */
module Partition {
  import opened Common
  import opened Selection

  /** `PLs`: per site, per sample, one value per genotype column. */
  type Pls = seq<seq<seq<real>>>

  ghost predicate Shaped(pls: Pls, m: nat, g: nat)
  {
    forall i :: 0 <= i < |pls| ==> |pls[i]| == m && forall s :: 0 <= s < m ==> |pls[i][s]| == g
  }

  /** Every row of the selection matrix has 0/1 entries. */
  ghost predicate Selector(k: seq<int>)
  {
    forall c :: 0 <= c < |k| ==> k[c] == 0 || k[c] == 1
  }

  /** `xs[k == side]`: the entries at positions where k holds `side`, in order. */
  function Pick<T>(xs: seq<T>, k: seq<int>, side: int): (r: seq<T>)
    requires |xs| == |k|
    ensures |r| <= |xs| && forall x :: x in r ==> x in xs
  {
    if xs == [] then [] else (if k[0] == side then [xs[0]] else []) + Pick(xs[1..], k[1..], side)
  }

  /** `PLs[:, k == side, ]`. */
  function Restrict(pls: Pls, k: seq<int>, side: int): (r: Pls)
    requires forall i :: 0 <= i < |pls| ==> |pls[i]| == |k|
    ensures |r| == |pls|
  {
    seq(|pls|, i requires 0 <= i < |pls| => Pick(pls[i], k, side))
  }

  function Add(u: seq<real>, v: seq<real>): (w: seq<real>)
    requires |u| == |v|
    ensures |w| == |u|
  {
    seq(|u|, j requires 0 <= j < |u| => u[j] + v[j])
  }

  /** `.sum(axis=1)` over the picked samples: a vector of g values, all zero
      when nothing is picked. */
  function VSum(vs: seq<seq<real>>, g: nat): (v: seq<real>)
    requires forall x :: x in vs ==> |x| == g
    ensures |v| == g
  {
    if vs == [] then seq(g, _ => 0.0) else Add(VSum(vs[..|vs| - 1], g), vs[|vs| - 1])
  }

  function VMin(v: seq<real>): real
    requires v != []
  {
    if |v| == 1 then v[0] else
      var a, b := VMin(v[..|v| - 1]), v[|v| - 1];
      if a <= b then a else b
  }

  function VMax(v: seq<real>): real
    requires v != []
  {
    if |v| == 1 then v[0] else
      var a, b := VMax(v[..|v| - 1]), v[|v| - 1];
      if a >= b then a else b
  }

  /** One site's share: `x0min + x1min`, kept only when either side's
      largest total exceeds `min_ev`. */
  function SiteCost(site: seq<seq<real>>, k: seq<int>, minEv: real, g: nat): real
    requires g >= 1 && |site| == |k| && forall s :: 0 <= s < |site| ==> |site[s]| == g
  {
    var x0, x1 := VSum(Pick(site, k, 0), g), VSum(Pick(site, k, 1), g);
    if VMax(x0) > minEv || VMax(x1) > minEv then VMin(x0) + VMin(x1) else 0.0
  }

  /** `c` in `calc_minimum_pt_cost` for the selection row k. */
  function Cost(pls: Pls, k: seq<int>, minEv: real, g: nat): real
    requires g >= 1 && Shaped(pls, |k|, g)
  {
    Sum(seq(|pls|, i requires 0 <= i < |pls| => SiteCost(pls[i], k, minEv, g)))
  }

  function Costs(pls: Pls, smat: seq<seq<int>>, minEv: real, m: nat, g: nat): (c: seq<real>)
    requires g >= 1 && Shaped(pls, m, g) && forall r :: 0 <= r < |smat| ==> |smat[r]| == m
    ensures |c| == |smat|
  {
    seq(|smat|, r requires 0 <= r < |smat| => Cost(pls, smat[r], minEv, g))
  }

  /** i is the first position of a smallest cost among the first n. */
  ghost predicate FirstMinBelow(c: seq<real>, n: nat, i: nat)
  {
    i < n <= |c| && (forall j :: 0 <= j < n ==> c[i] <= c[j]) && (forall j :: 0 <= j < i ==> c[i] < c[j])
  }

  /** i is the first position of a smallest cost. */
  ghost predicate FirstMin(c: seq<real>, i: nat)
  {
    FirstMinBelow(c, |c|, i)
  }

  /** `calc_minimum_pt_cost`: a running minimum that starts at `inf` and moves
      only on a strictly smaller cost, so ties go to the earliest row. With no
      rows `pt` is never bound; that is `None` here. */
  method MinimumPtCost(pls: Pls, smat: seq<seq<int>>, minEv: real, m: nat, g: nat)
    returns (pt: Option<seq<int>>, ptCost: Ext)
    requires g >= 1 && Shaped(pls, m, g) && forall r :: 0 <= r < |smat| ==> |smat[r]| == m
    ensures smat == [] ==> pt == None && ptCost == Inf
    ensures smat != [] ==>
      exists i: nat :: FirstMin(Costs(pls, smat, minEv, m, g), i) &&
        pt == Some(smat[i]) && ptCost == Fin(Costs(pls, smat, minEv, m, g)[i])
  {
    ghost var c := Costs(pls, smat, minEv, m, g);
    pt, ptCost := None, Inf;
    ghost var at := 0;
    var r := 0;
    while r < |smat|
      invariant 0 <= r <= |smat|
      invariant r == 0 ==> pt == None && ptCost == Inf
      invariant r > 0 ==> FirstMinBelow(c, r, at) && pt == Some(smat[at]) && ptCost == Fin(c[at])
    {
      var cost := Cost(pls, smat[r], minEv, g);
      assert cost == c[r];
      if Less(Fin(cost), ptCost) {
        pt, ptCost, at := Some(smat[r]), Fin(cost), r;
      }
      r := r + 1;
    }
  }

  /** When the first row is as cheap as any, it is the one chosen. */
  lemma FirstMinAtZero(c: seq<real>, i: nat)
    requires FirstMin(c, i) && forall j :: 0 <= j < |c| ==> c[0] <= c[j]
    ensures i == 0
  {
    assert c[0] <= c[i];
  }

  // ------------------------------------------------------------- picking

  lemma PickCover<T>(xs: seq<T>, k: seq<int>)
    requires |xs| == |k| && Selector(k)
    ensures multiset(Pick(xs, k, 0)) + multiset(Pick(xs, k, 1)) == multiset(xs)
  {
    if xs != [] {
      PickCover(xs[1..], k[1..]);
      assert xs == [xs[0]] + xs[1..];
    }
  }

  lemma PickSameLength<T, U>(xs: seq<T>, ys: seq<U>, k: seq<int>, side: int)
    requires |xs| == |k| && |ys| == |k|
    ensures |Pick(xs, k, side)| == |Pick(ys, k, side)|
  {
  }

  lemma {:induction false} PickShorter<T>(xs: seq<T>, k: seq<int>, side: int, c: nat)
    requires |xs| == |k| && c < |k| && k[c] != side
    ensures |Pick(xs, k, side)| < |xs|
  {
    if c > 0 {
      PickShorter(xs[1..], k[1..], side, c - 1);
    }
  }

  lemma {:induction false} PickNonEmpty<T>(xs: seq<T>, k: seq<int>, side: int, c: nat)
    requires |xs| == |k| && c < |k| && k[c] == side
    ensures Pick(xs, k, side) != []
  {
    if c > 0 && k[0] != side {
      PickNonEmpty(xs[1..], k[1..], side, c - 1);
    }
  }

  lemma PickAll<T>(xs: seq<T>, k: seq<int>, side: int)
    requires |xs| == |k| && forall c :: 0 <= c < |k| ==> k[c] == side
    ensures Pick(xs, k, side) == xs
  {
    if xs != [] {
      PickAll(xs[1..], k[1..], side);
    }
  }

  lemma PickNone<T>(xs: seq<T>, k: seq<int>, side: int)
    requires |xs| == |k| && forall c :: 0 <= c < |k| ==> k[c] != side
    ensures Pick(xs, k, side) == []
  {
    if xs != [] {
      PickNone(xs[1..], k[1..], side);
    }
  }

  lemma RestrictShaped(pls: Pls, k: seq<int>, side: int, sidx: seq<nat>, g: nat)
    requires Shaped(pls, |k|, g) && |sidx| == |k|
    ensures Shaped(Restrict(pls, k, side), |Pick(sidx, k, side)|, g)
  {
    var r := Restrict(pls, k, side);
    forall i | 0 <= i < |pls|
      ensures |r[i]| == |Pick(sidx, k, side)| && forall s :: 0 <= s < |r[i]| ==> |r[i][s]| == g
    {
      PickSameLength(pls[i], sidx, k, side);
      forall s | 0 <= s < |r[i]| ensures |r[i][s]| == g {
        assert r[i][s] in pls[i];
      }
    }
  }

  /** A nonzero number has a 1 among its digits. */
  lemma {:induction false} FromBitsNonzero(s: seq<int>)
    requires FromBits(s) != 0
    ensures exists c :: 0 <= c < |s| && s[c] != 0
  {
    if s[|s| - 1] == 0 {
      FromBitsNonzero(s[..|s| - 1]);
      var c :| 0 <= c < |s| - 1 && s[..|s| - 1][c] != 0;
      assert s[c] != 0;
    }
  }

  // -------------------------------------------------------- silent sites

  /** Every value is 0: no sample shows any signal. */
  ghost predicate Silent(pls: Pls)
  {
    forall i, s, j :: 0 <= i < |pls| && 0 <= s < |pls[i]| && 0 <= j < |pls[i][s]| ==> pls[i][s][j] == 0.0
  }

  ghost predicate ZeroVector(v: seq<real>)
  {
    forall j :: 0 <= j < |v| ==> v[j] == 0.0
  }

  lemma {:induction false} VSumZero(vs: seq<seq<real>>, g: nat)
    requires forall x :: x in vs ==> |x| == g && ZeroVector(x)
    ensures ZeroVector(VSum(vs, g))
  {
    if vs != [] {
      VSumZero(vs[..|vs| - 1], g);
      assert vs[|vs| - 1] in vs;
    }
  }

  lemma {:induction false} VMinMaxZero(v: seq<real>)
    requires v != [] && ZeroVector(v)
    ensures VMin(v) == 0.0 && VMax(v) == 0.0
  {
    if |v| > 1 {
      VMinMaxZero(v[..|v| - 1]);
    }
  }

  lemma {:induction false} SumZero(s: seq<real>)
    requires forall i :: 0 <= i < |s| ==> s[i] == 0.0
    ensures Sum(s) == 0.0
  {
    if s != [] {
      SumZero(s[..|s| - 1]);
    }
  }

  lemma SiteCostSilent(site: seq<seq<real>>, k: seq<int>, minEv: real, g: nat)
    requires g >= 1 && |site| == |k| && forall s :: 0 <= s < |site| ==> |site[s]| == g && ZeroVector(site[s])
    ensures SiteCost(site, k, minEv, g) == 0.0
  {
    VSumZero(Pick(site, k, 0), g);
    VSumZero(Pick(site, k, 1), g);
    VMinMaxZero(VSum(Pick(site, k, 0), g));
    VMinMaxZero(VSum(Pick(site, k, 1), g));
  }

  /** With no signal, every split costs 0. */
  lemma CostSilent(pls: Pls, k: seq<int>, minEv: real, g: nat)
    requires g >= 1 && Shaped(pls, |k|, g) && Silent(pls)
    ensures Cost(pls, k, minEv, g) == 0.0
  {
    var s := seq(|pls|, i requires 0 <= i < |pls| => SiteCost(pls[i], k, minEv, g));
    forall i | 0 <= i < |pls| ensures s[i] == 0.0 {
      forall t | 0 <= t < |pls[i]| ensures ZeroVector(pls[i][t]) {
      }
      SiteCostSilent(pls[i], k, minEv, g);
    }
    SumZero(s);
  }

  lemma RestrictSilent(pls: Pls, k: seq<int>, side: int)
    requires Silent(pls) && forall i :: 0 <= i < |pls| ==> |pls[i]| == |k|
    ensures Silent(Restrict(pls, k, side))
  {
    var r := Restrict(pls, k, side);
    forall i, s, j | 0 <= i < |r| && 0 <= s < |r[i]| && 0 <= j < |r[i][s]| ensures r[i][s][j] == 0.0 {
      assert r[i][s] in pls[i];
    }
  }

  // ---------------------------------------------------------- the split

  /** A node that `partition` added: its `samples` and the children it added
      under it. */
  datatype Part = Part(samples: seq<nat>, kids: seq<Part>)

  /** What a call of `partition` leaves under the node it was given; `Exit`
      is `sys.exit(1)` on fewer than two samples, `OutOfFuel` a recursion
      deeper than the bound. */
  datatype Outcome = Done(kids: seq<Part>) | Exit | OutOfFuel

  /** A node with fewer than two samples has no children; any other has two
      whose samples together are its own, and so on down. */
  ghost predicate Hierarchy(p: Part)
  {
    if |p.samples| <= 1 then p.kids == []
    else
      |p.kids| == 2 &&
      multiset(p.kids[0].samples) + multiset(p.kids[1].samples) == multiset(p.samples) &&
      Hierarchy(p.kids[0]) && Hierarchy(p.kids[1])
  }

  /** No node of the hierarchy has an empty sample list. */
  ghost predicate NonEmptyParts(p: Part)
  {
    p.samples != [] && forall k :: 0 <= k < |p.kids| ==> NonEmptyParts(p.kids[k])
  }

  lemma HierarchyJoin(p: Part)
    requires |p.samples| >= 2 && |p.kids| == 2
    requires multiset(p.kids[0].samples) + multiset(p.kids[1].samples) == multiset(p.samples)
    requires Hierarchy(p.kids[0]) && Hierarchy(p.kids[1])
    ensures Hierarchy(p)
  {
  }

  /** Joining two non-empty hierarchies whose samples make up the parent's. */
  lemma JoinSides(p: Part)
    requires |p.samples| >= 2 && |p.kids| == 2
    requires multiset(p.kids[0].samples) + multiset(p.kids[1].samples) == multiset(p.samples)
    requires Hierarchy(p.kids[0]) && Hierarchy(p.kids[1])
    requires NonEmptyParts(p.kids[0]) && NonEmptyParts(p.kids[1])
    ensures Hierarchy(p) && NonEmptyParts(p)
  {
  }

  /** Rows `lo` up to `2^(m-1) - 1` of `make_selection_matrix2(m)`. */
  function Rows(m: nat, lo: nat): (rows: seq<seq<int>>)
    requires m >= 1 && lo <= Pow2(m - 1)
    ensures |rows| == Pow2(m - 1) - lo && forall r :: 0 <= r < |rows| ==> rows[r] == Bits(r + lo, m)
  {
    seq(Pow2(m - 1) - lo, r requires 0 <= r < Pow2(m - 1) - lo => Bits(r + lo, m))
  }

  /** Every split in `p` is the one `partition` makes when it offers the
      rows from `lo` on to `calc_minimum_pt_cost`: with more than two
      samples the kids are `samples[k == 0]` and `samples[k == 1]` for the
      first cheapest such row k, each split again the same way on its own
      columns `PLs[:, k == side, ]`; two samples become two leaves, and one
      sample or none is a leaf. */
  ghost predicate CheapestSplit(pls: Pls, p: Part, minEv: real, g: nat, lo: nat)
    decreases p
  {
    var m := |p.samples|;
    if m <= 1 then p.kids == []
    else if m == 2 then p.kids == [Part([p.samples[0]], []), Part([p.samples[1]], [])]
    else
      g >= 1 && Shaped(pls, m, g) && lo <= Pow2(m - 1) && |p.kids| == 2 &&
      var rows := Rows(m, lo);
      exists i :: 0 <= i < |rows| && FirstMin(Costs(pls, rows, minEv, m, g), i) &&
        p.kids[0].samples == Pick(p.samples, rows[i], 0) &&
        p.kids[1].samples == Pick(p.samples, rows[i], 1) &&
        CheapestSplit(Restrict(pls, rows[i], 0), p.kids[0], minEv, g, lo) &&
        CheapestSplit(Restrict(pls, rows[i], 1), p.kids[1], minEv, g, lo)
  }

  /** The first position of a smallest cost is unique, so `CheapestSplit`
      leaves no choice of row. */
  lemma FirstMinUnique(c: seq<real>, i: nat, j: nat)
    requires FirstMin(c, i) && FirstMin(c, j)
    ensures i == j
  {
    assert c[i] <= c[j] && c[j] <= c[i];
  }

  /** Two samples split into two leaves. */
  lemma TwoLeaves(sidx: seq<nat>)
    requires |sidx| == 2
    ensures var p := Part(sidx, [Part([sidx[0]], []), Part([sidx[1]], [])]);
      Hierarchy(p) && NonEmptyParts(p)
  {
    assert sidx == [sidx[0]] + [sidx[1]];
  }

  /** One side of a split as written: `child` gets `sidx[k == side]`, and
      `partition` runs on it when it has more than one sample. A child
      returned is `Done([child])`. */
  method SideAsWritten(pls: Pls, sidx: seq<nat>, k: seq<int>, side: int, minEv: real, g: nat, fuel: nat)
    returns (r: Outcome)
    requires g >= 1 && Shaped(pls, |sidx|, g) && |sidx| <= 20 && |k| == |sidx| && fuel > 0
    decreases fuel, 0
    ensures r.Done? ==> |r.kids| == 1 && r.kids[0].samples == Pick(sidx, k, side) && Hierarchy(r.kids[0])
    ensures r.Done? ==> CheapestSplit(Restrict(pls, k, side), r.kids[0], minEv, g, 0)
    ensures Silent(pls) && Restrict(pls, k, side) == pls && Pick(sidx, k, side) == sidx && |sidx| > 2 ==>
      r == OutOfFuel
  {
    var part := Pick(sidx, k, side);
    if |part| > 1 {
      RestrictShaped(pls, k, side, sidx, g);
      var sub := PartitionAsWritten(Restrict(pls, k, side), part, minEv, g, fuel - 1);
      if !sub.Done? {
        return sub;
      }
      return Done([Part(part, sub.kids)]);
    }
    return Done([Part(part, [])]);
  }

  /** `partition(PLs, tree, sidx, min_ev)` as written, with a bound on the
      recursion depth. `make_selection_matrix2(m)` uses its default t = 20,
      so at most 20 samples keep it on its deterministic branches. */
  method PartitionAsWritten(pls: Pls, sidx: seq<nat>, minEv: real, g: nat, fuel: nat) returns (r: Outcome)
    requires g >= 1 && Shaped(pls, |sidx|, g) && |sidx| <= 20
    decreases fuel, 1
    ensures fuel > 0 && |sidx| <= 1 ==> r == Exit
    ensures fuel > 0 && |sidx| == 2 ==> r == Done([Part([sidx[0]], []), Part([sidx[1]], [])])
    ensures r.Done? ==> Hierarchy(Part(sidx, r.kids)) && CheapestSplit(pls, Part(sidx, r.kids), minEv, g, 0)
    ensures Silent(pls) && |sidx| > 2 ==> r == OutOfFuel
  {
    var m := |sidx|;
    if fuel == 0 {
      return OutOfFuel;
    }
    if m == 2 {
      TwoLeaves(sidx);
      return Done([Part([sidx[0]], []), Part([sidx[1]], [])]);
    } else if m > 2 {
      var smat := SelectionMatrix2(m, 20);
      var pt, cost := MinimumPtCost(pls, smat, minEv, m, g);
      ghost var i: nat :| FirstMin(Costs(pls, smat, minEv, m, g), i) && pt == Some(smat[i]);
      assert smat == Rows(m, 0);
      var k := pt.value;
      RowSplit(sidx, k, i);
      if Silent(pls) {
        SilentChoice(pls, smat, minEv, m, g, i);
        SilentNeverSplits(pls, sidx, k);
      }
      var s0 := SideAsWritten(pls, sidx, k, 0, minEv, g, fuel);
      if !s0.Done? {
        return s0;
      }
      var s1 := SideAsWritten(pls, sidx, k, 1, minEv, g, fuel);
      if !s1.Done? {
        return s1;
      }
      HierarchyJoin(Part(sidx, [s0.kids[0], s1.kids[0]]));
      return Done([s0.kids[0], s1.kids[0]]);
    } else {
      return Exit;
    }
  }

  /** With three or more samples and no signal every split costs 0, the
      all-zeros row 0 wins the tie, `sidx0` is `sidx` again and the
      recursion repeats its own call: no depth bound is enough. */
  lemma SilentNeverSplits(pls: Pls, sidx: seq<nat>, k: seq<int>)
    requires |sidx| == |k| && forall c :: 0 <= c < |k| ==> k[c] == 0
    requires forall i :: 0 <= i < |pls| ==> |pls[i]| == |k|
    ensures Pick(sidx, k, 0) == sidx && Restrict(pls, k, 0) == pls && Pick(sidx, k, 1) == []
  {
    PickAll(sidx, k, 0);
    var r := Restrict(pls, k, 0);
    forall i | 0 <= i < |pls| ensures r[i] == pls[i] {
      PickAll(pls[i], k, 0);
    }
    assert r == pls;
    PickNone(sidx, k, 1);
  }

  /** On silent data the split chosen from `make_selection_matrix2` is row 0,
      which puts every sample on side 0. */
  lemma SilentChoice(pls: Pls, smat: seq<seq<int>>, minEv: real, m: nat, g: nat, i: nat)
    requires g >= 1 && m >= 1 && Shaped(pls, m, g) && Silent(pls)
    requires |smat| == Pow2(m - 1) && forall r :: 0 <= r < |smat| ==> smat[r] == Bits(r, m) && |smat[r]| == m
    requires FirstMin(Costs(pls, smat, minEv, m, g), i)
    ensures i == 0 && forall c :: 0 <= c < m ==> smat[i][c] == 0
  {
    var cs := Costs(pls, smat, minEv, m, g);
    forall j | 0 <= j < |smat| ensures cs[j] == 0.0 {
      CostSilent(pls, smat[j], minEv, g);
    }
    FirstMinAtZero(cs, i);
    BitsFirstZero(0, m);
  }

  /** Any row of the matrix is a 0/1 selector that covers the samples once. */
  lemma RowSplit(sidx: seq<nat>, k: seq<int>, r: nat)
    requires k == Bits(r, |sidx|)
    ensures Selector(k)
    ensures multiset(Pick(sidx, k, 0)) + multiset(Pick(sidx, k, 1)) == multiset(sidx)
  {
    BitsBinary(r, |sidx|);
    PickCover(sidx, k);
  }

  /** A row other than row 0 leaves both sides non-empty and smaller. */
  lemma ProperSplit(sidx: seq<nat>, k: seq<int>, r: nat)
    requires |sidx| >= 1 && 1 <= r < Pow2(|sidx| - 1) && k == Bits(r, |sidx|)
    ensures 0 < |Pick(sidx, k, 0)| < |sidx| && 0 < |Pick(sidx, k, 1)| < |sidx|
  {
    var m := |sidx|;
    BitsFirstZero(r, m);
    PickShorter(sidx, k, 1, 0);
    PickNonEmpty(sidx, k, 0, 0);
    assert Pow2(m) == 2 * Pow2(m - 1);
    FromBitsBits(r, m);
    FromBitsNonzero(k);
    var c :| 0 <= c < |k| && k[c] != 0;
    PickShorter(sidx, k, 0, c);
    BitsBinary(r, m);
    PickNonEmpty(sidx, k, 1, c);
  }

  /** One side of a split whose sides are both non-empty and smaller. */
  method Side(pls: Pls, sidx: seq<nat>, k: seq<int>, side: int, minEv: real, g: nat) returns (child: Part)
    requires g >= 1 && Shaped(pls, |sidx|, g) && |sidx| <= 20 && |k| == |sidx|
    requires 0 < |Pick(sidx, k, side)| < |sidx|
    decreases |sidx|, 0
    ensures child.samples == Pick(sidx, k, side) && Hierarchy(child) && NonEmptyParts(child)
    ensures CheapestSplit(Restrict(pls, k, side), child, minEv, g, 1)
  {
    var part := Pick(sidx, k, side);
    child := Part(part, []);
    if |part| > 1 {
      RestrictShaped(pls, k, side, sidx, g);
      var sub := Partition(Restrict(pls, k, side), part, minEv, g);
      child := Part(part, sub.kids);
    }
  }

  /** `partition` with the all-zeros row left out of the candidates: every
      remaining row puts sample 0 on side 0 and some sample on side 1, so both
      sides are smaller and the recursion ends. */
  method Partition(pls: Pls, sidx: seq<nat>, minEv: real, g: nat) returns (r: Outcome)
    requires g >= 1 && Shaped(pls, |sidx|, g) && |sidx| <= 20
    decreases |sidx|, 1
    ensures |sidx| <= 1 <==> r == Exit
    ensures |sidx| == 2 ==> r == Done([Part([sidx[0]], []), Part([sidx[1]], [])])
    ensures |sidx| >= 2 ==> r.Done? && Hierarchy(Part(sidx, r.kids)) && NonEmptyParts(Part(sidx, r.kids))
    ensures |sidx| >= 2 ==> r.Done? && CheapestSplit(pls, Part(sidx, r.kids), minEv, g, 1)
  {
    var m := |sidx|;
    if m == 2 {
      TwoLeaves(sidx);
      return Done([Part([sidx[0]], []), Part([sidx[1]], [])]);
    } else if m > 2 {
      var smat := SelectionMatrix2(m, 20);
      assert Pow2(m - 1) == 2 * Pow2(m - 2);
      var candidates := smat[1..];
      assert candidates == Rows(m, 1);
      var pt, cost := MinimumPtCost(pls, candidates, minEv, m, g);
      ghost var i: nat :| FirstMin(Costs(pls, candidates, minEv, m, g), i) && pt == Some(candidates[i]);
      var k := pt.value;
      assert k == smat[i + 1];
      RowSplit(sidx, k, i + 1);
      ProperSplit(sidx, k, i + 1);
      var child0 := Side(pls, sidx, k, 0, minEv, g);
      var child1 := Side(pls, sidx, k, 1, minEv, g);
      JoinSides(Part(sidx, [child0, child1]));
      return Done([child0, child1]);
    } else {
      return Exit;
    }
  }
}
