/** The decision rules of the local search: `reroot`'s acceptance of a new
    root, the quartet swaps and three-way choice of
    `nearest_neighbor_interchange`, and the sweeps of `recursive_NNI`. Trees
    are values, and the scores and rerooted trees the rules compare come in as
    parameters. */
module LocalSearch {
  import opened Common

  /** What `reroot` returns: the best tree, its score, and 1 when a candidate
      replaced the tree it was given. */
  datatype Rerooted<S> = Rerooted(tree: S, pl: real, flag: int)

  /** A candidate below the running best by the relative margin `delta`. */
  predicate Beats(pl: real, best: real, delta: real)
  {
    pl < best * (1.0 - delta)
  }

  /** With 0 <= delta < 1 and a score that is not negative, beating the
      margin twice beats it against the first score too. */
  lemma MarginChain(s: real, p: real, b: real, delta: real)
    requires 0.0 <= delta < 1.0 && 0.0 <= b && Beats(p, b, delta) && Beats(s, p, delta)
    ensures Beats(s, b, delta)
  {
    var f := 1.0 - delta;
    assert b * f <= b;
    assert p < b;
    assert p * f <= b * f;
  }

  /** The candidate `reroot` holds after looking at the first k: the last
      one that beat the score held before it, or -1 when none did. */
  ghost function Taken(basePL: real, scores: seq<real>, delta: real, k: nat): (t: int)
    requires k <= |scores|
    ensures -1 <= t < k
  {
    if k == 0 then -1
    else
      var t := Taken(basePL, scores, delta, k - 1);
      if Beats(scores[k - 1], Held(basePL, scores, t), delta) then k - 1 else t
  }

  /** The score held with candidate t taken (-1: the tree's own score). */
  ghost function Held(basePL: real, scores: seq<real>, t: int): real
    requires t < |scores|
  {
    if t < 0 then basePL else scores[t]
  }

  /** A taken candidate beat the score held when it was reached, and every
      later one failed to beat it. */
  lemma {:induction false} TakenBeats(basePL: real, scores: seq<real>, delta: real, k: nat)
    requires k <= |scores|
    ensures var t := Taken(basePL, scores, delta, k);
      (t >= 0 ==> Beats(scores[t], Held(basePL, scores, Taken(basePL, scores, delta, t)), delta)) &&
      forall j :: t < j < k ==> !Beats(scores[j], Held(basePL, scores, t), delta)
  {
    if k > 0 {
      TakenBeats(basePL, scores, delta, k - 1);
    }
  }

  /** `reroot`: `cands[i]` is the tree rerooted at the i-th descendant in
      post-order and `scores[i]` its score; a candidate is taken only when it
      beats the running best by the margin. */
  method Reroot<S>(tree: S, basePL: real, cands: seq<S>, scores: seq<real>, delta: real) returns (r: Rerooted<S>)
    requires |cands| == |scores|
    ensures r.flag == 0 || r.flag == 1
    ensures r.flag == 1 <==> exists i :: 0 <= i < |scores| && Beats(scores[i], basePL, delta)
    ensures r.flag == 0 ==> r.tree == tree && r.pl == basePL
    ensures r.flag == 1 ==>
      exists b :: 0 <= b < |cands| && r.tree == cands[b] && r.pl == scores[b] &&
        forall j :: b < j < |scores| ==> !Beats(scores[j], r.pl, delta)
    ensures 0.0 <= delta < 1.0 && 0.0 <= basePL && r.flag == 1 ==> Beats(r.pl, basePL, delta)
    ensures var t := Taken(basePL, scores, delta, |scores|);
      r == if t < 0 then Rerooted(tree, basePL, 0) else Rerooted(cands[t], scores[t], 1)
  {
    r := Rerooted(tree, basePL, 0);
    ghost var at := 0;
    var i := 0;
    while i < |cands|
      invariant 0 <= i <= |cands|
      invariant r.flag == 0 || r.flag == 1
      invariant r.flag == 0 ==> r.tree == tree && r.pl == basePL && forall j :: 0 <= j < i ==> !Beats(scores[j], basePL, delta)
      invariant r.flag == 1 ==>
        at < i && r.tree == cands[at] && r.pl == scores[at] &&
        forall j :: at < j < i ==> !Beats(scores[j], r.pl, delta)
      invariant r.flag == 1 ==> exists j :: 0 <= j < i && Beats(scores[j], basePL, delta)
      invariant 0.0 <= delta < 1.0 && 0.0 <= basePL && r.flag == 1 ==> Beats(r.pl, basePL, delta)
      invariant var t := Taken(basePL, scores, delta, i);
        r == if t < 0 then Rerooted(tree, basePL, 0) else Rerooted(cands[t], scores[t], 1)
    {
      if Beats(scores[i], r.pl, delta) {
        if 0.0 <= delta < 1.0 && 0.0 <= basePL && r.flag == 1 {
          MarginChain(scores[i], r.pl, basePL, delta);
        }
        r := Rerooted(cands[i], scores[i], 1);
        at := i;
      }
      i := i + 1;
    }
  }

  // ------------------------------------------------------------ quartets

  /** A tree node: its name and its children in order; a leaf has none. */
  datatype Tree = Tree(name: nat, kids: seq<Tree>)

  function LeafSet(t: Tree): multiset<nat>
    decreases t, 1
  {
    if t.kids == [] then multiset{t.name} else LeafSetAll(t.kids)
  }

  function LeafSetAll(ts: seq<Tree>): multiset<nat>
    decreases ts, 0
  {
    if ts == [] then multiset{} else LeafSet(ts[0]) + LeafSetAll(ts[1..])
  }

  ghost predicate Binary(t: Tree)
  {
    t.kids == [] || (|t.kids| == 2 && Binary(t.kids[0]) && Binary(t.kids[1]))
  }

  /** Which way `nearest_neighbor_interchange` leaves: both children are
      leaves, one is, four grandchildren to swap, or an unpacking of
      `node.children` into two names that raises. */
  datatype NniCase = BothLeaves | OneLeaf | Quartet | Unpackable

  function Classify(node: Tree): NniCase
  {
    if |node.kids| != 2 then Unpackable
    else
      var c1, c2 := node.kids[0], node.kids[1];
      if c1.kids == [] && c2.kids == [] then BothLeaves
      else if c1.kids == [] || c2.kids == [] then OneLeaf
      else if |c1.kids| != 2 || |c2.kids| != 2 then Unpackable
      else Quartet
  }

  /** The second arrangement: c12 and c22 are detached and appended to the
      other child, so c1 holds c11, c22 and c2 holds c21, c12. */
  function Swap1(node: Tree): (r: Tree)
    requires Classify(node) == Quartet
  {
    var c1, c2 := node.kids[0], node.kids[1];
    Tree(node.name, [Tree(c1.name, [c1.kids[0], c2.kids[1]]), Tree(c2.name, [c2.kids[0], c1.kids[1]])])
  }

  /** The third arrangement: c12 and c21 trade places, so c1 holds c11, c21
      and c2 holds c22, c12. */
  function Swap2(node: Tree): (r: Tree)
    requires Classify(node) == Quartet
  {
    var c1, c2 := node.kids[0], node.kids[1];
    Tree(node.name, [Tree(c1.name, [c1.kids[0], c2.kids[0]]), Tree(c2.name, [c2.kids[1], c1.kids[1]])])
  }

  lemma LeafSetPair(t: Tree)
    requires |t.kids| == 2
    ensures LeafSet(t) == LeafSet(t.kids[0]) + LeafSet(t.kids[1])
  {
    var ks := t.kids;
    assert LeafSetAll(ks) == LeafSet(ks[0]) + LeafSetAll(ks[1..]);
    assert ks[1..][0] == ks[1] && ks[1..][1..] == [];
    assert LeafSetAll(ks[1..]) == LeafSet(ks[1]) + LeafSetAll([]);
  }

  /** The leaves of a quartet, grouped by grandchild. */
  lemma QuartetLeaves(node: Tree)
    requires Classify(node) == Quartet
    ensures var c1, c2 := node.kids[0], node.kids[1];
      LeafSet(c1) == LeafSet(c1.kids[0]) + LeafSet(c1.kids[1]) &&
      LeafSet(c2) == LeafSet(c2.kids[0]) + LeafSet(c2.kids[1]) &&
      LeafSet(node) == LeafSet(c1) + LeafSet(c2)
  {
    LeafSetPair(node);
    LeafSetPair(node.kids[0]);
    LeafSetPair(node.kids[1]);
  }

  /** Both swaps keep the node's leaves. */
  lemma SwapsKeepLeaves(node: Tree)
    requires Classify(node) == Quartet
    ensures LeafSet(Swap1(node)) == LeafSet(node) && LeafSet(Swap2(node)) == LeafSet(node)
  {
    QuartetLeaves(node);
    QuartetLeaves(Swap1(node));
    QuartetLeaves(Swap2(node));
  }

  /** Both swaps keep a binary node binary. */
  lemma SwapsKeepBinary(node: Tree)
    requires Classify(node) == Quartet && Binary(node)
    ensures Binary(Swap1(node)) && Binary(Swap2(node))
  {
    var c1, c2 := node.kids[0], node.kids[1];
    assert Binary(c1) && Binary(c2);
    assert Binary(c1.kids[0]) && Binary(c1.kids[1]) && Binary(c2.kids[0]) && Binary(c2.kids[1]);
    var s1 := Swap1(node);
    assert Binary(s1.kids[0]) && Binary(s1.kids[1]);
    var s2 := Swap2(node);
    assert Binary(s2.kids[0]) && Binary(s2.kids[1]);
  }

  /** The split a quartet arrangement makes: the leaves under each child. */
  function Split(node: Tree): set<multiset<nat>>
    requires |node.kids| == 2
  {
    {LeafSet(node.kids[0]), LeafSet(node.kids[1])}
  }

  lemma {:induction false} LeafSetNonEmpty(t: Tree)
    ensures |LeafSet(t)| > 0
    decreases t, 1
  {
    if t.kids != [] {
      LeafSetAllNonEmpty(t.kids);
    }
  }

  lemma {:induction false} LeafSetAllNonEmpty(ts: seq<Tree>)
    requires ts != []
    ensures |LeafSetAll(ts)| > 0
    decreases ts, 0
  {
    LeafSetNonEmpty(ts[0]);
  }

  /** The three ways of pairing four disjoint non-empty leaf groups differ. */
  lemma ThreePairings(a: multiset<nat>, b: multiset<nat>, c: multiset<nat>, d: multiset<nat>)
    requires |a| > 0 && |b| > 0 && |c| > 0 && |d| > 0
    requires a !! b && a !! c && a !! d && b !! c && b !! d && c !! d
    ensures {a + b, c + d} != {a + d, c + b} && {a + b, c + d} != {a + c, d + b} &&
      {a + d, c + b} != {a + c, d + b}
  {
    var x :| x in a;
    var y :| y in b;
    var z :| z in d;
    assert y in a + b && y !in a + d && y !in a + c;
    assert x in a + b && x !in c + b && x !in d + b;
    assert z in a + d && z !in a + c;
    assert x in a + d && x !in d + b;
    assert a + b !in {a + d, c + b} && a + b !in {a + c, d + b} && a + d !in {a + c, d + b};
  }

  /** When the four grandchildren have disjoint leaves, the original and
      the two swaps make three different splits. */
  lemma QuartetSplitsDistinct(node: Tree)
    requires Classify(node) == Quartet
    requires var c1, c2 := node.kids[0], node.kids[1];
      var a, b, c, d := LeafSet(c1.kids[0]), LeafSet(c1.kids[1]), LeafSet(c2.kids[0]), LeafSet(c2.kids[1]);
      a !! b && a !! c && a !! d && b !! c && b !! d && c !! d
    ensures Split(node) != Split(Swap1(node)) && Split(node) != Split(Swap2(node)) &&
      Split(Swap1(node)) != Split(Swap2(node))
  {
    var c1, c2 := node.kids[0], node.kids[1];
    var a, b, c, d := LeafSet(c1.kids[0]), LeafSet(c1.kids[1]), LeafSet(c2.kids[0]), LeafSet(c2.kids[1]);
    LeafSetNonEmpty(c1.kids[0]);
    LeafSetNonEmpty(c1.kids[1]);
    LeafSetNonEmpty(c2.kids[0]);
    LeafSetNonEmpty(c2.kids[1]);
    QuartetLeaves(node);
    QuartetLeaves(Swap1(node));
    QuartetLeaves(Swap2(node));
    assert Split(node) == {a + b, c + d};
    assert Split(Swap1(node)) == {a + d, c + b};
    assert Split(Swap2(node)) == {a + c, d + b};
    ThreePairings(a, b, c, d);
  }

  // ---------------------------------------------------- the three-way choice

  /** Which arrangement `nearest_neighbor_interchange` keeps. A swap is kept
      only when it beats the first arrangement by the margin, and the kept
      one scores no more than the other swap; a tie between the swaps goes to
      the third arrangement. */
  function Choice(pl0: real, pl1: real, pl2: real, delta: real): (c: nat)
    ensures c <= 2
    ensures c == 0 <==> !Beats(pl1, pl0, delta) && !Beats(pl2, pl0, delta)
    ensures c == 1 ==> Beats(pl1, pl0, delta) && pl1 < pl2
    ensures c == 2 ==> Beats(pl2, pl0, delta) && pl2 <= pl1
    ensures pl1 == pl2 && Beats(pl1, pl0, delta) ==> c == 2
  {
    if Beats(pl1, pl0, delta) then (if pl1 < pl2 then 1 else 2)
    else if Beats(pl2, pl0, delta) then 2
    else 0
  }

  /** The three outcomes of `nearest_neighbor_interchange`: `(None, None, 0)`,
      the node's own `reroot`, a chosen arrangement, or the unpacking error. */
  datatype Nni<S> = NoMove | RerootNode | Chosen(r: Rerooted<S>) | Malformed

  function Pick3<S>(r0: Rerooted<S>, r1: Rerooted<S>, r2: Rerooted<S>, c: nat): Rerooted<S>
  {
    if c == 1 then r1 else if c == 2 then r2 else r0
  }

  /** `nearest_neighbor_interchange` as written; r0, r1 and r2 are what
      `reroot` returns for the node, `Swap1(node)` and `Swap2(node)`. A swap
      returns flag 1; keeping the first arrangement returns `flag`, which the
      third `reroot` call overwrote last. */
  function NniAsWritten<S>(node: Tree, r0: Rerooted<S>, r1: Rerooted<S>, r2: Rerooted<S>, delta: real): (n: Nni<S>)
    ensures Classify(node) == Quartet ==> n.Chosen? && (n.r.flag == 1 <==> Choice(r0.pl, r1.pl, r2.pl, delta) != 0 || r2.flag == 1)
  {
    match Classify(node)
    case BothLeaves => NoMove
    case OneLeaf => RerootNode
    case Unpackable => Malformed
    case Quartet =>
      var c := Choice(r0.pl, r1.pl, r2.pl, delta);
      var k := Pick3(r0, r1, r2, c);
      Chosen(Rerooted(k.tree, k.pl, if c == 0 then r2.flag else 1))
  }

  /** The first arrangement kept, not rerooted, and a rerooted third
      arrangement: the as-written result reports a change that did not happen. */
  lemma NniFlagAsWritten(node: Tree, t0: Tree, t1: Tree, t2: Tree)
    requires Classify(node) == Quartet
    ensures var n := NniAsWritten(node, Rerooted(t0, 1.0, 0), Rerooted(t1, 1.0, 0), Rerooted(t2, 1.0, 1), 0.0);
      n == Chosen(Rerooted(t0, 1.0, 1))
  {
  }

  /** `nearest_neighbor_interchange` returning the first arrangement's own
      `reroot` flag when it keeps it: the flag is 1 exactly when the result is
      not the first arrangement as its own `reroot` left it. */
  function Nni3<S>(node: Tree, r0: Rerooted<S>, r1: Rerooted<S>, r2: Rerooted<S>, delta: real): (n: Nni<S>)
    ensures Classify(node) == BothLeaves <==> n == NoMove
    ensures Classify(node) == OneLeaf <==> n == RerootNode
    ensures Classify(node) == Quartet <==> n.Chosen?
    ensures n.Chosen? ==>
      var c := Choice(r0.pl, r1.pl, r2.pl, delta);
      n.r.tree == Pick3(r0, r1, r2, c).tree && n.r.pl == Pick3(r0, r1, r2, c).pl &&
      (n.r.flag == 1 <==> c != 0 || r0.flag == 1) &&
      ((r0.flag == 0 || r0.flag == 1) ==> n.r.flag == 0 || n.r.flag == 1)
  {
    match Classify(node)
    case BothLeaves => NoMove
    case OneLeaf => RerootNode
    case Unpackable => Malformed
    case Quartet =>
      var c := Choice(r0.pl, r1.pl, r2.pl, delta);
      var k := Pick3(r0, r1, r2, c);
      Chosen(Rerooted(k.tree, k.pl, if c == 0 then r0.flag else 1))
  }

  // ------------------------------------------------------- recursive_NNI

  /** What one visit of a node yields: `node_nni is None`, or the tree with
      the node's result grafted in, its score, and the NNI flag. */
  datatype Step<S> = Skip | Moved(tree: S, pl: real, flag: int)

  /** The loop variables of one sweep: the tree, `PL` (unbound until a node
      moves) and `num_nnis`. */
  datatype Sweep<S> = Sweep(tree: S, pl: Option<real>, count: nat)

  function Visit<S>(s: Sweep<S>, step: Step<S>): Sweep<S>
  {
    match step
    case Skip => s
    case Moved(t, p, f) => Sweep(t, Some(p), s.count + if f == 1 then 1 else 0)
  }

  /** Visiting `nodes` in order from state s. */
  function SweepFrom<S>(s: Sweep<S>, nodes: seq<nat>, nni: (S, nat) -> Step<S>): Sweep<S>
    decreases |nodes|
  {
    if nodes == [] then s else SweepFrom(Visit(s, nni(s.tree, nodes[0])), nodes[1..], nni)
  }

  /** One sweep over the inner nodes `visit(tree)` lists, in post-order. */
  function OneSweep<S>(t: S, pl: Option<real>, visit: S -> seq<nat>, nni: (S, nat) -> Step<S>): Sweep<S>
  {
    SweepFrom(Sweep(t, pl, 0), visit(t), nni)
  }

  /** The state after k sweeps. */
  function Sweeps<S>(t: S, visit: S -> seq<nat>, nni: (S, nat) -> Step<S>, k: nat): (s: Sweep<S>)
  {
    if k == 0 then Sweep(t, None, 1)
    else
      var p := Sweeps(t, visit, nni, k - 1);
      OneSweep(p.tree, p.pl, visit, nni)
  }

  /** The count only grows, by one per flagged visit at most. */
  lemma {:induction false} SweepCountBound<S>(s: Sweep<S>, nodes: seq<nat>, nni: (S, nat) -> Step<S>)
    ensures s.count <= SweepFrom(s, nodes, nni).count <= s.count + |nodes|
    ensures s.pl.Some? ==> SweepFrom(s, nodes, nni).pl.Some?
    decreases |nodes|
  {
    if nodes != [] {
      SweepCountBound(Visit(s, nni(s.tree, nodes[0])), nodes[1..], nni);
    }
  }

  method RunSweep<S>(t0: S, pl0: Option<real>, visit: S -> seq<nat>, nni: (S, nat) -> Step<S>)
    returns (t: S, pl: Option<real>, num: nat)
    ensures Sweep(t, pl, num) == OneSweep(t0, pl0, visit, nni)
  {
    var nodes := visit(t0);
    t, pl, num := t0, pl0, 0;
    var i := 0;
    while i < |nodes|
      invariant 0 <= i <= |nodes|
      invariant SweepFrom(Sweep(t, pl, num), nodes[i..], nni) == OneSweep(t0, pl0, visit, nni)
    {
      assert nodes[i..][1..] == nodes[i + 1..];
      match nni(t, nodes[i]) {
        case Skip =>
        case Moved(t', p, f) =>
          t, pl := t', Some(p);
          if f == 1 {
            num := num + 1;
          }
      }
      i := i + 1;
    }
  }

  /** `recursive_NNI`: sweep until a sweep counts no flagged move, for at
      most `fuel` sweeps. `settled` says the loop ended; every sweep but the
      last counted a move. `PL` is None when no visit ever moved, where the
      source's `return tree, PL` raises. */
  method RecursiveNni<S>(tree: S, visit: S -> seq<nat>, nni: (S, nat) -> Step<S>, fuel: nat)
    returns (t: S, pl: Option<real>, sweeps: nat, settled: bool)
    ensures sweeps <= fuel && (!settled ==> sweeps == fuel)
    ensures Sweeps(tree, visit, nni, sweeps).tree == t && Sweeps(tree, visit, nni, sweeps).pl == pl
    ensures settled <==> Sweeps(tree, visit, nni, sweeps).count == 0
    ensures forall j :: 0 <= j < sweeps ==> Sweeps(tree, visit, nni, j).count > 0
  {
    t, pl := tree, None;
    var num: nat := 1;
    sweeps := 0;
    while num > 0 && sweeps < fuel
      invariant sweeps <= fuel
      decreases fuel - sweeps
      invariant Sweeps(tree, visit, nni, sweeps) == Sweep(t, pl, num)
      invariant forall j :: 0 <= j < sweeps ==> Sweeps(tree, visit, nni, j).count > 0
    {
      t, pl, num := RunSweep(t, pl, visit, nni);
      sweeps := sweeps + 1;
    }
    settled := num == 0;
  }
}
