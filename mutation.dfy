/** `gtype_distance` and `make_mut_matrix`: the distance between genotype
    strings and the substitution matrix built from it. The `editdistance`
    package's `eval` is stood in for by the textbook Levenshtein distance;
    `phred2p(mu)` is taken as a given real `pmu`, and arithmetic is exact. */
module Mutation {
  import opened Common

  function Mismatch(a: char, b: char): nat
  {
    if a == b then 0 else 1
  }

  /** Edits (insert, delete, substitute one character) turning a into b. */
  function Levenshtein(a: string, b: string): nat
    decreases |a| + |b|
  {
    if a == [] then |b|
    else if b == [] then |a|
    else Min(Min(Levenshtein(a[1..], b) + 1, Levenshtein(a, b[1..]) + 1),
             Levenshtein(a[1..], b[1..]) + Mismatch(a[0], b[0]))
  }

  /** `s[::-1]`. */
  function Reverse(s: string): (r: string)
    ensures |r| == |s| && forall i :: 0 <= i < |s| ==> r[i] == s[|s| - 1 - i]
  {
    if s == [] then [] else Reverse(s[1..]) + [s[0]]
  }

  /** One cell of `gtype_distance`: genotypes are unordered allele pairs, so
      the distance is the smaller of the distances to gj and to gj reversed. */
  function GenotypeDistance(gi: string, gj: string): nat
  {
    Min(Levenshtein(gi, gj), Levenshtein(gi, Reverse(gj)))
  }

  /** The whole `gt_dist` table. */
  function GtDist(gt: seq<string>): (d: seq<seq<nat>>)
    ensures |d| == |gt| && forall i :: 0 <= i < |gt| ==> |d[i]| == |gt|
  {
    seq(|gt|, i requires 0 <= i < |gt| =>
      seq(|gt|, j requires 0 <= j < |gt| => GenotypeDistance(gt[i], gt[j])))
  }

  /** `gtype_distance(gt)`: the nested loop fills an n x n integer array. */
  method GtypeDistance(gt: seq<string>) returns (d: array2<int>)
    ensures fresh(d) && d.Length0 == |gt| && d.Length1 == |gt|
    ensures forall i, j :: 0 <= i < |gt| && 0 <= j < |gt| ==> d[i, j] == GtDist(gt)[i][j]
  {
    var n := |gt|;
    d := new int[n, n];
    var i := 0;
    while i < n
      invariant 0 <= i <= n
      invariant forall a, b :: 0 <= a < i && 0 <= b < n ==> d[a, b] == GenotypeDistance(gt[a], gt[b])
    {
      var j := 0;
      while j < n
        invariant 0 <= j <= n
        invariant forall a, b :: 0 <= a < i && 0 <= b < n ==> d[a, b] == GenotypeDistance(gt[a], gt[b])
        invariant forall b :: 0 <= b < j ==> d[i, b] == GenotypeDistance(gt[i], gt[b])
      {
        d[i, j] := GenotypeDistance(gt[i], gt[j]);
        j := j + 1;
      }
      i := i + 1;
    }
  }

  // --------------------------------------------------- Levenshtein lemmas

  lemma {:induction false} LevenshteinSelf(a: string)
    ensures Levenshtein(a, a) == 0
    decreases |a|
  {
    if a != [] {
      LevenshteinSelf(a[1..]);
    }
  }

  lemma {:induction false} LevenshteinSymmetric(a: string, b: string)
    ensures Levenshtein(a, b) == Levenshtein(b, a)
    decreases |a| + |b|
  {
    if a != [] && b != [] {
      LevenshteinSymmetric(a[1..], b);
      LevenshteinSymmetric(a, b[1..]);
      LevenshteinSymmetric(a[1..], b[1..]);
    }
  }

  /** The distance is at least the difference of the lengths and at most the
      longer length. */
  lemma {:induction false} LevenshteinBounds(a: string, b: string)
    ensures Levenshtein(a, b) >= |a| - |b| && Levenshtein(a, b) >= |b| - |a|
    ensures Levenshtein(a, b) <= Max(|a|, |b|)
    decreases |a| + |b|
  {
    if a != [] && b != [] {
      LevenshteinBounds(a[1..], b);
      LevenshteinBounds(a, b[1..]);
      LevenshteinBounds(a[1..], b[1..]);
    }
  }

  lemma {:induction false} LevenshteinZero(a: string, b: string)
    ensures Levenshtein(a, b) == 0 <==> a == b
    decreases |a| + |b|
  {
    if a == b {
      LevenshteinSelf(a);
    } else if a != [] && b != [] {
      LevenshteinZero(a[1..], b[1..]);
      if a[0] == b[0] {
        assert a == [a[0]] + a[1..] && b == [b[0]] + b[1..];
      }
    }
  }

  /** Between two-letter strings the distance counts the mismatched
      positions. */
  lemma LevenshteinPair(a: string, b: string)
    requires |a| == 2 && |b| == 2
    ensures Levenshtein(a, b) == Mismatch(a[0], b[0]) + Mismatch(a[1], b[1])
  {
    LevenshteinBounds(a[1..], b);
    LevenshteinBounds(a, b[1..]);
    var a1, b1 := a[1..], b[1..];
    assert a1[1..] == [] && b1[1..] == [];
    assert Levenshtein(a1, b1) == Mismatch(a[1], b[1]);
  }

  // ---------------------------------------------- gtype_distance lemmas

  lemma GenotypeDistanceSelf(g: string)
    ensures GenotypeDistance(g, g) == 0
  {
    LevenshteinSelf(g);
  }

  /** Distance 0 means the same allele pair, in either order. */
  lemma GenotypeDistanceZero(gi: string, gj: string)
    ensures GenotypeDistance(gi, gj) == 0 <==> gi == gj || gi == Reverse(gj)
  {
    LevenshteinZero(gi, gj);
    LevenshteinZero(gi, Reverse(gj));
  }

  /** For two-letter genotypes the distance is the fewer mismatches of the
      two alignments, so it does not depend on the order of the arguments. */
  lemma GenotypeDistancePair(gi: string, gj: string)
    requires |gi| == 2 && |gj| == 2
    ensures GenotypeDistance(gi, gj) ==
      Min(Mismatch(gi[0], gj[0]) + Mismatch(gi[1], gj[1]), Mismatch(gi[0], gj[1]) + Mismatch(gi[1], gj[0]))
    ensures GenotypeDistance(gi, gj) == GenotypeDistance(gj, gi)
  {
    LevenshteinPair(gi, gj);
    LevenshteinPair(gi, Reverse(gj));
    LevenshteinPair(gj, gi);
    LevenshteinPair(gj, Reverse(gi));
  }

  /** The table is symmetric with a zero diagonal when every genotype has two
      letters. */
  lemma GtDistSymmetric(gt: seq<string>)
    requires forall i :: 0 <= i < |gt| ==> |gt[i]| == 2
    ensures forall i, j :: 0 <= i < |gt| && 0 <= j < |gt| ==> GtDist(gt)[i][j] == GtDist(gt)[j][i]
    ensures forall i :: 0 <= i < |gt| ==> GtDist(gt)[i][i] == 0
  {
    forall i, j | 0 <= i < |gt| && 0 <= j < |gt| ensures GtDist(gt)[i][j] == GtDist(gt)[j][i] {
      GenotypeDistancePair(gt[i], gt[j]);
    }
    forall i | 0 <= i < |gt| ensures GtDist(gt)[i][i] == 0 {
      GenotypeDistanceSelf(gt[i]);
    }
  }

  /** The distances between the genotypes of two alleles r and a. */
  lemma TwoAlleleValues(r: char, a: char)
    requires r != a
    ensures GenotypeDistance([r, r], [r, r]) == 0 && GenotypeDistance([r, a], [r, a]) == 0
    ensures GenotypeDistance([a, a], [a, a]) == 0
    ensures GenotypeDistance([r, r], [r, a]) == 1 && GenotypeDistance([r, a], [r, r]) == 1
    ensures GenotypeDistance([r, r], [a, a]) == 2 && GenotypeDistance([a, a], [r, r]) == 2
    ensures GenotypeDistance([r, a], [a, a]) == 1 && GenotypeDistance([a, a], [r, a]) == 1
  {
    GenotypeDistanceSelf([r, r]);
    GenotypeDistanceSelf([r, a]);
    GenotypeDistanceSelf([a, a]);
    GenotypeDistancePair([r, r], [r, a]);
    GenotypeDistancePair([r, r], [a, a]);
    GenotypeDistancePair([r, a], [a, a]);
  }

  /** Homozygous reference, heterozygous and homozygous alternative
      genotypes of two alleles lie 0, 1 and 2 edits apart. */
  lemma TwoAlleleDistances(r: char, a: char)
    requires r != a
    ensures GtDist([[r, r], [r, a], [a, a]]) == [[0, 1, 2], [1, 0, 1], [2, 1, 0]]
  {
    TwoAlleleValues(r, a);
    GtDistThree([r, r], [r, a], [a, a]);
  }

  /** The table of three genotypes, entry by entry. */
  lemma GtDistThree(g0: string, g1: string, g2: string)
    ensures var d := (x: string, y: string) => GenotypeDistance(x, y);
      GtDist([g0, g1, g2]) == [[d(g0, g0), d(g0, g1), d(g0, g2)], [d(g1, g0), d(g1, g1), d(g1, g2)],
                               [d(g2, g0), d(g2, g1), d(g2, g2)]]
  {
    var t := GtDist([g0, g1, g2]);
    assert t[0] == [GenotypeDistance(g0, g0), GenotypeDistance(g0, g1), GenotypeDistance(g0, g2)];
    assert t[1] == [GenotypeDistance(g1, g0), GenotypeDistance(g1, g1), GenotypeDistance(g1, g2)];
    assert t[2] == [GenotypeDistance(g2, g0), GenotypeDistance(g2, g1), GenotypeDistance(g2, g2)];
  }

  /** `GTYPE3 = ('RR','RA','AA')`. */
  const Gtype3: seq<string> := ["RR", "RA", "AA"]

  lemma Gtype3Distances()
    ensures GtDist(Gtype3) == [[0, 1, 2], [1, 0, 1], [2, 1, 0]]
  {
    TwoAlleleDistances('R', 'A');
    assert Gtype3 == [['R', 'R'], ['R', 'A'], ['A', 'A']];
  }

  // ------------------------------------------------------ make_mut_matrix

  function Pow(b: real, k: nat): real
  {
    if k == 0 then 1.0 else b * Pow(b, k - 1)
  }

  predicate IsSquare(m: Mat, n: nat)
  {
    |m| == n && forall i :: 0 <= i < n ==> |m[i]| == n
  }

  /** The first k entries of column j. */
  function ColumnSum(m: Mat, j: nat, k: nat): real
    requires k <= |m| && forall i :: 0 <= i < |m| ==> j < |m[i]|
  {
    if k == 0 then 0.0 else ColumnSum(m, j, k - 1) + m[k - 1][j]
  }

  /** `pmu**gt_dist`, entrywise. */
  function MutPowers(pmu: real, d: seq<seq<nat>>): (m: Mat)
    ensures |m| == |d| && forall i :: 0 <= i < |d| ==> |m[i]| == |d[i]|
    ensures forall i, j :: 0 <= i < |d| && 0 <= j < |d[i]| ==> m[i][j] == Pow(pmu, d[i][j])
  {
    seq(|d|, i requires 0 <= i < |d| => seq(|d[i]|, j requires 0 <= j < |d[i]| => Pow(pmu, d[i][j])))
  }

  /** `np.fill_diagonal(mm, 2.0-mm.sum(axis=0))`: the column sums are taken
      before the diagonal is overwritten. */
  function FillDiagonal(m: Mat): (r: Mat)
    requires IsSquare(m, |m|)
  {
    seq(|m|, i requires 0 <= i < |m| =>
      seq(|m|, j requires 0 <= j < |m| => if i == j then 2.0 - ColumnSum(m, j, |m|) else m[i][j]))
  }

  /** `np.diagflat(mm.diagonal())`. */
  function DiagPart(m: Mat): (r: Mat)
    requires IsSquare(m, |m|)
  {
    seq(|m|, i requires 0 <= i < |m| => seq(|m|, j requires 0 <= j < |m| => if i == j then m[i][j] else 0.0))
  }

  /** `mm - mm0`. */
  function Minus(m: Mat, m0: Mat): (r: Mat)
    requires IsSquare(m, |m|) && IsSquare(m0, |m|)
  {
    seq(|m|, i requires 0 <= i < |m| => seq(|m|, j requires 0 <= j < |m| => m[i][j] - m0[i][j]))
  }

  datatype MutMatrices = MutMatrices(mm: Mat, mm0: Mat, mm1: Mat)

  /** `make_mut_matrix(mu, gtypes)` with `pmu = phred2p(mu)`. */
  function MakeMutMatrix(pmu: real, gt: seq<string>): (r: MutMatrices)
    ensures IsSquare(r.mm, |gt|) && IsSquare(r.mm0, |gt|) && IsSquare(r.mm1, |gt|)
  {
    var mm := FillDiagonal(MutPowers(pmu, GtDist(gt)));
    var mm0 := DiagPart(mm);
    MutMatrices(mm, mm0, Minus(mm, mm0))
  }

  /** Overwriting entry (j, j) changes the sum of column j by the difference. */
  lemma {:induction false} ColumnSumReplace(m: Mat, r: Mat, j: nat, k: nat)
    requires IsSquare(m, |m|) && IsSquare(r, |m|) && j < |m| && k <= |m|
    requires forall i :: 0 <= i < |m| && i != j ==> r[i][j] == m[i][j]
    ensures ColumnSum(r, j, k) == ColumnSum(m, j, k) + (if j < k then r[j][j] - m[j][j] else 0.0)
  {
    if k > 0 {
      ColumnSumReplace(m, r, j, k - 1);
    }
  }

  /** Off the diagonal `mm` holds `pmu` to the genotype distance, and every
      column of `mm` sums to 1: the diagonal entry `pmu**0 = 1` is part of
      the sum that `2.0 - sum` subtracts. */
  lemma MutMatrixColumns(pmu: real, gt: seq<string>)
    ensures var mm := MakeMutMatrix(pmu, gt).mm;
      (forall i, j :: 0 <= i < |gt| && 0 <= j < |gt| && i != j ==> mm[i][j] == Pow(pmu, GenotypeDistance(gt[i], gt[j]))) &&
      (forall j :: 0 <= j < |gt| ==> ColumnSum(mm, j, |gt|) == 1.0)
  {
    var p := MutPowers(pmu, GtDist(gt));
    var mm := FillDiagonal(p);
    forall j | 0 <= j < |gt| ensures ColumnSum(mm, j, |gt|) == 1.0 {
      GenotypeDistanceSelf(gt[j]);
      ColumnSumReplace(p, mm, j, |gt|);
    }
  }

  /** `mm0` keeps the diagonal of `mm`, `mm1` the rest, and they add up to `mm`. */
  lemma MutMatrixSplit(pmu: real, gt: seq<string>)
    ensures var r := MakeMutMatrix(pmu, gt);
      forall i, j :: 0 <= i < |gt| && 0 <= j < |gt| ==>
        r.mm0[i][j] == (if i == j then r.mm[i][j] else 0.0) &&
        r.mm1[i][j] == (if i == j then 0.0 else r.mm[i][j]) &&
        r.mm0[i][j] + r.mm1[i][j] == r.mm[i][j]
  {
  }
}
