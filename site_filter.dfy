/** The site filter of `read_vcf`: each sample's three genotype
    likelihoods are sorted, the sorted triples are summed over samples, and a
    site is kept when exactly two of the three totals reach `evidence`. */
module SiteFilter {
  import opened Sorting

  /** `np.sort` on one sample's triple. */
  function Sort3(t: seq<nat>): (r: seq<nat>)
    requires |t| == 3
    ensures |r| == 3 && r[0] <= r[1] <= r[2] && multiset(r) == multiset(t)
  {
    var r := Sort(t);
    assert |r| == |multiset(r)| == |multiset(t)| == 3;
    r
  }

  ghost predicate Triples(site: seq<seq<nat>>)
  {
    forall s :: 0 <= s < |site| ==> |site[s]| == 3
  }

  /** `np.sort(PLs).sum(axis=1)` for one site: the sorted triples added up
      column by column. Sorting each triple first makes the totals ascend. */
  function Totals(site: seq<seq<nat>>): (t: seq<nat>)
    requires Triples(site)
    ensures |t| == 3 && t[0] <= t[1] <= t[2]
  {
    if site == [] then [0, 0, 0]
    else
      var p, q := Totals(site[..|site| - 1]), Sort3(site[|site| - 1]);
      [p[0] + q[0], p[1] + q[1], p[2] + q[2]]
  }

  /** `k_ev` for one site: `(totals >= evidence).sum() == 2`. Because the
      totals ascend, that keeps a site exactly when the smallest total is
      below `evidence` and the middle one is not. */
  function KeepSite(site: seq<seq<nat>>, evidence: int): (keep: bool)
    requires Triples(site)
    ensures keep <==> Totals(site)[0] < evidence <= Totals(site)[1]
  {
    var t := Totals(site);
    (if t[0] >= evidence then 1 else 0) + (if t[1] >= evidence then 1 else 0) +
      (if t[2] >= evidence then 1 else 0) == 2
  }

  /** The filter over all sites, in order. */
  function KeepSites(sites: seq<seq<seq<nat>>>, evidence: int): (k: seq<bool>)
    requires forall i :: 0 <= i < |sites| ==> Triples(sites[i])
    ensures |k| == |sites|
    ensures forall i :: 0 <= i < |sites| ==> (k[i] <==> Totals(sites[i])[0] < evidence <= Totals(sites[i])[1])
  {
    seq(|sites|, i requires 0 <= i < |sites| => KeepSite(sites[i], evidence))
  }
}
