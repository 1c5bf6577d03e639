# treecall tree estimation, modelled in Dafny

This project models the core of `bin/tree_est.py` of treecall. That program
builds a phylogenetic tree over sequenced samples from their per-site
genotype likelihoods (PLs). It works in several steps.

1. A site filter keeps only informative variant sites.
2. A pairwise distance matrix `D` is built, and neighbor joining turns an
   initial star tree into a binary tree.
3. `init_tree` gives every node its sorted sample ids (`sid`) and a number
   (`nid`) in post-order.
4. A genotype substitution matrix is built from the edit distance between
   genotype strings.
5. `calc_mut_likelihoods` fills every inner node's mutation-likelihood rows
   (`PLm`), and `update_PL` repairs them after the tree changes.
6. A local search (`reroot`, `nearest_neighbor_interchange`,
   `recursive_NNI`) accepts a changed tree only when its score beats the
   current one by a relative margin.
7. A separate top-down `partition` splits the samples by the cheapest row of
   a 0/1 selection matrix.

The tree is an arena of children lists (`Arena.Kids`). Node `x`'s children
are `kids[x]`, in ete2's order, and a leaf's sample id is its own index. A
ghost rank that falls from parent to child makes the post-order and
leaf-list traversals terminate. Neighbor joining keeps `D` as an
`array2<real>` that it rewrites in place.

Likelihood tables are held in probability space, so the model takes no
logarithm:

- A Phred table `T` of the source stands for `10^(-T/10)` here.
- Adding two Phred tables becomes their entrywise product.
- `p2phred(np.dot(phred2p(T), mm))` becomes a matrix product.

The per-node fields of the likelihood step live in a class `LikTree` whose
methods update them. Every method is proved against a value-level
specification (`Likelihood.Repair` for `update_PL`, `Likelihood.Layout` for
the row filling). The properties are proved about that specification.

Some values are parameters that the model is given, not computed:

- the pairwise differences in `D`;
- the substitution probability `pmu`;
- the tree scores;
- the rerooted candidate trees.

Dafny's reals are exact, so floating-point rounding is not modelled.

## Model

| member | source | states |
|---|---|---|
| SiteFilter.Sort3 | bin/tree_est.py:65 | the sorted triple is ascending and a permutation of the sample's three PLs |
| SiteFilter.Totals | bin/tree_est.py:65 | the column totals of the sorted triples ascend (smallest, middle, largest) |
| SiteFilter.KeepSite | bin/tree_est.py:65 | a site is kept exactly when the smallest total is below `evidence` and the middle one reaches it, which is what "exactly two totals reach `evidence`" means for ascending totals |
| SiteFilter.KeepSites | bin/tree_est.py:65-66 | one verdict per site, in order, each with the same if-and-only-if as KeepSite |
| NeighborJoining.StarTreeKids | bin/tree_est.py:120-133 | `init_star_tree(n)` has one root whose children are the leaves 0..n-1 in order, and every other slot is a leaf |
| NeighborJoining.StarTreeShape | bin/tree_est.py:120-133 | the star tree is acyclic; its post-order is the n leaves then the root, and its leaf names are 0..n-1 |
| NeighborJoining.StarTreeStarts | bin/tree_est.py:101-103 | the star tree with `internals = arange(n)` satisfies the neighbor-joining layout invariant |
| NeighborJoining.MakeD | bin/tree_est.py:144-160 | `D` is (2m-2)x(2m-2); its top-left m x m block holds the pairwise differences, mirrored from i<j, and every other entry is 0; so `D` is symmetric with a zero diagonal |
| NeighborJoining.Trunc | bin/tree_est.py:203-204 | `int()` truncates toward zero: the result is within 1 of v, at or below v when v >= 0 and at or above it when v < 0 |
| NeighborJoining.Gather | bin/tree_est.py:180 | `d` is the square copy of `D` at the active labels: `d[a][b] == D[ix[a], ix[b]]` |
| NeighborJoining.QEntrySymmetric | bin/tree_est.py:183-188 | the Q criterion is symmetric, and it is infinite exactly on the diagonal |
| NeighborJoining.BuildQ | bin/tree_est.py:183-188 | every entry of the Q array equals the criterion for that pair, with +inf on the diagonal |
| NeighborJoining.ArgminQ | bin/tree_est.py:190 | the returned position is a minimum of Q, and every entry before it in row-major order is strictly larger (`argmin` returns the first minimum) |
| NeighborJoining.ArgminAboveDiagonal | bin/tree_est.py:188-190 | with two or more active nodes, the first minimum lies strictly above the diagonal (i < j) |
| NeighborJoining.PickPair | bin/tree_est.py:183-190 | the chosen pair satisfies i < j and is the first minimum of the criterion |
| NeighborJoining.Branches | bin/tree_est.py:195-196 | the two branch lengths add up to d[i][j], and they differ by u[i]-u[j] |
| NeighborJoining.RemoveTwo | bin/tree_est.py:208 | `np.delete(s,[i,j])` drops exactly positions i and j and keeps the rest in order |
| NeighborJoining.DetachBoth | bin/tree_est.py:198-199 | detaching the two joined nodes from the root's children list removes exactly positions i and j of `internals` |
| NeighborJoining.WriteRow | bin/tree_est.py:193-194 | row and column l receive the values at the active labels; all other entries are unchanged; symmetry and the zero diagonal are kept |
| NeighborJoining.WritePair | bin/tree_est.py:195-196 | `D[l,a] = D[a,l] = v` changes only those two entries and keeps symmetry |
| NeighborJoining.WriteJoined | bin/tree_est.py:193-196 | row and column l hold the new node's distance to each active node (the branch length for the pair, `d[i,k]+d[j,k]-d[i,j]` otherwise) and nothing else changes |
| NeighborJoining.JoinPostorder | bin/tree_est.py:198-209 | hanging the picked pair under the new node c adds exactly c to the post-order multiset of the active nodes |
| NeighborJoining.DistinctJoin | bin/tree_est.py:208-209 | the new `internals` holds no label twice, and c is its largest label |
| NeighborJoining.JoinKeepsLayout | bin/tree_est.py:198-209 | one join keeps the layout invariant: the root's children are `internals`, labels below 2n-\|internals\| are in use, and later slots are empty |
| NeighborJoining.JoinKeepsShape | bin/tree_est.py:198-209 | one join keeps the shape invariant: every label in use lies in exactly one active subtree |
| NeighborJoining.Regroup | bin/tree_est.py:198-209 | the new children lists and `internals` are the pair under l with l replacing them at the root, and the shape invariant holds |
| NeighborJoining.JoinStep | bin/tree_est.py:179-210 | one loop pass: the pair is the first minimum of the criterion; row and column l of `D` get the new distances and nothing else changes; the branch lengths are truncated into `dist`; the tree invariant is kept |
| NeighborJoining.FinalTree | bin/tree_est.py:179 | once at most two nodes remain active, the arena is one tree whose post-order lists every node once |
| NeighborJoining.FinalLayout | bin/tree_est.py:179-210 | at the end, for n >= 2, the tree is binary with 2n-1 nodes, its leaves are exactly the labels below n, and two nodes are active |
| NeighborJoining.RemoveTwoGone | bin/tree_est.py:208 | `np.delete(s,[i,j])` no longer holds the two joined labels and holds only labels of s |
| NeighborJoining.GatherAfterJoin | bin/tree_est.py:180-209 | after a join, the distances at the new `internals` are `NextD` of those before: kept labels keep theirs, and the new label is at `d[i,k]+d[j,k]-d[i,j]` from each kept one |
| NeighborJoining.ChainedSnoc | bin/tree_est.py:179-210 | a join made on what the last join left extends the chain of joins |
| NeighborJoining.RecordStep | bin/tree_est.py:198-209 | after one more join every join so far still has its pair under its node with `int(vi)`, `int(vj)` as branch lengths, and no joined label is active again |
| NeighborJoining.DistStep | bin/tree_est.py:203-209 | after one more join, the active labels and the labels not yet used keep their starting branch lengths |
| NeighborJoining.LogStep | bin/tree_est.py:179-210 | one more join keeps the loop's log invariant |
| NeighborJoining.JoinLogged | bin/tree_est.py:179-210 | one pass of the loop: `D` stays symmetric with a zero diagonal, the shape invariant holds for the new tree, the pass's join e is made on the current distance block and recorded in the tree, the log extended by e still describes the tree and branch lengths, and the distance block of the new `internals` is `NextD(e)` |
| NeighborJoining.NeighborJoining | bin/tree_est.py:163-214 | the loop runs \|internals\|-2 joins; `D` stays symmetric with a zero diagonal; the result is one binary tree over 2n-1 nodes with the n samples as its leaves and two children at the root. The ghost log lists the joins in order. The first is made on `D` at `internals`, and each later one on `NextD` of the one before. Each picks the first minimum of the criterion, and its new label l = `len(D)+2-m` has the picked pair as children with branch lengths `int(vi)` and `int(vj)` (`Joined`). The two nodes left at the root keep their branch lengths from `dist0` |
| Arena.PostorderNumbering | bin/tree_est.py:223 | a tree's post-order visits every slot once, children before parents, root last |
| Arena.PostorderChildrenBefore | bin/tree_est.py:223 | in a post-order every child of a node comes before it |
| Arena.BinaryCount | bin/tree_est.py:232 | a binary subtree with L leaves has 2L-1 nodes |
| Arena.TreeDistinct | bin/tree_est.py:345-348 | in a binary tree every node's subtree holds each node once, so the recursive repair reaches each node once |
| Labelling.CollectSids | bin/tree_est.py:229-230 | extending by the children's sids gives the leaf ids below the node, left to right |
| Labelling.GatherSids | bin/tree_est.py:223-230 | after the first post-order pass every node's sid is its leaf ids from left to right |
| Labelling.NumberNodes | bin/tree_est.py:232-235 | the t-th node visited gets `nid = t` and its sid sorted for t below the count; later nodes keep no nid and their old sid |
| Labelling.NumberPostorder | bin/tree_est.py:232-235 | walking the post-order alongside `xrange(2m-1)` gives node t the number t and its sorted leaf ids when t < 2m-1; otherwise no number and its unsorted leaf ids |
| Labelling.InitTree | bin/tree_est.py:216-237 | `leaf_order` is the leaf ids left to right; exactly the leaves keep their names; every node has its sid and nid as NumberPostorder states |
| Labelling.BinaryAllNumbered | bin/tree_est.py:232-233 | on a binary tree 2m-1 equals the number of nodes, so `zip` numbers and sorts every node |
| Labelling.LeafSid | bin/tree_est.py:224-225 | a leaf's sorted sid is `[its id]` |
| Labelling.ChildSids | bin/tree_est.py:229-230 | the concatenated sorted sids of a list of children hold the same ids as their leaves |
| Labelling.InnerSid | bin/tree_est.py:226-235 | an inner node's sorted sid is the sort of its children's sorted sids |
| Sorting.Sort | bin/tree_est.py:235 | `sorted` returns an ascending permutation of its input |
| Sorting.SortedUnique | bin/tree_est.py:346-347 | two ascending lists with the same elements are equal, so the `child.sid != sid` test compares id multisets |
| Sorting.SortSameIffSameIds | bin/tree_est.py:346-347 | two lists sort to the same list exactly when they hold the same ids |
| Mutation.Reverse | bin/tree_est.py:270 | `gj[::-1]` has the same length, with position i holding position \|s\|-1-i |
| Mutation.GtDist | bin/tree_est.py:266-272 | the distance table is n x n |
| Mutation.GtypeDistance | bin/tree_est.py:258-272 | the nested loop fills an n x n integer array whose (i, j) entry is the genotype distance of gt[i] and gt[j] |
| Mutation.LevenshteinSelf | bin/tree_est.py:270 | a string is at edit distance 0 from itself |
| Mutation.LevenshteinSymmetric | bin/tree_est.py:270 | edit distance is symmetric |
| Mutation.LevenshteinBounds | bin/tree_est.py:270 | edit distance is at least the length difference and at most the longer length |
| Mutation.LevenshteinZero | bin/tree_est.py:270 | edit distance is 0 exactly when the strings are equal |
| Mutation.LevenshteinPair | bin/tree_est.py:270 | between two-letter strings, edit distance counts the mismatched positions |
| Mutation.GenotypeDistanceSelf | bin/tree_est.py:270 | a genotype is at distance 0 from itself |
| Mutation.GenotypeDistanceZero | bin/tree_est.py:270 | distance 0 means the same genotype or its reverse, and both directions hold |
| Mutation.GenotypeDistancePair | bin/tree_est.py:270 | for two-letter genotypes the distance is the fewer mismatches of the two alignments, and it is symmetric |
| Mutation.GtDistSymmetric | bin/tree_est.py:266-272 | for two-letter genotypes the table is symmetric with a zero diagonal |
| Mutation.TwoAlleleValues | bin/tree_est.py:270 | hom-ref, het and hom-alt genotypes of two distinct alleles lie 0, 1 and 2 edits apart in each direction |
| Mutation.GtDistThree | bin/tree_est.py:266-272 | the table of three genotypes holds their pairwise distances entry by entry |
| Mutation.TwoAlleleDistances | bin/tree_est.py:266-272 | for any two distinct alleles the table of RR, RA, AA is [[0,1,2],[1,0,1],[2,1,0]] |
| Mutation.Gtype3Distances | bin/tree_est.py:94 | for `GTYPE3 = ('RR','RA','AA')` the distance table is [[0,1,2],[1,0,1],[2,1,0]] |
| Mutation.MutPowers | bin/tree_est.py:289 | `pmu**gt_dist` entrywise: entry (i, j) is pmu raised to distance (i, j) |
| Mutation.MakeMutMatrix | bin/tree_est.py:275-294 | `mm`, `mm0` and `mm1` are all n x n |
| Mutation.ColumnSumReplace | bin/tree_est.py:290 | overwriting entry (j, j) changes the sum of column j by exactly the difference |
| Mutation.MutMatrixColumns | bin/tree_est.py:289-290 | off the diagonal, `mm` is pmu raised to the genotype distance, and every column of `mm` sums to 1 after `fill_diagonal(mm, 2.0-mm.sum(axis=0))` |
| Mutation.MutMatrixSplit | bin/tree_est.py:291-292 | `mm0` is the diagonal of `mm`, `mm1` the rest, and they add up to `mm` |
| Likelihood.LeafCount | bin/tree_est.py:320 | `len(node)` is at least 1 and is the number of leaves below the node |
| Likelihood.LayoutCount | bin/tree_est.py:322-331 | when the inner children hold 2*len-2 rows each, the filling loop lays out exactly 2*len(x)-2 rows, so `i` ends at the buffer's length |
| Likelihood.ChildRowsCount | bin/tree_est.py:326-331 | a child contributes 2*len(child)-1 rows: its carried-up block and its edge row |
| Likelihood.Blanked | bin/tree_est.py:343-344 | the state after blanking keeps the tree well formed and gives x exactly 2*len(x)-2 rows |
| Likelihood.LikTree.AllocateRows | bin/tree_est.py:318-320 | every inner node gets 2*len-2 blank rows; leaves and the PL0 and sid fields are unchanged |
| Likelihood.FillRows | bin/tree_est.py:322-331 | the loop with running index i writes x's layout over the start of its buffer |
| Likelihood.WriteChild | bin/tree_est.py:325-331 | one child's pass extends the written prefix by that child's rows (its carried-up block, then its edge row) and advances i by their count |
| Likelihood.FillKeeps | bin/tree_est.py:322-331 | filling the i-th node of the post-order keeps every earlier node's rows equal to its layout |
| Likelihood.FilledAll | bin/tree_est.py:322-331 | after the whole post-order, every inner node's rows are its layout and there are 2*len-2 of them |
| Likelihood.FillPostorder | bin/tree_est.py:322-331 | the second loop fills every inner node in post-order and leaves the leaves' rows alone |
| Likelihood.LikTree.CalcMutLikelihoods | bin/tree_est.py:316-333 | every inner node's PLm is exactly its layout over the final fields, with 2*len-2 rows; PL0, sid and the leaves are unchanged |
| Likelihood.LikTree.RepairChild | bin/tree_est.py:346-350 | one pass of the child loop moves the state to the specification RepairStep |
| Likelihood.LikTree.RepairAllKids | bin/tree_est.py:345-350 | the child loop moves the state to the specification RepairKids |
| Likelihood.LikTree.UpdatePL | bin/tree_est.py:335-359 | `update_PL(x)` moves the fields to the specification Repair and keeps the class invariant (every up-to-date inner node holds its 2*len-2 rows) |
| Likelihood.RepairFacts | bin/tree_est.py:345-349 | after `update_PL(x)` every child of x carries its sorted leaf ids, x holds 2*len(x)-2 rows, and nothing ranked above x changed |
| Likelihood.RepairKidsFacts | bin/tree_est.py:345-349 | the child loop from child k on keeps the tree consistent, leaves x's rows alone and changes nothing ranked above x |
| Likelihood.RepairKidsSorted | bin/tree_est.py:345-349 | the child loop from child k on makes each later child's sid its sorted leaf ids |
| Likelihood.RepairStepFacts | bin/tree_est.py:346-349 | one pass makes child k's sid its sorted leaf ids and keeps the invariant |
| Likelihood.RepairOutside | bin/tree_est.py:345-349 | `update_PL(x)` changes no field of any node outside x's subtree |
| Likelihood.FoldedPl0 | bin/tree_est.py:343-350 | afterwards x's PL0 is the blank folded with both children's final PL0 through `mm0`, in child order |
| Likelihood.RowsLaidOut | bin/tree_est.py:351-359 | afterwards x's rows are exactly its layout over the repaired children |
| Likelihood.KidsClean | bin/tree_est.py:345-350 | when every child's sid is already up to date, the child loop only folds the children's PL0 into x's |
| Likelihood.StepClean | bin/tree_est.py:346-350 | a child whose sid is up to date is not repaired again; it is only folded into its parent's PL0 |
| Likelihood.CleanRows | bin/tree_est.py:343-359 | with clean children, blanking, folding and filling give PL0 from a blank and PLm from the layout |
| Likelihood.RepairClean | bin/tree_est.py:343-359 | with clean children, `update_PL(x)` recomputes x's PL0 from a blank and its PLm from its layout, and changes nothing else |
| Likelihood.RepairIdempotent | bin/tree_est.py:335-359 | when x's subtree holds each node once, a second `update_PL(x)` right after the first gives the same state |
| Likelihood.TreeRepairIdempotent | bin/tree_est.py:335-359 | in a binary tree, repeating `update_PL` on any node gives the same state |
| Likelihood.LayoutFrame | bin/tree_est.py:325-330 | a node's layout reads only its children's PL0 and PLm |
| Selection.BitsBinary | bin/tree_est.py:495 | every entry of a selection row is 0 or 1 |
| Selection.BitsFirstZero | bin/tree_est.py:494-495 | rows below 2^(m-1) put sample 0 on side 0, and row 0 is all zeros |
| Selection.FromBitsBits | bin/tree_est.py:494-495 | reading a row's digits back gives its index, so the rows are exactly the numbers 0..2^(m-1)-1 |
| Selection.BitsInjective | bin/tree_est.py:494-495 | distinct row indices give distinct rows |
| Selection.BinDigitsValue | bin/tree_est.py:495 | `bin(i)[2:]` is i's binary digits, most significant first, with a leading 1 unless i = 0 |
| Selection.ZFillDigits | bin/tree_est.py:495 | zero-filling the digits of i to m places gives i in m binary digits |
| Selection.BinDigitsShort | bin/tree_est.py:495 | below 2^m, `bin(i)[2:]` has at most m digits, so `zfill(m)` only pads |
| Selection.BinRowBits | bin/tree_est.py:495 | `bin(i)[2:].zfill(m)` is i in m binary digits when i < 2^m |
| Selection.BinSelection | bin/tree_est.py:493-495 | the `else` branch yields 2^(m-1) rows; row r is r in m binary digits |
| Selection.WriteBlock | bin/tree_est.py:487-488 | the block `y[r0:r0+len(x), c0:c0+w]` becomes x, and every other entry is unchanged |
| Selection.SetColumn | bin/tree_est.py:489 | `y[r0:r1, c] = v` sets exactly those entries |
| Selection.Region | bin/tree_est.py:490 | the slice copy has r1-r0 rows of c1-c0 entries |
| Selection.LowRow | bin/tree_est.py:487 | a row of the copied upper half has 0 at digit l-1 and above |
| Selection.HighRow | bin/tree_est.py:488-489 | a row of the lower half has the 1 written at digit l-1, the digits of the row 2^(l-1) above it below that, and 0 above |
| Selection.InitialRows | bin/tree_est.py:483 | the starting x holds 0..3 in 3 binary digits |
| Selection.Double | bin/tree_est.py:486-490 | one pass doubles the rows: x becomes the numbers below 2^l in l+1 digits, and y holds them in m digits with zeros below |
| Selection.SliceSelection | bin/tree_est.py:481-492 | for 3 < m, y has 2^(m-1) rows of m entries, and row r is r in m binary digits |
| Selection.SelectionMatrix | bin/tree_est.py:479-495 | both branches of `make_selection_matrix` yield the same 2^(m-1) rows, row r being r in m binary digits |
| Selection.SelectionMatrix2 | bin/tree_est.py:498-514 | the deterministic branches of `make_selection_matrix2` yield the same rows |
| Partition.Pick | bin/tree_est.py:433-439 | `sidx[k == side]` is no longer than sidx and holds only its entries |
| Partition.Restrict | bin/tree_est.py:437-443 | `PLs[:, k == side, ]` keeps every site |
| Partition.VSum | bin/tree_est.py:455-458 | the per-site sum over the picked samples has one value per genotype |
| Partition.Costs | bin/tree_est.py:454-468 | one cost per row of the selection matrix |
| Partition.MinimumPtCost | bin/tree_est.py:451-476 | with rows, the result is the row at the first position of a smallest cost, with that cost; with no rows, `pt` stays unbound (None) and the cost inf |
| Partition.FirstMinAtZero | bin/tree_est.py:473-475 | because the comparison is strict, ties go to the earliest row: when row 0 is as cheap as any, row 0 is chosen |
| Partition.PickCover | bin/tree_est.py:432-439 | for a 0/1 row the two sides together hold every sample exactly once |
| Partition.PickSameLength | bin/tree_est.py:433-437 | the picked samples and the picked PL columns have the same count |
| Partition.PickShorter | bin/tree_est.py:433-439 | a side loses a sample the row puts elsewhere |
| Partition.PickNonEmpty | bin/tree_est.py:433-439 | a side holds every sample the row puts there |
| Partition.PickAll | bin/tree_est.py:433 | a row that puts every sample on one side picks them all |
| Partition.PickNone | bin/tree_est.py:439 | a row that puts no sample on a side picks none |
| Partition.RestrictShaped | bin/tree_est.py:437-443 | the restricted PLs match the picked samples, so the recursive call is well shaped |
| Partition.CostSilent | bin/tree_est.py:455-468 | when every PL is 0, every split costs 0 |
| Partition.SilentNeverSplits | bin/tree_est.py:432-437 | on the all-zeros row, `sidx0` is `sidx` again, the PLs are unchanged and side 1 is empty |
| Partition.SilentChoice | bin/tree_est.py:430-431 | on silent data the row chosen from `make_selection_matrix2` is row 0, which puts every sample on side 0 |
| Partition.RowSplit | bin/tree_est.py:432-439 | every selection row is a 0/1 selector whose sides cover the samples once |
| Partition.ProperSplit | bin/tree_est.py:432-439 | any row other than row 0 leaves both sides non-empty and smaller than sidx |
| Partition.TwoLeaves | bin/tree_est.py:424-428 | two samples become two leaves, each holding one of them |
| Partition.JoinSides | bin/tree_est.py:434-443 | two non-empty hierarchies whose samples make up the parent's form a hierarchy |
| Partition.FirstMinUnique | bin/tree_est.py:473-475 | the first position of a smallest cost is unique, so the row `calc_minimum_pt_cost` returns is determined by the costs |
| Partition.SideAsWritten | bin/tree_est.py:432-443 | one side as written: the child holds `sidx[k == side]`, split again as `partition` splits it on `PLs[:, k == side, ]` (`CheapestSplit` over every row); if that side is all of sidx on silent data with more than two samples, the recursion never ends |
| Partition.PartitionAsWritten | bin/tree_est.py:419-448 | fewer than two samples exit, two make two leaves. In a finished result every split with more than two samples is `samples[k == 0]` / `samples[k == 1]` for the first cheapest row k of the whole selection matrix, and each side is split the same way on its own PL columns (`CheapestSplit`); the result is also a hierarchy. On silent data with more than two samples no depth bound suffices |
| Partition.Side | bin/tree_est.py:432-443 | a side that is non-empty and smaller is split into a hierarchy of non-empty parts over exactly its samples, each split the first cheapest row (row 0 left out) on the side's own PL columns (`CheapestSplit`) |
| Partition.Partition | bin/tree_est.py:419-448 | corrected `partition`: it exits exactly when there are fewer than two samples; two samples make two leaves; otherwise it always ends in a hierarchy of non-empty parts covering sidx, in which every split is `samples[k == 0]` / `samples[k == 1]` for the first cheapest row k other than row 0, each side split the same way on its own PL columns (`CheapestSplit`) |
| LocalSearch.MarginChain | bin/tree_est.py:551 | with 0 <= DELTA < 1 and non-negative scores, two successive margin wins are a margin win over the first score |
| LocalSearch.TakenBeats | bin/tree_est.py:543-554 | the candidate the running best ends on beat the score held when it was reached, and no later candidate beat it |
| LocalSearch.Reroot | bin/tree_est.py:523-556 | flag is 1 exactly when some candidate beats the base score by the margin. Flag 0 keeps the tree and score. Flag 1 returns a candidate that no later candidate beats, and (with 0 <= DELTA < 1) one that beats the base. The result is exactly the candidate the running best ends on (`Taken`: the last one that beat the score held before it), with its score |
| LocalSearch.QuartetLeaves | bin/tree_est.py:619-637 | a quartet's leaves are the union of its four grandchildren's leaves |
| LocalSearch.SwapsKeepLeaves | bin/tree_est.py:618-639 | both swaps keep the node's leaf multiset |
| LocalSearch.SwapsKeepBinary | bin/tree_est.py:618-639 | both swaps keep a binary node binary |
| LocalSearch.QuartetSplitsDistinct | bin/tree_est.py:618-639 | with disjoint grandchildren, the three arrangements have three different splits |
| LocalSearch.Choice | bin/tree_est.py:641-649 | the original is kept exactly when neither swap beats it by the margin; swap 1 is chosen only when it wins and is strictly better than swap 2; on a tie swap 2 is chosen |
| LocalSearch.NniAsWritten | bin/tree_est.py:581-649 | on a quartet, the returned flag is 1 exactly when a swap was chosen or the third tree was rerooted |
| LocalSearch.NniFlagAsWritten | bin/tree_est.py:615-649 | keeping the unrerooted first arrangement still returns flag 1 when the third arrangement was rerooted |
| LocalSearch.Nni3 | bin/tree_est.py:581-649 | corrected rule: moves nothing exactly on two leaf children, reroots exactly when one child is a leaf, chooses exactly on a quartet; the result is the arrangement Choice picks, and its flag is 1 exactly when a swap was chosen or the first arrangement's own reroot moved it |
| LocalSearch.SweepCountBound | bin/tree_est.py:670-691 | a sweep's count only grows, by at most one per visited node, and once `PL` is bound it stays bound |
| LocalSearch.RunSweep | bin/tree_est.py:672-691 | the loop over the post-order ends in the state the sweep function defines |
| LocalSearch.RecursiveNni | bin/tree_est.py:652-695 | sweeps repeat while the previous one counted a flagged move; every earlier sweep counted one; it settles exactly when the last sweep counted none, and returns that sweep's tree and `PL` |
| Labels.RStrip | bin/tree_est.py:411 | `rstrip()` returns a prefix ending in no whitespace, and only whitespace was removed |
| Labels.SplitOn | bin/tree_est.py:411 | `split` returns at least one piece |
| Labels.SplitJoin | bin/tree_est.py:411 | joining the pieces back gives the string; no piece holds a tab; a single piece means there was no tab |
| Labels.JoinSplit | bin/tree_est.py:411 | `'\t'.join(s.split('\t')) == s`: joining the pieces with the separator gives the string back |
| Labels.SplitPieces | bin/tree_est.py:411 | no piece holds the separator, and there is exactly one piece when the string has no separator |
| Labels.TwoColumns | bin/tree_est.py:412-413 | with a tab present, the first two columns are the text before the first tab and the text after it, which ends at the next tab or at the end of the string |
| Labels.NatStr | bin/tree_est.py:415 | `str(i)` is non-empty |
| Labels.ParseNatStr | bin/tree_est.py:415 | `str(i)` reads back as i |
| Labels.NatStrInjective | bin/tree_est.py:415 | distinct line numbers give distinct keys |
| Labels.Entry | bin/tree_est.py:411-415 | a line without a tab maps `str(i)` to the stripped line; a line with one maps the text before its first tab to the text after it, which ends at the next tab or at the end of the stripped line |
| Labels.ReadLabel | bin/tree_est.py:402-417 | with `Entry` of line t as the t-th pair (line numbers counted over every line): a key lies in the table exactly when some line has it (`KeysOf`), and a key's value is that of the last line with that key (`LastWins`) |
| Labels.TableStep | bin/tree_est.py:412-415 | storing `label[k] = v` for the next line keeps both: the keys are those of the lines so far, and the last line with a key supplies its value |

## Left out

- Input and output are left out. That covers `read_vcf` except the filter at line 65, `neighbor_main`'s argument handling, the Newick output and the progress messages on stderr.
- SiteFilter.KeepSites: the PLs are unbounded naturals; the source reads them as `uint16`, and its sum is taken in a wider integer type, so no wrap-around needs modelling.
- Phred conversion, `log10`, `longdouble` and NumPy floating-point rounding are left out. Tables are exact reals in probability space, and `pmu = phred2p(mu)` is a given real.
- `pairwise_diff` enters `make_D` as a given matrix. `make_base_prior`, `populate_tree_PL` and `score` are not part of this model: the scores the search compares are parameters.
- ete2's own tree operations (`set_outgroup`, `copy`, `search_nodes`, `detach`, `add_child`) are modelled only through their effect. The arena's children lists cover neighbor joining, and a `Tree` value covers the quartet swaps. The rerooted trees `reroot` compares are given as candidates.
- LocalSearch.Reroot: the candidates are given values, so the model does not check that they are the tree rerooted at each descendant with `update_PL` applied.
- `recursive_reroot` is not modelled. It unpacks `reroot`'s three results into two names at lines 568 and 573, and its regrafting depends on the rerooting topology left out above.
- Several calls omit the `DELTA` argument; the model does not repair them. These are the calls at lines 611, 615, 627 and 639, and `neighbor_main`'s calls at lines 112 and 114. The decision rules of `reroot` and `nearest_neighbor_interchange` are modelled on their own, with `DELTA` as a parameter.
- LocalSearch.RecursiveNni: the visit order and the per-node step are function parameters. A fuel bound limits the number of sweeps, and a run that reaches the bound is reported as not settled. When no visit ever moves, `PL` is never bound and the source's `return tree, PL` raises; the model returns None there.
- `make_selection_matrix2`'s random branch (lines 515-520) is left out because it draws random numbers. Partition.Partition and Partition.PartitionAsWritten require at most 20 samples, which keeps `make_selection_matrix2` on its deterministic branches.
- Partition.PartitionAsWritten: a fuel bound stands in for the recursion, and running out of fuel is an outcome; its non-termination is stated on silent data.
- `annotate_nodes` is left out because no caller uses it.
- NeighborJoining.MakeD requires m >= 1, which excludes an input on which the source raises: with m = 0 the shape `(2*m-2, 2*m-2)` is negative and `np.zeros` at line 156 raises.
- Likelihood.LikTree.constructor requires a binary tree, which excludes the star tree for n = 1, on which the source raises: the single leaf has no sister, and `get_sisters()[0]` at line 325 raises IndexError.
- Mutation.Levenshtein stands in for the `editdistance` package, as the textbook edit distance.
- Mutation.GtDistSymmetric: symmetry of the table is proved only for two-letter genotypes, the form every genotype list of the program has.
- The arena's rank is ghost bookkeeping that proves termination; nothing in the source corresponds to it.
- The trees the local search compares are values, so the aliasing between a node and its copies is not modelled.

## Findings

| source | as written | input that shows it | evidently intended | confidence | as-written member | corrected member |
|---|---|---|---|---|---|---|
| bin/tree_est.py:429-443 | `partition` recurses on `sidx0` whenever it has more than one sample, even when the chosen row is row 0, which puts every sample on side 0 | any `sidx` with more than two samples whose PLs are all 0: every split costs 0, row 0 wins the strict-`<` tie, and `partition` calls itself on the same samples forever | the samples are split into two non-empty groups, so that the recursion ends | not executed | Partition.PartitionAsWritten | Partition.Partition |
| bin/tree_est.py:615-649 | `flag` is reassigned by each of the three `reroot` calls, so line 649 returns the flag of the third arrangement's reroot with the first arrangement | only once `DELTA` is passed to the `reroot` calls at lines 615, 627 and 639, which as written raise TypeError (see the `DELTA` line under "Left out"): a quartet node where the first arrangement is kept, was not rerooted (its flag is 0), and the third arrangement's reroot set its flag to 1; the result is flagged 1 | the kept first arrangement carries its own reroot flag | not executed | LocalSearch.NniFlagAsWritten | LocalSearch.Nni3 |
