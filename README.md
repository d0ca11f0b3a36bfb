# Stochastic block model utilities, modelled in Dafny

This project models three routines of `notebooks/additional_utils.py`:

- `ind2sub4up` maps a 1-based linear index to the (row, column) subscripts of
  the cells strictly above the diagonal of a square matrix. The cells are
  numbered column by column.
- `create_SBM` builds the adjacency matrix and the ground-truth labels of a
  stochastic block model (SBM) graph.
  - Nodes are laid out in contiguous communities of the given sizes.
  - For each community it draws a sample of its internal pair indices and
    decodes each index with `ind2sub4up`.
  - For each community except the last it draws a sample of the cells of the
    rectangle between that community and all later ones, and decodes each
    with `unravel_index`.
  - It then forms `A + A^T` from the collected (I, J) entries.
- `AR_index` computes the adjusted Rand index of Hubert and Arabie (1985) for
  two labellings. It shifts the labels to start at 0 and counts label pairs
  in an ordered dictionary. It fills the contingency table from that
  dictionary, then applies the closed form to the row and column totals.

Modules:

- `Sums` (`sums.dfy`) holds sums of natural-number sequences.
- `Triangular` (`triangular.dfy`) holds the index map and its inverse.
- `Sbm` (`sbm.dfy`) holds the two loops of `create_SBM` as methods over
  sequences, proved against reference functions (`IntraPairs`, `InterPairs`,
  `DirectedPairs`, `Label`). It also holds the lemmas that make the result a
  simple undirected graph whose truth vector is the community layout.
- `AdjustedRand` (`adjusted_rand.dfy`) holds `ARIndex`, a method with the
  counting loop over a `map` and the fill loop over an `array2`. It is proved
  equal to the function `AdjustedRandIndex`, which computes the contingency
  table (`Contingency`) and the closed form (`AriFromTotals`) on exact reals.
  The properties proved are:
  - symmetry;
  - the table's totals;
  - the value for identical labellings;
  - the value against a single-group labelling.

The random draws of `create_SBM` (the binomial edge counts and the
`random.sample` calls) are inputs to `Sbm.CreateSbm`. A draw is modelled as a
sequence of distinct indices below the population size (`IsSample`).

For identical labellings the code's result differs from what the docstring of
`AR_index` (line 118) suggests, that 1 is a perfect match. The model follows
the code. For n ≥ 2 items, `AR_index(c, c)` is 0 whenever the sum of squared group
sizes S equals n or n². That covers a single group (S = n²) and also a labelling where every
item is its own group (S = n), because t1 equals nc in both cases. Every other
labelling gives 1: with nis = njs = t2 = S, lines 152-157 make t1 − nc vanish
exactly when (S − n)(S − n²) = 0. `AdjustedRand.AdjustedRandIdentical` states
this. For n = 1 the routine returns NaN (`NotANumber`).

Two numpy steps are taken as definitions and carry no row of their own:
the scalar broadcast `+` (`Sbm.Plus`) and the broadcast assignment
`C[:,1] = c2` (`AdjustedRand.Fit`). What they contribute reaches the proofs
through the rows of `Sbm.IntraArrays`, `Sbm.InterArrays` and
`AdjustedRand.LabelTable`.

## Model

| member | source | states |
|---|---|---|
| Triangular.PairsClosedForm | notebooks/additional_utils.py:84 | the recursive count of cells above the diagonal of an m-by-m matrix equals the closed form m(m-1)/2 used for the population of the intra sample |
| Triangular.ISqrt | notebooks/additional_utils.py:36 | the result is the floor of the square root: r² ≤ n < (r+1)² |
| Triangular.Ind2Sub4Up | notebooks/additional_utils.py:29-38 | for IND ≥ 1 the subscripts satisfy 1 ≤ I < J, IND lies in column J's index range Pairs(J-1) < IND ≤ Pairs(J), and I is the position within that column |
| Triangular.Ind2Sub4UpFirst | notebooks/additional_utils.py:36-37 | index 1 is cell (1, 2) |
| Triangular.Sub2IndInd2Sub | notebooks/additional_utils.py:36-37 | re-encoding the decoded cell gives back the index |
| Triangular.Ind2SubSub2Ind | notebooks/additional_utils.py:36-37 | decoding the index of any cell (i, j) with i < j gives back that cell |
| Triangular.Ind2Sub4UpAt | notebooks/additional_utils.py:36-37 | the index Pairs(j-1) + i decodes to (i, j) |
| Triangular.Ind2Sub4UpInjective | notebooks/additional_utils.py:36-37 | distinct indices decode to distinct cells |
| Triangular.Ind2Sub4UpInMatrix | notebooks/additional_utils.py:36-37 | an index is at most m(m-1)/2 exactly when its column is at most m (both directions) |
| Triangular.Sub2Ind4UpInMatrix | notebooks/additional_utils.py:36-37 | every cell above the diagonal of an m-by-m matrix has an index in 1 .. m(m-1)/2, so the map is onto |
| Sbm.Label | notebooks/additional_utils.py:78 | the community of a node is one of the q communities |
| Sbm.LabelRange | notebooks/additional_utils.py:75-78 | node i has label k exactly when it lies in k's slice `com_size[:k].sum()` .. `com_size[:k+1].sum()` (both directions) |
| Sbm.LabelOnRange | notebooks/additional_utils.py:78 | the slice assignment of community k labels every node of its slice with k, and the slice lies inside 0 .. N |
| Sbm.StartStep | notebooks/additional_utils.py:78 | the next community starts size_k later, and a community's end plus the size of the later communities is N |
| Sbm.IntraCellInCommunity | notebooks/additional_utils.py:84-91 | a pair index below size_k(size_k-1)/2 decodes to a pair (row < col) inside community k |
| Sbm.InterCellAcross | notebooks/additional_utils.py:100-105 | a cell index below size_k times the later total unravels to a row in community k and a column in a later community |
| Sbm.IntraBlockFacts | notebooks/additional_utils.py:84-91 | the pairs drawn inside community k are distinct and lie above the diagonal inside k |
| Sbm.InterBlockFacts | notebooks/additional_utils.py:99-105 | the pairs drawn between community k and the later ones are distinct, with the row in k and the column after k |
| Sbm.IntraPairsFacts | notebooks/additional_utils.py:76-91 | after k communities the collected pairs are distinct, lie above the diagonal, lie before community k, and join nodes with the same label |
| Sbm.InterPairsFacts | notebooks/additional_utils.py:94-105 | after k blocks the inter pairs are distinct, lie above the diagonal inside the matrix, and join a node to a node of a strictly later community |
| Sbm.AcrossLabels | notebooks/additional_utils.py:102-105 | a row in community k and a column after k's end are labelled k and a later community |
| Sbm.DirectedPairsFacts | notebooks/additional_utils.py:75-105 | all collected (I, J) entries are distinct and above the diagonal of the N-by-N matrix |
| Sbm.Ind2Sub4UpArray | notebooks/additional_utils.py:86 | each index of the array is decoded to a cell (I, J) with 1 ≤ I < J whose linear index is that index |
| Sbm.DecodedCells | notebooks/additional_utils.py:86 | a cell above the diagonal whose linear index is ind is the cell `ind2sub4up(ind)` returns |
| Sbm.UnravelIndex | notebooks/additional_utils.py:102 | `unravel_index` over shape (h, w) writes each index as row · w + column with 0 ≤ column < w, and an index inside the shape has 0 ≤ row < h |
| Sbm.UnravelledCells | notebooks/additional_utils.py:102 | such a row-major decomposition is exactly quotient and remainder by w |
| Sbm.Start | notebooks/additional_utils.py:78 | definition (`com_size[:k].sum()`); its properties are in StartStep, StartMonotone and LabelRange |
| Sbm.Rest | notebooks/additional_utils.py:95 | definition (`com_size[k+1:].sum()`); its properties are in StartStep and InterCellAcross |
| Sbm.IntraCell | notebooks/additional_utils.py:86-91 | definition of the pair for one intra sample; its properties are in IntraCellInCommunity and IntraCellAt |
| Sbm.InterCell | notebooks/additional_utils.py:102-105 | definition of the pair for one inter sample; its properties are in InterCellAcross |
| Sbm.IntraBlock | notebooks/additional_utils.py:84-91 | one pair per sample of community k; its properties are in IntraBlockFacts and TriangleBlock |
| Sbm.InterBlock | notebooks/additional_utils.py:100-105 | one pair per sample of block k; its properties are in InterBlockFacts |
| Sbm.IntraPairs | notebooks/additional_utils.py:76-91 | definition of the pairs of the first loop, in order; its properties are in IntraPairsFacts |
| Sbm.InterPairs | notebooks/additional_utils.py:94-105 | definition of the pairs of the second loop, in order; its properties are in InterPairsFacts |
| Sbm.DirectedPairs | notebooks/additional_utils.py:75-105 | definition of all collected (I, J) entries; its properties are in DirectedPairsFacts and TwoTriangles |
| Sbm.IntraArrays | notebooks/additional_utils.py:84-91 | the shifted Inew, Jnew arrays of community k zip to its block of pairs |
| Sbm.InterArrays | notebooks/additional_utils.py:99-105 | the shifted Inew, Jnew arrays of block k zip to its block of pairs |
| Sbm.ZipAppend | notebooks/additional_utils.py:90-91 | concatenating the I and J arrays concatenates their pairs |
| Sbm.IntraCommunityLinks | notebooks/additional_utils.py:75-91 | the first loop leaves the truth vector equal to the community layout and I, J equal to the intra pairs of all communities in loop order |
| Sbm.InterCommunityLinks | notebooks/additional_utils.py:94-105 | the second loop appends exactly the inter pairs of blocks 0 .. q-2, in order, skipping blocks whose count is 0 |
| Sbm.Mirror | notebooks/additional_utils.py:109 | the entries of A^T, one per entry of A; their counts are in MirrorCount |
| Sbm.Assemble | notebooks/additional_utils.py:107-109 | definition of A + A^T as a multiset of entries; its properties are in AssembleSymmetric, AssembleWeight and AssembleSimple |
| Sbm.MirrorCount | notebooks/additional_utils.py:109 | entry (a, b) of A^T counts the entries (b, a) of A |
| Sbm.AssembleSymmetric | notebooks/additional_utils.py:107-109 | A + A^T is symmetric for any collected entries |
| Sbm.AssembleWeight | notebooks/additional_utils.py:107-109 | with distinct entries above the diagonal, every entry of A + A^T is 0 or 1, the diagonal is 0, and nonzero entries lie inside N-by-N |
| Sbm.AssembleSimple | notebooks/additional_utils.py:107-109 | under the same conditions A + A^T is a symmetric 0/1 matrix with zero diagonal |
| Sbm.CreateSbm | notebooks/additional_utils.py:41-111 | for draws that succeed, fails with the size mismatch exactly when the sizes do not sum to N; otherwise truth is the community layout and the adjacency is A + A^T of the collected pairs, a simple undirected graph on N nodes |
| Sbm.TriangleBlock | notebooks/additional_utils.py:84-91 | a community whose draw is the pair indices 0, 1, 2 contributes the triangle on its first three nodes |
| Sbm.TriangleCells | notebooks/additional_utils.py:84-88 | pair indices 0, 1 and 2 decode to the nodes (0,1), (0,2) and (1,2) of the community |
| Sbm.IntraCellAt | notebooks/additional_utils.py:84-91 | the pair index Pairs(j-1) + i - 1 is the pair (i-1, j-1) shifted by the community's first node |
| Sbm.TwoTriangles | notebooks/additional_utils.py:75-105 | two communities of three nodes that draw all their internal pairs, and nothing between them, give the two triangles (0,1),(0,2),(1,2),(3,4),(3,5),(4,5) |
| Sbm.TwoTrianglesLabels | notebooks/additional_utils.py:78 | the same graph's truth vector is 0, 0, 0, 1, 1, 1 |
| AdjustedRand.Min | notebooks/additional_utils.py:121-122 | `np.min` is a lower bound attained by some element |
| AdjustedRand.Max | notebooks/additional_utils.py:124-125 | `np.max` is an upper bound attained by some element |
| AdjustedRand.Shift | notebooks/additional_utils.py:121-122 | the shifted labels have the same length and some label is 0 |
| AdjustedRand.ShiftKeepsGroups | notebooks/additional_utils.py:121-122 | shifting keeps the grouping: two items share a shifted label exactly when they share the original one |
| AdjustedRand.Count | notebooks/additional_utils.py:132-138 | definition of the number of rows labelled (x, y); its properties are in CountStep, CountSwap and CountOffDiagonal |
| AdjustedRand.Contingency | notebooks/additional_utils.py:132-144 | the table of counts has the requested shape; its totals are in ContingencyTotal and its symmetry in ContingencySwap |
| AdjustedRand.LabelTable | notebooks/additional_utils.py:127-144 | the confusion matrix has shape (max c1 + 1, max c2 + 1) after shifting |
| AdjustedRand.RowTotals | notebooks/additional_utils.py:147 | one total per row; its properties are in TransposeTotals, GrandTotal and ContingencyTotal |
| AdjustedRand.ColTotals | notebooks/additional_utils.py:146 | one total per column; its properties are in TransposeTotals, GrandTotal and ContingencyTotal |
| AdjustedRand.SumSquares | notebooks/additional_utils.py:149-150 | definition of nis and njs from the totals; used in AriIdentical and AdjustedRandIdentical |
| AdjustedRand.CellSquares | notebooks/additional_utils.py:153 | definition of t2; its properties are in CellSquaresTranspose and IdenticalTotals |
| AdjustedRand.PairCount | notebooks/additional_utils.py:152 | definition of t1 = n(n−1)/2; its properties are in DenominatorVanishes and AriSingleGroup |
| AdjustedRand.Expected | notebooks/additional_utils.py:157 | definition of nc; its properties are in ExpectedSingle, ExpectedTimesDenominator and DenominatorVanishes |
| AdjustedRand.Agreements | notebooks/additional_utils.py:154-159 | definition of A = t1 + t2 − t3; used in AriIdentical and AriSingleGroup |
| AdjustedRand.AriFromTotals | notebooks/additional_utils.py:149-164 | definition of the closed form with its t1 == nc ⇒ 0 branch and NaN for n = 1; its properties are in AriFromTotalsSymmetric, AriIdentical and AriSingleGroup |
| AdjustedRand.AdjustedRandIndex | notebooks/additional_utils.py:114-167 | reference definition of `AR_index`, with its error results; its properties are in AdjustedRandSymmetric, AdjustedRandIdentical, AdjustedRandSingleGroup and LabelTableTotals, and ARIndex is proved equal to it |
| AdjustedRand.CountPairs | notebooks/additional_utils.py:132-138 | the dictionary built by the counting loop maps each label pair present to its number of rows, and every absent pair occurs in no row |
| AdjustedRand.FillTable | notebooks/additional_utils.py:140-144 | the filled `confmat` of shape (ng1, ng2) holds the dictionary's value at each key and 0 elsewhere |
| AdjustedRand.TableOfCounts | notebooks/additional_utils.py:132-144 | a table filled from such a dictionary is the contingency table of the two labellings |
| AdjustedRand.ARIndex | notebooks/additional_utils.py:114-167 | the routine returns the adjusted Rand index of the reference definition, including its error results for empty input and mismatched lengths |
| AdjustedRand.CountSwap | notebooks/additional_utils.py:132-138 | counting (y, x) with the labellings swapped gives the count of (x, y) |
| AdjustedRand.ContingencySwap | notebooks/additional_utils.py:140-144 | swapping the labellings transposes the contingency table |
| AdjustedRand.TransposeTotals | notebooks/additional_utils.py:146-147 | the row totals of the transpose are the column totals, and the other way round |
| AdjustedRand.GrandTotal | notebooks/additional_utils.py:146-147 | row totals and column totals have the same sum |
| AdjustedRand.CellSquaresTranspose | notebooks/additional_utils.py:153 | t2, the sum of squared cells, is unchanged by transposition |
| AdjustedRand.AriFromTotalsSymmetric | notebooks/additional_utils.py:149-164 | the closed form is symmetric in nis and njs |
| AdjustedRand.AdjustedRandSymmetric | notebooks/additional_utils.py:121-164 | for labellings of the same length AR_index(c1, c2) == AR_index(c2, c1) |
| AdjustedRand.ContingencyTotal | notebooks/additional_utils.py:132-147 | row totals and column totals of the contingency table each sum to n |
| AdjustedRand.LabelTableTotals | notebooks/additional_utils.py:132-147 | the confusion matrix of two accepted labellings has row and column totals summing to n |
| AdjustedRand.CountOffDiagonal | notebooks/additional_utils.py:132-138 | a labelling compared with itself has no off-diagonal pairs |
| AdjustedRand.IdenticalTotals | notebooks/additional_utils.py:146-153 | for identical labellings column totals equal row totals and t2 equals nis |
| AdjustedRand.DenominatorVanishes | notebooks/additional_utils.py:152-161 | with nis = njs = S, t1 == nc exactly when S = n or S = n² (both directions) |
| AdjustedRand.AriIdentical | notebooks/additional_utils.py:149-164 | with nis = njs = t2 = S the index is 0 when S is n or n² and 1 otherwise |
| AdjustedRand.AdjustedRandIdentical | notebooks/additional_utils.py:114-167 | for n ≥ 2, AR_index(c, c) is 0 when the sum of squared group sizes is n or n², and 1 otherwise |
| AdjustedRand.ExpectedSingle | notebooks/additional_utils.py:157 | when njs = n² (one group in c2), nc = (nis - n) / 2 |
| AdjustedRand.AriSingleGroup | notebooks/additional_utils.py:149-164 | with njs = n² and t2 = nis the index is 0 |
| AdjustedRand.ShiftConstant | notebooks/additional_utils.py:122-125 | a constant labelling shifts to all zeros with ng = 1 |
| AdjustedRand.AdjustedRandSingleGroup | notebooks/additional_utils.py:114-167 | against a labelling with a single group, the index of any labelling of at least two items is 0 |

## Left out

- The random draws are not modelled. These are `np.random.binomial` (lines 80, 95) and `random.sample` (lines 84, 100). Their results are inputs, constrained only to be distinct indices below the population size.
- The average degree `c`, the difficulty `epsi` and the probabilities `pin`/`pout` (lines 71-72) are left out. Apart from the errors listed for `Sbm.CreateSbm` below, they only parameterise the binomial draws.
- `Sbm.CreateSbm`: requires `q == len(com_size)`, as the docstring describes. The source loops over `q` whatever the length of `com_size` is.
- `Sbm.CreateSbm`: the failures that come from `c` and `epsi` are not modelled, so "fails exactly when the sizes do not sum to N" holds only for draws that succeed. Line 71 divides by N − q + (q−1)·epsi·N, which raises when it is 0 (for example N = q with epsi = 0). `np.random.binomial` raises when `pin` or `pout` lies outside [0, 1] (lines 80, 95).
- `Sbm.CreateSbm`: community sizes are natural numbers. The source does not check for negative sizes at line 68, and what it does with them is left out.
- `Triangular.Ind2Sub4Up`: takes the floor of the square root exactly (`ISqrt`). The float `sqrt`/`floor`/`round` path of line 36 can differ for indices large enough to lose precision in a double.
- `Triangular.Ind2Sub4Up`: requires IND ≥ 1. For IND ≤ 0 numpy takes the square root of a negative number and returns NaN, which the routine never receives from `create_SBM`.
- The scipy `coo_matrix` is modelled as the multiset of its entries, where duplicates add up. The float data and its `(N, N)` shape are left out; the shape appears only as the bound in `SimpleGraph`.
- The truth vector is a sequence of integers; the source stores floats from `np.zeros`.
- `special.comb(n, 2)` is modelled as n(n-1)/2 over exact reals.
- `AdjustedRand.AdjustedRandIndex`: the closed form is computed on exact reals. The float test `t1 == nc` (line 161) is exact equality here, where float rounding could make it fail.
- `AdjustedRand.Expected`: the product `nis * njs` of line 157 is unbounded here. In the source both are numpy int64 sums, so the product wraps silently once it exceeds 2^63 − 1. With one group on both sides this happens from n = 55,109: the wrapped nc differs from t1 and `AR_index(c, c)` returns 1.0 where the model gives 0. `AdjustedRand.AdjustedRandIdentical` and `AdjustedRand.AdjustedRandSingleGroup` therefore describe the source only while nis · njs ≤ 2^63 − 1.
- `AdjustedRand.ARIndex`: the range -1 .. 1 claimed in the docstring (line 118) is not proved.
- For n = 1 the source divides by zero (numpy gives NaN with a warning). This is the result `NotANumber`.
- Empty labels make `np.min` raise (`EmptyLabels`). A `c2` whose length is neither n nor 1 makes the assignment to `C[:,1]` raise (`LengthMismatch`).
- The iteration order of `d.items()` (line 141) is left out: the fill loop takes keys in an arbitrary order, and the table does not depend on it.
- Labels are integers. Float labels, even integer-valued ones such as the float truth vector that `create_SBM` returns, make `ng1 = np.max(c1) + 1` a float, and `np.zeros((ng1, ng2))` at line 140 then raises a TypeError. That error path is left out.
- `generate_concentric_circles` and the other functions of the file are not part of this model.
