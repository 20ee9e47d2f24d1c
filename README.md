# Comparison routines: entropy, Jensen-Shannon divergence, cosine similarity

This project models the numerical comparison routines of a small Python
toolkit and proves properties of them in Dafny:

- `get_entropy` and `get_entropy_all` (utils/comparison/entropy.py) compute
  Shannon entropy in bits. The first works on one count vector. The second
  works row by row over a matrix.
- `get_KL_divergence` and `get_JS_divergence` (utils/comparison/js_divergence.py)
  are the pairwise definition of Jensen-Shannon divergence.
  `get_js_divergence_at_once` broadcasts it over every pair of rows of two
  frames and replaces NaN terms by 0.
- `cos_sim` (utils/cosine_similarity.py) builds the table of cosine
  similarities between the rows of two frames, with NaN cells replaced by 0.

The model works over the mathematical reals:

- Frames (`Tables.Frame`) are row labels plus rows of one width.
- Result tables (`Tables.Table`) carry row labels, column labels and cells.
- The logarithms and the square root are parameters (`log2`, `ln`, `sqrt`).
  A proof that needs a fact about one of them says so in a `requires`:
  `log2(1.0) == 0.0`, log2 not positive on (0, 1], `ln(1.0) == 0.0`, or
  `IsSqrt(sqrt)` (sqrt maps each x >= 0 to a non-negative root of x).
- The steps that rely on IEEE special values (0/0, log 0, 0 times infinity)
  go through `ExtReal.Ext`, which is `Fin | PosInf | NegInf | NaN`. The
  NaN-to-0 replacements are explicit branches.

Each routine is written in the source's own form:

- `get_entropy`, the KL/JS definition and `cos_sim` are functions.
- `get_entropy_all` is a method that fills a zero-initialised `array2`
  through the `p > 0` mask, then sums it row by row.
- `get_js_divergence_at_once` is a method with nested loops over i, j and k,
  with the NaN replacement as an `if`.

The entropy and divergence routines are each related to a "skip zero
terms" reference definition: `Entropy.Entropy` for entropy,
`JSDivergence.KLSkip` for KL.

The model follows what the code does:

- Negative counts and probabilities are never rejected by the code, so
  non-negativity is a precondition.
- An entropy vector handed over as an ndarray fails with the unbound
  `counts` variable.
- `get_entropy_all` on an empty list fails in `max()`.
- Cosine similarity of frames with different widths fails in
  `DataFrame.dot` (`Error.NotAligned`).
- The divergence routines never check widths, so equal widths are a
  precondition.
- The base-2 versus natural-log asymmetry is kept.

## Model

| member | source | states |
|---|---|---|
| Tables.FromArray | utils/cosine_similarity.py:16-19 | a raw array becomes a well-formed frame with the same rows and labels 0..n-1 |
| Tables.SumZeroIffAllZero | utils/comparison/entropy.py:17-20 | a non-negative vector sums to 0 exactly when every entry is 0, which is when `counts / counts.sum()` is 0/0 |
| Entropy.GetEntropy | utils/comparison/entropy.py:13-17 | get_entropy fails (UnboundCounts) exactly for ndarray input and succeeds for a list |
| Entropy.Probabilities | utils/comparison/entropy.py:17 | each count over the total when the total is non-zero; for a zero total, NaN exactly at the zero counts (0/0) |
| Entropy.KeepPositive | utils/comparison/entropy.py:20 | the filter never yields more entries than it is given |
| Entropy.KeepPositiveKeeps | utils/comparison/entropy.py:20 | every kept value is positive, and when every probability is positive all of them are kept in order |
| Entropy.KeepPositiveIsNonZeroShares | utils/comparison/entropy.py:17-20 | for non-negative counts over a positive total, the filter keeps exactly the shares of the non-zero counts, in order |
| Entropy.PLogPSum | utils/comparison/entropy.py:23 | the sum of p*log2(p) over the kept probabilities; FilteredSumIsTermSum equates it with the skip-zero term sum, and EntropyNonNeg bounds the result |
| Entropy.TermSumNonPos | utils/comparison/entropy.py:17-23 | with each count at most the total and log2 not positive on (0, 1], the sum of p*log2(p) is at most 0 |
| Entropy.EntropyNonNeg | utils/comparison/entropy.py:13-25 | for non-negative counts the entropy, and the value get_entropy returns, are never negative, given only that log2 is not positive on (0, 1] |
| Entropy.ProbabilitiesAreFiniteOrNaN | utils/comparison/entropy.py:17-20 | for non-negative counts every probability is finite or NaN, and NaN exactly when the counts sum to 0, so the `> 0` filter drops precisely the zero and NaN entries |
| Entropy.FilteredSumIsTermSum | utils/comparison/entropy.py:17-23 | filtering `probabilities > 0`, then summing p*log2(p), equals the positional sum with zero counts skipped |
| Entropy.GetEntropyIsEntropy | utils/comparison/entropy.py:13-25 | get_entropy of a non-negative list is the skip-zero-terms entropy, including 0 for a zero-sum vector |
| Entropy.GetEntropyOfZeros | utils/comparison/entropy.py:17-23 | get_entropy of an all-zero list is 0 (0/0 is NaN, the filter leaves an empty sum) |
| Entropy.EntropyScaleInvariant | utils/comparison/entropy.py:17-23 | multiplying every count by c > 0 leaves the entropy unchanged |
| Entropy.TermSumScale | utils/comparison/entropy.py:17-23 | the sum of p*log2(p) terms is unchanged when the counts and their total are scaled by the same non-zero k |
| Entropy.EntropyIgnoresZeros | utils/comparison/entropy.py:19-23 | removing every zero count leaves the entropy unchanged |
| Entropy.NonZerosKeepSums | utils/comparison/entropy.py:19-23 | dropping zero counts keeps both the total and the term sum |
| Entropy.EntropyZeroPadding | utils/comparison/entropy.py:19-23 | appending zeros leaves the entropy unchanged |
| Entropy.EntropyZeroRemoval | utils/comparison/entropy.py:19-23 | removing one zero count at any position leaves the entropy unchanged |
| Entropy.EntropyOfSingleOutcome | utils/comparison/entropy.py:17-23 | a vector with exactly one non-zero count has entropy 0 (its only probability is 1) |
| Entropy.EntropyOfAllZero | utils/comparison/entropy.py:17-23 | an all-zero vector has entropy 0 |
| Entropy.UniformEntropy | utils/comparison/entropy.py:17-23 | n equal positive counts have entropy -log2(1/n) |
| Entropy.MaxLength | utils/comparison/entropy.py:42 | `max(len(row))` bounds every row length and is attained by some row |
| Entropy.PadRows | utils/comparison/entropy.py:43 | every padded row has the maximum width and is the row followed by zeros |
| Entropy.SafeSum | utils/comparison/entropy.py:52 | the substituted row sum is always positive |
| Entropy.MaskedTerm | utils/comparison/entropy.py:59-61 | a masked entry agrees with the skip-zero term p*log2(p) for every p >= 0, and is 0 for p < 0 |
| Entropy.MaskedSum | utils/comparison/entropy.py:64 | the sum along one row of the masked terms; MaskedSumIsTermSum equates it with the skip-zero term sum |
| Entropy.MaskedSumIsTermSum | utils/comparison/entropy.py:55-64 | the masked terms (0 where p is not > 0) of a non-negative row sum to the skip-zero term sum |
| Entropy.MaskedRowIsEntropy | utils/comparison/entropy.py:47-64 | safe division plus the p > 0 mask give the row's entropy, 0 for a zero-sum row |
| Entropy.MaskedTerms | utils/comparison/entropy.py:59-61 | the zero-initialised `term` array holds p*log2(p) where p > 0 and 0 elsewhere, for every cell |
| Entropy.RowEntropies | utils/comparison/entropy.py:46-66 | one value per row, in row order, each the entropy of that row |
| Entropy.GetEntropyAll | utils/comparison/entropy.py:27-66 | an empty list fails (EmptyRowList); otherwise one value per row in order, and each value is the row's entropy as given (zero padding changes nothing) and equals get_entropy of that row as a list |
| JSDivergence.KL | utils/comparison/js_divergence.py:5-6 | get_KL_divergence equals the positional sum with the terms where p[i] == 0 skipped (proved by KLIsSkipSum) |
| JSDivergence.KLTerms | utils/comparison/js_divergence.py:6 | the filtered list of p[i]*ln(p[i]/q[i]) for the indices with p[i] != 0, in order; KLIsSkipSum sums it to the skip-zero reference |
| JSDivergence.Mid | utils/comparison/js_divergence.py:10 | the midpoint has the length of p, and each entry lies between p[i] and q[i] at equal distance from both |
| JSDivergence.JS | utils/comparison/js_divergence.py:9-11 | both vectors are dominated by their midpoint, and get_JS_divergence is the mean of their skip-zero KL sums against it; symmetry and JS(p, p) == 0 are JSSymmetric and JSSelfIsZero |
| JSDivergence.MidDominates | utils/comparison/js_divergence.py:10 | the midpoint of two non-negative vectors is non-zero wherever either vector is |
| JSDivergence.KLIsSkipSum | utils/comparison/js_divergence.py:5-6 | the filtered comprehension sums p[i]*ln(p[i]/q[i]) over exactly the indices with p[i] != 0 |
| JSDivergence.MidSymmetric | utils/comparison/js_divergence.py:10 | (p + q) / 2 == (q + p) / 2 |
| JSDivergence.JSSymmetric | utils/comparison/js_divergence.py:9-11 | JS(p, q) == JS(q, p) |
| JSDivergence.KLSkipSelf | utils/comparison/js_divergence.py:6 | p dominates itself and its skip-zero KL sum against itself is 0, given ln(1) == 0 |
| JSDivergence.JSSelfIsZero | utils/comparison/js_divergence.py:5-11 | JS(p, p) == 0 given ln(1) == 0 |
| JSDivergence.JSOfDisjointPair | utils/comparison/js_divergence.py:5-11 | JS([1, 0], [0, 1]) == ln 2 |
| JSDivergence.BroadcastTerm | utils/comparison/js_divergence.py:49-51 | x*log(x/m) is finite and equal to x*ln(x/m) for x, m > 0, +inf for x > 0 and m == 0, and NaN for x == 0 |
| JSDivergence.BroadcastTermFilled | utils/comparison/js_divergence.py:47-55 | the broadcast term x*log(x/m) is NaN exactly when x == 0, and after the NaN-to-0 replacement it equals the pairwise term with x == 0 skipped |
| JSDivergence.JSTable | utils/comparison/js_divergence.py:62-65 | the pairwise table has shape \|a\| x \|b\| |
| JSDivergence.PairDivergence | utils/comparison/js_divergence.py:43-62 | the k-loop with the NaN-to-0 branch computes the pairwise get_JS_divergence of the two rows |
| JSDivergence.GetJSDivergenceAtOnce | utils/comparison/js_divergence.py:14-65 | an \|a\| x \|b\| table labelled by a's and b's row labels whose cell (i, j) is get_JS_divergence(a_i, b_j) |
| JSDivergence.JSTableSwap | utils/comparison/js_divergence.py:38-62 | swapping the two frames transposes the table |
| JSDivergence.JSTableSelf | utils/comparison/js_divergence.py:38-62 | comparing a frame with itself gives a zero diagonal and a symmetric table |
| CosineSimilarity.Dot | utils/cosine_similarity.py:22 | one cell of the row-by-row product of the two frames; DotSymmetric, DotScaleLeft, DotSelfNonNeg, DotSelfZeroIffAllZero and CauchySchwarz carry its properties |
| CosineSimilarity.Norm | utils/cosine_similarity.py:24-25 | the Euclidean norm of one row; NormZeroIffAllZero and NormScale carry its properties |
| CosineSimilarity.DotSymmetric | utils/cosine_similarity.py:22 | a.b == b.a |
| CosineSimilarity.DotScaleLeft | utils/cosine_similarity.py:22 | (k a).b == k (a.b) |
| CosineSimilarity.DotSelfNonNeg | utils/cosine_similarity.py:24-25 | a.a >= 0 |
| CosineSimilarity.DotSelfZeroIffAllZero | utils/cosine_similarity.py:24-25 | a.a == 0 exactly when a is all zeros |
| CosineSimilarity.NormZeroIffAllZero | utils/cosine_similarity.py:24-25 | the row norm is non-negative, squares to a.a, and is 0 exactly when the row is all zeros |
| CosineSimilarity.NormScale | utils/cosine_similarity.py:24-25 | the norm of k a is k times the norm of a, for k > 0 |
| CosineSimilarity.CauchySchwarz | utils/cosine_similarity.py:22-27 | (a.b)^2 <= (a.a)(b.b) |
| CosineSimilarity.CosSim | utils/cosine_similarity.py:3-32 | fails (NotAligned) exactly when the widths differ; otherwise an \|a\| x \|b\| table labelled by a's and b's row labels |
| CosineSimilarity.CosCell | utils/cosine_similarity.py:22-31 | a cell is never NaN; it is dot/(norm_a norm_b) when the norm product is non-zero, 0 when both the norm product and the dot product are 0, and infinite only when the norm product is 0 |
| CosineSimilarity.CosCellValue | utils/cosine_similarity.py:22-31 | a cell is dot/(norm_a norm_b) when both norms are non-zero and 0 when either norm is 0 |
| CosineSimilarity.CosCellBounded | utils/cosine_similarity.py:22-31 | every cell is finite and lies in [-1, 1] |
| CosineSimilarity.CosCellSymmetric | utils/cosine_similarity.py:22-29 | cell(a, b) == cell(b, a) |
| CosineSimilarity.CosCellSelf | utils/cosine_similarity.py:22-29 | cell(a, a) == 1 for a row that is not all zeros |
| CosineSimilarity.CosCellScaleNorm | utils/cosine_similarity.py:22-31 | a cell is unchanged when its dot product and the first row's norm are both multiplied by the same k > 0 |
| CosineSimilarity.CosCellScale | utils/cosine_similarity.py:22-31 | scaling a row by k > 0 leaves its cell with any row unchanged |
| CosineSimilarity.CosSimCells | utils/cosine_similarity.py:22-31 | for equal widths the table exists and each cell is finite, lies in [-1, 1], is the cosine when both norms are non-zero, and is 0 when either row is all zeros |
| CosineSimilarity.CosSimSelf | utils/cosine_similarity.py:22-31 | cos_sim(a, a) is symmetric with 1 on the diagonal of every non-zero row |
| CosineSimilarity.CosSimSwap | utils/cosine_similarity.py:22-31 | swapping the two frames transposes the table |
| CosineSimilarity.CosSimScaleRow | utils/cosine_similarity.py:22-31 | scaling one row of either frame by k > 0 leaves the whole table unchanged |
| CosineSimilarity.CosSimOfIdentity | utils/cosine_similarity.py:16-31 | cos_sim of the raw array [[1, 0], [0, 1]] with itself is [[1, 0], [0, 1]], labelled 0, 1 |

## Left out

- The HTTP clients (twitter_api/twitter_api.py, openai_api/embedding.py), the thread-pool helper (utils/threading_process.py) and the sample drivers (sample_code/) are I/O, concurrency or printing. None of them holds comparison logic.
- `flatten_self_sim_df` and the module `utils.comparison.cosine_similarity` it comes from are not part of this model. That module's source is not available, so upper-triangle flattening is not modelled.
- IEEE-754 arithmetic is not modelled: rounding, overflow and float tolerance. Finite values are exact reals. The actual values of log2, ln and sqrt are not modelled either; they are parameters.
- pandas and numpy mechanics are not modelled, including type coercion between list, ndarray and DataFrame. Columns are positional and carry no labels. `get_js_divergence_at_once` pairs columns by position too, through `.values` (utils/comparison/js_divergence.py:32-33), and `get_entropy_all` reads `.values` and never looks at labels (utils/comparison/entropy.py:38-39), so for them nothing is lost.
- CosineSimilarity.CosSim: `DataFrame.dot` matches columns by label. Frames of equal width whose column label sets differ make it raise "matrices are not aligned" (utils/cosine_similarity.py:22), but the model returns `Success` for them. Frames with the same labels in a different order are realigned by pandas; the model pairs columns by position. Both cases coincide with the model only when the two frames carry the same column labels in the same order, as frames built from raw arrays do.
- Entropy.GetEntropy: requires non-negative counts for list input. The code never checks this, and negative counts could make a probability infinite. An ndarray input fails with the unbound `counts` whatever its entries.
- Entropy.GetEntropyAll: requires non-negative rows. An ndarray or DataFrame argument must also be rectangular, which numpy already guarantees.
- JSDivergence.KL: requires that q is non-zero wherever p is, and that p and q have the same length (the code reads q only at indices of p, so a longer q is accepted there). Otherwise the code gives an infinite term for ndarray input and raises ZeroDivisionError for plain Python floats; neither path is modelled. get_JS_divergence always meets the requirement through its midpoint.
- JSDivergence.JS: requires two non-negative vectors of the same length. The code does not validate either.
- JSDivergence.JS: covers ndarray input only. For two Python lists, `p + q` concatenates them and the division by 2 then raises TypeError (utils/comparison/js_divergence.py:10); that failure is not modelled.
- JSDivergence.GetJSDivergenceAtOnce: requires equal widths and non-negative rows. With different widths numpy raises a broadcasting error, unless one of the widths is 1: then that frame's single column is broadcast across the other's width and a table is returned (utils/comparison/js_divergence.py:38-43). Neither the error nor the width-1 broadcast is modelled.
- JSDivergence.GetJSDivergenceAtOnce: the n x m x d term arrays are not materialised. The loops fuse the term computation, the NaN replacement and the sum over k for each cell; over the reals the order of summation does not matter.
- JSDivergence.JS: non-negativity of the divergence (Gibbs' inequality) is not proved; it needs properties of ln beyond ln(1) == 0. Entropy.EntropyNonNeg, by contrast, needs only that log2 is not positive on (0, 1].
- Entropy.UniformEntropy: states -log2(1/n) rather than log2(n), because log2 is a parameter with no further laws.
