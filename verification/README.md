# rLLM control logic in Dafny

A model of the discrete control and indexing logic in three files of the rLLM
(relational table learning) repository. The tensor arithmetic in them is treated
as opaque.

- **`GCNNorm.forward`** (`gcn_norm.dfy`, module `GcnNorm`). A graph is a tagged
  variant. It is either homogeneous, with one optional `adj`, or heterogeneous,
  with an optional top-level `adj` and a sequence of edge stores. Each store has
  an optional `adj` and a bipartite flag. The kernel `gcn_norm` (the
  D^{-1/2}(A+I)D^{-1/2} normalisation of Kipf & Welling) is a parameter `norm`.
  Adjacency matrices and all other attributes are type parameters. The model
  shows which adjacencies get replaced by `norm` of themselves and that nothing
  else changes. A homogeneous graph without `adj` fails its assertion, which is
  modelled as `Failure(MissingAdjacency)`.
- **OGC** (`ogc.dfy`, module `Ogc`):
  - the `eta_sup` schedule of `update_U`;
  - the train+val / test accuracies of `LinearNeuralNetwork.test`;
  - the early-stopping loop of `ogc()`.

  Each iteration is represented by what the loop reads from it: the test accuracy
  and the hard predictions of the fresh `test` call.
- **BRIDGE** (`bridge.dfy`, module `Bridge`):
  - the `author2id` offset map into the unified node index space;
  - the concatenated relation list and feature matrix;
  - `accuracy_score` on each mask;
  - the fold that tracks the best validation accuracy and its test accuracy.
- **Shared counting** (`metrics.dfy`, module `Metrics`):
  - the match count `(a == b).sum()`;
  - boolean-mask selection `s[mask]`;
  - the ratios built from them.

  A tensor division 0/0 gives NaN rather than raising, so ratios are
  `Score = NaN | Num(real)`. A NaN never compares greater than anything.
  `wrappers.dfy` holds `Option` and `Result`.

The model follows the code. The loop
counts high-similarity iterations **cumulatively**: `patience` is never reset.
Three consecutive high-similarity iterations are therefore not required, even
though the comment at `examples/ogc.py:32` says "consecutive". The cumulative
behaviour is shown by `Ogc.PatienceIsCumulative`.

## Model

| member | source | states |
|---|---|---|
| `GcnNorm.Forward` | rllm/transforms/graph_transforms/gcn_norm.py:20-31 | Fails exactly for a homogeneous graph without `adj`. Otherwise keeps the variant and the other attributes. `adj` becomes `norm(adj)` when present and stays absent when absent. The stores of a heterogeneous graph go through the store loop. |
| `GcnNorm.NormalizeOptional` | rllm/transforms/graph_transforms/gcn_norm.py:25-26 | A present top-level adjacency becomes `norm` of itself. An absent one stays absent. |
| `GcnNorm.NormalizeStores` | rllm/transforms/graph_transforms/gcn_norm.py:27-30 | Keeps the number and order of stores. A store without `adj`, or a bipartite one, is returned unchanged. Every other store gets exactly `norm(its adj)` and keeps its other fields. |
| `GcnNorm.HomoNormalized` | rllm/transforms/graph_transforms/gcn_norm.py:21-23 | A homogeneous graph with an adjacency comes back with `norm` of it and with identical other attributes. |
| `GcnNorm.HeteroStoresNormalized` | rllm/transforms/graph_transforms/gcn_norm.py:24-30 | A heterogeneous graph never fails. Its top-level `adj` is replaced if and only if it is present. A store that changed had an adjacency and was not bipartite. Flags and attributes of stores are kept. |
| `GcnNorm.HeteroWithoutAdjacencyUnchanged` | rllm/transforms/graph_transforms/gcn_norm.py:24-31 | A heterogeneous graph with no adjacency anywhere is accepted and returned unchanged. |
| `GcnNorm.ForwardTwice` | rllm/transforms/graph_transforms/gcn_norm.py:20-31 | Nothing guards against a second application. Applying the transform twice equals applying it once with the kernel composed with itself. |
| `GcnNorm.ForwardNotIdempotent` | rllm/transforms/graph_transforms/gcn_norm.py:21-23 | Suppose the kernel changes an already-normalised adjacency. Then a second application changes the graph again. |
| `Metrics.MatchCount` | examples/bridge/bridge_tacm12k.py:83 | The number of agreeing positions never exceeds the length. |
| `Metrics.MatchCountExtremes` | examples/bridge/bridge_tacm12k.py:83 | The count equals the length if and only if the vectors are equal. It is zero if and only if no position agrees. |
| `Metrics.MatchCountIsCardinality` | examples/ogc.py:136 | The count is the size of the set of positions where the two vectors agree. |
| `Metrics.Ratio` | examples/ogc.py:80 | A count divided by a count at least as large is NaN exactly when the denominator is 0. Otherwise it lies in [0,1]. It is 1 exactly when the counts are equal and 0 exactly when the numerator is 0. |
| `Metrics.Accuracy` | examples/bridge/bridge_tacm12k.py:82-83 | `accuracy_score` is NaN exactly on empty input and otherwise lies in [0,1]. It is 1 if and only if the predictions equal the truth. It is 0 if and only if no position agrees. |
| `Metrics.SimRate` | examples/ogc.py:136 | The similarity rate lies in [0,1]. It is 1 if and only if the two prediction vectors are equal. It is 0 if and only if they differ everywhere. |
| `Metrics.MaskCount` | examples/ogc.py:80 | `mask.sum()` is at most the length, and 0 exactly when nothing is selected. |
| `Metrics.MaskCountIsCardinality` | examples/ogc.py:80 | `mask.sum()` is the number of selected positions. |
| `Metrics.Select` | examples/ogc.py:80 | `s[mask]` never has more elements than `s`. |
| `Metrics.SelectMembers` | examples/ogc.py:80 | `s[mask]` is a sub-multiset of `s`, and a value occurs in it if and only if some selected position of `s` holds it. |
| `Metrics.SelectLength` | examples/ogc.py:80 | `s[mask]` has exactly `mask.sum()` elements. |
| `Metrics.MaskedMatches` | examples/ogc.py:80 | The matches inside a mask are at most the mask size. |
| `Metrics.MaskedMatchesIsCardinality` | examples/ogc.py:80 | `(pred[mask] == y[mask]).sum()` is the number of selected positions where the prediction is right. |
| `Metrics.SelectEqual` | examples/ogc.py:80 | The selected predictions equal the selected labels if and only if every selected position is predicted right. |
| `Metrics.MaskedAccuracy` | examples/ogc.py:80 | Per-mask accuracy is NaN exactly for an empty mask and otherwise lies in [0,1]. It is 1 if and only if every selected position is right. |
| `Metrics.MaskedAccuracyMeaning` | examples/ogc.py:79-80 | On a non-empty mask, the accuracy is the number of correctly predicted selected positions divided by the number of selected positions. It coincides with `accuracy_score` on the selected elements. |
| `Metrics.OrMask` | examples/ogc.py:49 | `train_mask \| val_mask` has the masks' length and selects exactly the positions the train mask or the val mask selects. |
| `Metrics.OrMaskCount` | examples/ogc.py:49 | The train+val mask's size lies between the larger of the two masks' sizes and their sum. |
| `Ogc.DecayEta` | examples/ogc.py:114 | One decay keeps `eta_sup` positive and strictly lowers it. |
| `Ogc.EtaAfter` | examples/ogc.py:27-28 | After any number of `update_U` calls, `eta_sup` lies in (0, 0.001]. |
| `Ogc.EtaAfterClosedForm` | examples/ogc.py:104-115 | After k calls of `update_U`, `eta_sup` = 0.001 · 0.9^k. |
| `Ogc.EtaAfterDecreasing` | examples/ogc.py:104-115 | `eta_sup` strictly decreases over any span of calls and stays positive. |
| `Ogc.TestAccuracies` | examples/ogc.py:77-82 | Gives the train+val accuracy on the OR of the train and val masks and the test accuracy on the test mask. Each is NaN exactly for an empty mask. Otherwise each lies in [0,1], is 1 if and only if every selected node is predicted right, and equals the number of correctly predicted selected nodes divided by the number of selected nodes (for train+val, the nodes in the train or the val mask). |
| `Ogc.HighSimIsSimRateAbove` | examples/ogc.py:136-137 | Comparing the agreement count against 99.5% of the node count decides exactly the same as comparing the float agreement rate against `max_sim_tol`, for every iteration and every positive number of nodes. |
| `Ogc.HighSimFlagsMeaning` | examples/ogc.py:136-137 | Flag i is set if and only if `sim_rate > max_sim_tol` at iteration i+1, with the rate taken against the initial predictions for iteration 1 and against the preceding iteration's predictions afterwards. |
| `Ogc.PatienceAfter` | examples/ogc.py:122-138 | `patience` after k iterations is at most k. |
| `Ogc.PatienceStep` | examples/ogc.py:137-138 | One iteration adds exactly one to `patience` when it is a high-similarity iteration, and nothing otherwise. |
| `Ogc.PatienceMonotone` | examples/ogc.py:122-138 | `patience` never decreases and grows by at most one per iteration, so it is never reset. |
| `Ogc.RunOgc` | examples/ogc.py:118-144 | The loop runs 1 to 64 iterations. `patience` is the cumulative number of iterations whose similarity to the immediately preceding predictions exceeds 0.995. The loop stops early if and only if that count exceeds 2 within 64 iterations, at the first iteration where it does. On a stop it returns the previous iteration's test accuracy; otherwise it returns iteration 64's. `eta_sup` ends at its value after as many decays as iterations executed. |
| `Ogc.PatienceIsCumulative` | examples/ogc.py:136-140 | With high similarity at iterations 1, 3 and 5 and changes at 2 and 4, `patience` is 2 after iteration 4 and first exceeds 2 at iteration 5. |
| `Bridge.Author2Id` | examples/bridge/bridge_tacm12k.py:49-52 | The keys are exactly the author ids. Every image lies in [n_papers, n_papers + n_authors) and leads back to its author at table position image − n_papers. |
| `Bridge.Author2IdLastWins` | examples/bridge/bridge_tacm12k.py:49-52 | The k-th author maps to n_papers + k whenever it does not occur again later in the table. |
| `Bridge.Author2IdInjective` | examples/bridge/bridge_tacm12k.py:49-52 | Images are pairwise distinct and never collide with a paper index. |
| `Bridge.Author2IdDistinct` | examples/bridge/bridge_tacm12k.py:49-52 | With distinct author ids, the k-th author maps to n_papers + k. |
| `Bridge.RelationList` | examples/bridge/bridge_tacm12k.py:48-58 | The relation list has #citations + #authorships rows. All citation rows come first, in order, with the cited paper id unchanged as target. Authorship rows follow in order. Each has a target if and only if the author is in the author table, and that target is an author index past the papers that leads back to the author. |
| `Bridge.Features` | examples/bridge/bridge_tacm12k.py:59 | The feature matrix has the paper rows first, then the author rows, each in order. |
| `Bridge.FeatureRowOfAuthor` | examples/bridge/bridge_tacm12k.py:49-59 | For every author id `a` in the map, `author2id[a]` is a row past the paper rows, the author table holds `a` at position `author2id[a] - n_papers`, and the feature row there is that position's author embedding. |
| `Bridge.MaskAccuracy` | examples/bridge/bridge_tacm12k.py:82-83 | `accuracy_score(preds[mask], y[mask])` equals the per-mask accuracy: matches inside the mask over the mask size. |
| `Bridge.EpochAccuracies` | examples/bridge/bridge_tacm12k.py:102-117 | Each of the train, val and test accuracies is NaN exactly for an empty mask, otherwise lies in [0,1], and is the per-mask accuracy of its mask. |
| `Bridge.Improve` | examples/bridge/bridge_tacm12k.py:149-151 | One epoch never lowers `best_val_acc`. A `val_acc` strictly above `best_val_acc` is always taken, together with that epoch's test accuracy; otherwise (including NaN) the pair is unchanged. |
| `Bridge.Track` | examples/bridge/bridge_tacm12k.py:130-151 | The tracked `best_val_acc` is never negative. |
| `Bridge.TrackMonotone` | examples/bridge/bridge_tacm12k.py:141-151 | `best_val_acc` never decreases from one epoch to a later one. |
| `Bridge.TrackIsFirstMaximum` | examples/bridge/bridge_tacm12k.py:130-151 | At the end, `best_val_acc` is at least every non-NaN val accuracy and is attained by one of them unless none exceeds 0. `best_test_acc` is the test accuracy of the first epoch attaining it. If no val accuracy exceeds 0, both stay 0. |
| `Bridge.TiesKeepEarlierEpoch` | examples/bridge/bridge_tacm12k.py:149 | Because the comparison is a strict `>`, a tie keeps the earlier epoch's test accuracy. |

## Left out

- The `gcn_norm` kernel: `rllm.transforms.utils` is not part of this model. It is the parameter `norm`, so the numeric value of a normalised adjacency is not modelled, nor whether normalising twice differs from normalising once; `ForwardNotIdempotent` assumes the kernel is not idempotent.
- Object identity: `forward` mutates its argument and returns that same object. The model returns the updated value, and identity is not expressible over values.
- The presence of `adj` is modelled as `Some`/`None`, both for the top-level `'adj' in data` (rllm/transforms/graph_transforms/gcn_norm.py:25) and for `'adj' in store` in the edge-store loop (gcn_norm.py:28). A key that is present but bound to `None` is not distinguished: the source would hand `None` to the kernel, while the model leaves it absent.
- All tensor numerics of OGC: the one-hot matrix, `S`, `lazy_adj`, `update_W` (SGD on the MSE), the propagation and supervised correction of `U` in `update_U`, and the MSE loss returned by `test`. `RunOgc` takes the per-iteration test accuracies and hard predictions as inputs.
- `Ogc.RunOgc`: requires exactly one observation per possible iteration (64) and a non-empty node set. On zero nodes the source's float division raises, and the model does not represent that abort.
- `Metrics.SimRate`: requires at least one node, for the same reason.
- The `Bridge` model, the Adam optimiser and `train_epoch` (cross-entropy and autograd). The per-epoch predictions are inputs to `EpochAccuracies`.
- `build_homo_graph` is not part of this model. The relation list and feature matrix it receives are modelled. The adjacency it builds is not.
- Column dtypes of `relation_df`: a NaN target would turn the column into floats. The model keeps integer targets and represents NaN as `None`.
- Dataset loading and caching, device placement, argument parsing (including the single-string `choices` list), printing, timing and warning filters.
- Floating-point rounding: ratios and `eta_sup` are exact reals, and "similarity > 0.995" is compared on the exact ratio.
