# Second-round vote transfers of the 2024 French legislative elections

This project models the forecaster in `analyse_legislatives` in Dafny, and
proves properties of the model. The forecaster predicts each district's
second round from its first. Each pool of votes is split among the
categories still in the race by one multinomial draw. A pool is the votes of
an eliminated family, or the district's abstentions. The draw's
probabilities are the district's row of a transfer matrix, masked and
renormalized for that district. The forecaster then counts one seat per
district for the winner.

The model has these modules, one per concern of the source:

- `Categories` (`categories.dfy`): the five political families of `PoliticalFamily`, the abstention sentinel "ABS", `SECOND_ROUND_PARTIES`, and the default matrix order.
- `Dicts` (`dicts.dfy`): Python's insertion-ordered dicts as a key sequence plus a map, together with `|`, `list(d.values())`, and sums.
- `Wrappers` (`wrappers.dfy`): the exceptions the source can raise (`KeyError`, `IndexError`, `ValueError`), as `Result` and `Option` values. The `ZeroDivisionError` of a zero variance is excluded by the constructor's precondition instead (see "## Left out").
- `Draws` (`draws.dfy`): `truncnorm.rvs` and `np.random.multinomial`. Each is a method that picks an arbitrary value inside the distribution's support; nothing else about the distribution is assumed.
- `Circonscriptions` (`circonscription.dfy`): districts and their identifiers, first-round results and their vote pools, predictions with their winners and seats, and the national seat tally.
- `TransferParameters` (`parameters.dfy`): `StatisticalModelParameters` with `to_matrix`, `to_dict`, `normalize` and the truncated-Gaussian resampling.
- `Model` (`model.dfy`): the class `StatisticalModel`, and the definitions of valid transfers and of a valid prediction.
- `PredictionProperties` (`properties.dfy`): what every prediction satisfies, a sufficient condition for a district to be predicted without error, and what such a success implies.

The state the source updates in place is modelled as it changes:

- The model's parameters are fixed at construction, so they are `const` fields of the class.
- `to_dict`, `_sample_from_truncated_gaussian`, the loop of `sample_transfers_in_circonscription` and `agregate_by_party` are methods with loops. Each is proved against a function or predicate of its inputs.

`predict_circonscription` does not compute a single result: it draws at
random. Its contract therefore says that its result satisfies
`IsPredictionFor`. That predicate holds when some transfers satisfy
`ValidTransfers` and combine into that prediction. Every property in
`PredictionProperties` holds for every such prediction.

Three behaviours of the code are easy to misread:

- **No votes are lost.** A row that normalizes to zero does not drop its pool. `np.random.multinomial` gives the last category the mass `1 - sum(pvals[:-1])`, which is 1 for an all-zero row. Either way, every pool is sent out in full, so votes are conserved in every district (`PredictionConservesVotes`).
- **The abstention row is masked.** `second_round_mask[-1] = 1` keeps the last column, but the same mask also zeroes the last row. When "ABS" is the last competing category, as in `SECOND_ROUND_PARTIES`, the abstention pool therefore stays with the abstentions in full (`AbstentionsStay`). It is not spread over the remaining parties.
- **Rows are masked by first-round count, not elimination.** The row of a pool with a positive competing count is masked too, so that whole pool also goes to the last competing category (`MaskedPoolToLast`).

## Model

| member | source | states |
|---|---|---|
| Categories.CategoriesWellDefined | src/analyse_legislatives/utils.py:4-9 | the labels tell the six categories apart; the parties are exactly the five families; `SECOND_ROUND_PARTIES` and the default order each list all six categories once |
| Categories.LastIndex | src/analyse_legislatives/model.py:57-61 | the position whose entry a dict built by enumerating `order` keeps for a key: the last occurrence |
| Dicts.Dict.Values | src/analyse_legislatives/model.py:83 | `list(d.values())` has one value per key, in key order |
| Dicts.Union | src/analyse_legislatives/circonscription.py:38 | `d1 \| d2` keeps the keys of `d1` in order, then the new keys of `d2`; a shared key takes the value from `d2` |
| Dicts.Zip | src/analyse_legislatives/model.py:135-147 | the dict built by enumerating `order` against a list of counts has exactly the keys of `order`, and its values are the counts when the keys are distinct |
| Draws.TruncationBounds | src/analyse_legislatives/model.py:71-76 | the standardised bounds `a < b` map back to exactly 0 and 1 |
| Draws.TruncatedGaussian | src/analyse_legislatives/model.py:71-76 | a draw lies in [0, 1] |
| Draws.Multinomial | src/analyse_legislatives/model.py:138-146 | one non-negative count per probability, summing to `n`; no count for an entry, other than the last, of probability 0; none for the last entry when the others take all the mass |
| Circonscriptions.ParseTwoDigits | src/analyse_legislatives/circonscription.py:20 | `int()` of two digits is their decimal value; any accepted string parses into -9..99 |
| Circonscriptions.InitFromInseeSpec | src/analyse_legislatives/circonscription.py:15-24 | `InitFromInsee`: IndexError for a code shorter than 3; ValueError exactly when the third character is '0', the second is a digit and the first two do not parse; otherwise the third character is dropped exactly when the guard holds, and the rest of the code is kept |
| Circonscriptions.InitFromInseeOverseas | src/analyse_legislatives/circonscription.py:26-27 | `IsOverseas` of `InitFromInsee`: a five-character code gives an overseas district exactly when its third character is kept |
| Circonscriptions.InitFromInseeExamples | src/analyse_legislatives/circonscription.py:15-24 | a mainland code, a Corsican code, an overseas code, a too-short code and two unparseable codes give the expected identifiers or errors |
| Circonscriptions.CirconscriptionResult.AvailableVotePoolsByParty | src/analyse_legislatives/circonscription.py:37-38 | the pools are the eliminated results plus "ABS", whose value is the abstention count; "ABS" joins last unless already present |
| Circonscriptions.PoolsTotal | src/analyse_legislatives/circonscription.py:37-38 | the pools total the eliminated votes, with any eliminated "ABS" entry replaced by the abstentions |
| Circonscriptions.CirconscriptionPrediction.ValidWinners | src/analyse_legislatives/circonscription.py:47-49 | the results without "ABS": the keys of `results` in their order with "ABS" left out, each with its value in `results` |
| Circonscriptions.ArgMax | src/analyse_legislatives/circonscription.py:51 | `np.argmax` returns an index of a maximum that is greater than every entry before it |
| Circonscriptions.CirconscriptionPrediction.GetWinner | src/analyse_legislatives/circonscription.py:46-53 | the winner is a category of the results other than "ABS" |
| Circonscriptions.GetWinnerIsFirstMaximum | src/analyse_legislatives/circonscription.py:46-53 | the winner has the most votes among the non-abstention categories, and strictly more than every such category before it |
| Circonscriptions.CirconscriptionPrediction.GetSeats | src/analyse_legislatives/circonscription.py:55-61 | the seats map the five families to 1 for the winner and 0 otherwise, one seat in all |
| Circonscriptions.CounterUpdate | src/analyse_legislatives/circonscription.py:67 | `Counter.update` adds the counts key by key over the union of keys, so the totals add |
| Circonscriptions.Winners | src/analyse_legislatives/circonscription.py:66-67 | one winner per prediction, never "ABS" |
| Circonscriptions.CountAddUp | src/analyse_legislatives/circonscription.py:63-69 | among winners that are parties, the seats of the five families add up to the number of districts, and "ABS" has none |
| Circonscriptions.TallyStep | src/analyse_legislatives/circonscription.py:66-67 | one `update` extends the tally of the earlier winners to the next one |
| Circonscriptions.AgregateByParty | src/analyse_legislatives/circonscription.py:63-69 | the tally lists the five families (nothing for no prediction), gives each its number of won districts, and totals the number of districts |
| Circonscriptions.TallyTotal | src/analyse_legislatives/circonscription.py:63-69 | a complete tally totals the number of districts |
| TransferParameters.ToMatrix | src/analyse_legislatives/model.py:19-44 | KeyError exactly when an off-diagonal cell has a source missing from the parameters; otherwise a square matrix with 0 on cells whose source and target are the same, and `parameters[source].get(target, 0)` elsewhere |
| TransferParameters.MissingSourceOffDiagonal | src/analyse_legislatives/model.py:35-39 | a missing source raises only if some cell of its row is off the diagonal |
| TransferParameters.ToMatrixDefaultOrder | src/analyse_legislatives/model.py:23-31 | with the default order the matrix is 6 x 6, and KeyError is raised exactly when a category has no row |
| TransferParameters.MatrixToDict | src/analyse_legislatives/model.py:46-63 | `to_dict` keys its result, at both levels, by exactly the categories of `order` |
| TransferParameters.RowsToDictStep | src/analyse_legislatives/model.py:57-61 | one pass of the loop sets the entry of `order[i]` to row `i` |
| TransferParameters.ToDict | src/analyse_legislatives/model.py:46-63 | the loop builds the dict defined by `MatrixToDict` |
| TransferParameters.MatrixToDictCells | src/analyse_legislatives/model.py:56-62 | for distinct keys, entry `[order[i]][order[j]]` of the dict is cell `(i, j)` of the matrix |
| TransferParameters.ToMatrixToDict | src/analyse_legislatives/model.py:19-63 | `to_dict(to_matrix(order), order)` keys both levels by `order`, is 0 on the diagonal and gives the weight of the parameters elsewhere |
| TransferParameters.Mask | src/analyse_legislatives/model.py:82-85 | `second_round_mask` is binary, and 1 exactly for a positive count and for the last slot |
| TransferParameters.ApplyMask | src/analyse_legislatives/model.py:86-91 | with a binary mask, a cell whose row has mask 1 or whose column has mask 0 is 0, and every other cell keeps its value |
| TransferParameters.MaskedCells | src/analyse_legislatives/model.py:82-91 | a cell in a masked row or column is 0, and every other cell keeps its `to_matrix` value |
| TransferParameters.NormalizedMatrix | src/analyse_legislatives/model.py:81-100 | on success the district order is non-empty and readable by `to_matrix`, and each row is the masked row renormalized |
| TransferParameters.Normalize | src/analyse_legislatives/model.py:81-100 | `normalize` succeeds exactly when the normalized matrix can be built, and then keys its result at both levels by exactly the district's competing categories (cells in `NormalizeDict`, errors in `NormalizeErrors`) |
| TransferParameters.NormalizeErrors | src/analyse_legislatives/model.py:81-100 | `normalize` fails exactly on an empty order (IndexError), a missing source (KeyError) or a size other than 1 or 6 (ValueError), in that precedence |
| TransferParameters.NormalizeMasking | src/analyse_legislatives/model.py:82-99 | every masked cell of the normalized matrix is 0 |
| TransferParameters.RowNormalizeZero | src/analyse_legislatives/model.py:95-97 | `RowNormalize` keeps a 0 entry 0 |
| TransferParameters.NormalizeRowSums | src/analyse_legislatives/model.py:95-97 | a row whose masked sum is not 0 sums to 1 and is the masked row divided by its sum; a row whose masked sum is 0 becomes all zeros |
| TransferParameters.MaskedNonNegative | src/analyse_legislatives/model.py:87-91 | with non-negative weights every masked row is non-negative |
| TransferParameters.RowNormalizeSum | src/analyse_legislatives/model.py:95-97 | `RowNormalize` turns a row of non-zero sum into a row summing to 1 |
| TransferParameters.RowNormalizeValid | src/analyse_legislatives/model.py:95-97 | `RowNormalize` turns a non-negative row into probabilities that `np.random.multinomial` accepts |
| TransferParameters.NormalizeUnitRange | src/analyse_legislatives/model.py:92-99 | with non-negative weights every normalized row is a valid multinomial probability vector |
| TransferParameters.NormalizeDict | src/analyse_legislatives/model.py:93-100 | once the matrix is built, `normalize` succeeds with the dict whose cells are the matrix's cells, keyed by the district order |
| TransferParameters.SampleFromTruncatedGaussian | src/analyse_legislatives/model.py:65-79 | the sampled parameters have the same sources and, for each, the same targets as the hyperparameters, with every weight in [0, 1] |
| Model.Pvals | src/analyse_legislatives/model.py:140-144 | the probabilities of a pool are its row of the normalized parameters, in district order |
| Model.PoolsErrorPrefix | src/analyse_legislatives/model.py:127-147 | once a pool has failed, the later pools do not change the error raised |
| Model.SplitsAreValidTransfers | src/analyse_legislatives/model.py:126-148 | splits of exactly the pools, each a valid split of its row, are valid transfers for the district |
| Model.StatisticalModel.constructor | src/analyse_legislatives/model.py:103-117 | the model keeps its hyperparameters, variance and flag; its parameters are the hyperparameters when fixed, and sampled from them otherwise |
| Model.StatisticalModel.SampleTransfersInCirconscription | src/analyse_legislatives/model.py:119-148 | fails exactly with the error of `normalize` or of the first failing pool; otherwise returns valid transfers: each pool split among the competing categories within the support of its multinomial draw |
| Model.SplitPools | src/analyse_legislatives/model.py:126-147 | the loop over the pools fails with the first pool error, or returns one valid split per pool |
| Model.SplitPool | src/analyse_legislatives/model.py:131-146 | a pool absent from the normalized sources raises KeyError, a negative pool or invalid row raises ValueError, and otherwise the split is valid |
| Model.SplitOfCounts | src/analyse_legislatives/model.py:135-146 | the dict built from a multinomial draw is a valid split of the pool |
| Model.StatisticalModel.PredictCirconscription | src/analyse_legislatives/model.py:150-170 | fails exactly with the error sampling raises, or KeyError for a category missing from the first round; otherwise returns a prediction for the district |
| Model.StatisticalModel.PredictAllCirconscriptions | src/analyse_legislatives/model.py:172-178 | on success, one prediction per district in order; on failure, the error of the first failing district |
| PredictionProperties.CombineEntries | src/analyse_legislatives/model.py:157-170 | the prediction `Combine` builds keeps the district, lists the six categories in `SECOND_ROUND_PARTIES` order, and gives each its first-round count plus what it receives |
| PredictionProperties.PredictionShape | src/analyse_legislatives/model.py:164-170 | a prediction keeps the district, has the six categories as keys, and always has a winner |
| PredictionProperties.InflowsTotal | src/analyse_legislatives/model.py:157-163 | summed over the targets, what the categories receive equals what the pools send |
| PredictionProperties.TransferCounts | src/analyse_legislatives/model.py:135-146 | exactly the pools are split, each into non-negative counts that add up to the pool |
| PredictionProperties.TransfersSendPools | src/analyse_legislatives/model.py:127-147 | every pool is sent out in full |
| PredictionProperties.InflowNonNegative | src/analyse_legislatives/model.py:157-163 | no category receives a negative number of votes |
| PredictionProperties.PredictionAtLeastFirstRound | src/analyse_legislatives/model.py:164-170 | every category's prediction is at least its first-round count |
| PredictionProperties.PredictionConservesVotes | src/analyse_legislatives/model.py:150-170 | the prediction totals the first-round votes of the competing categories plus the pools, i.e. plus the eliminated votes with their "ABS" entry replaced by the abstentions |
| PredictionProperties.NoTransferToAbsent | src/analyse_legislatives/model.py:82-91 | a category (other than the last) with no positive first-round count receives nothing from any pool |
| PredictionProperties.AbsentKeepsFirstRound | src/analyse_legislatives/model.py:164-170 | such a category's prediction is its first-round count |
| PredictionProperties.MaskedPoolToLast | src/analyse_legislatives/model.py:85-91 | a pool whose row is masked sends its whole pool to the last competing category and nothing elsewhere |
| PredictionProperties.AbstentionsStay | src/analyse_legislatives/model.py:85 | with "ABS" last among the competing categories, the abstention pool goes entirely to "ABS" |
| PredictionProperties.PredictedAbstentions | src/analyse_legislatives/model.py:164-170 | with "ABS" last, the predicted abstentions are at least the first-round abstentions plus the abstention pool |
| PredictionProperties.PoolsErrorNone | src/analyse_legislatives/model.py:127-147 | the loop raises nothing exactly when no pool step raises |
| PredictionProperties.PredictableNoError | src/analyse_legislatives/model.py:150-170 | a district whose competing results hold all six categories, with non-negative pools and non-negative parameters covering every category, is predicted without error |
| PredictionProperties.NoErrorPredictable | src/analyse_legislatives/model.py:150-170 | conversely, a district predicted without error has all six categories among its competing results, parameters `to_matrix` can read, and non-negative pools |
| PredictionProperties.SampledPredictable | src/analyse_legislatives/model.py:109-117 | sampled parameters, drawn from hyperparameters covering every category, predict every such district without error |
| PredictionProperties.PredictionsHaveWinners | src/analyse_legislatives/model.py:172-178 | every prediction of `predict_all_circonscriptions` keeps its district and has a winner, so its seats can be counted |

## Left out

- Floating point: numpy's floats are exact reals here. Sums are computed exactly, and `np.random.multinomial`'s tolerance on `sum(pvals[:-1]) <= 1` (1e-12) is not modelled.
- `nan_to_num`: with exact reals, only a row summing to exactly 0 divides 0 by 0. Such a row becomes zeros, as in the code. A row of mixed signs summing to 0 arises only from negative weights; numpy turns it into ±max-float pvals and `multinomial` raises ValueError, whereas the model makes it a zero row and splits the pool without error, so `PoolError` is `None` where the code raises.
- Draws.TruncatedGaussian: only the support [0, 1] of `truncnorm.rvs` is stated, not its distribution; the randomness itself is left out.
- Draws.Multinomial: only the support of `np.random.multinomial` is stated, not its distribution; the randomness itself is left out.
- Integer width: vote counts are unbounded integers; numpy's int64 overflow of `n` is not modelled.
- Circonscriptions.ParseTwoDigits: `str.isnumeric` and `int()` are modelled on ASCII digits, signs and blanks only, leaving out the other Unicode numerals Python accepts.
- `CirconscriptionPrediction.__str__` is printing and is not modelled.
- `StatisticalModelParameters` is modelled as the dict it wraps. The source order of the hyperparameters' keys only decides the order in which the sampling loop visits them, which the result does not depend on.
- Model.StatisticalModel.constructor: requires a positive variance when the parameters are sampled, which excludes two error paths. A zero variance makes the code itself raise `ZeroDivisionError` in `-param / variance` (src/analyse_legislatives/model.py:72-73) before `truncnorm` is called. A negative variance makes `truncnorm.rvs` raise `ValueError`, since the scale is negative and `a > b`. Both need at least one hyperparameter, and neither is modelled.
- TransferParameters.ToDict: requires the matrix to have a row and a column for every key; the IndexError numpy raises otherwise is not modelled, because `normalize` always passes a matrix of the right size.
- TransferParameters.NormalizedMatrix: numpy broadcasting of the 6 x n mask against the n x n matrix is modelled by its outcome. Sizes other than 1 and 6 raise ValueError. Size 1 broadcasts to a 6 x 6 matrix whose only cell that `to_dict` reads is 0, the value the model gives.
- Exceptions are modelled as `Result` and `Option` values, not as control flow.
- Circonscriptions.CirconscriptionPrediction.GetWinner: requires an entry other than "ABS" (as do `GetSeats` and `AgregateByParty`); the ValueError `np.argmax` raises on an empty list is not modelled, because every prediction the model makes has such an entry (`PredictionsHaveWinners`).
- Model.StatisticalModel.PredictAllCirconscriptions: the independence of the draws across districts is not stated; each prediction is only a possible one for its district.
