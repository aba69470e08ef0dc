/** What every prediction of `StatisticalModel` satisfies, and when a
    district can be predicted at all. */
module PredictionProperties {
  import opened Categories
  import opened Dicts
  import opened Wrappers
  import opened Draws
  import opened Circonscriptions
  import opened TransferParameters
  import opened Model

  // ------------------------------------------------------------ shape

  /** The entries of the prediction `Combine` builds. */
  lemma CombineEntries(details: CirconscriptionResult, t: Transfers)
    requires Combine(details, t).Ok?
    ensures var pred, firstRound := Combine(details, t).value, details.competingPartiesResults.vals;
      && pred.circonscription == details.circonscription
      && pred.results.keys == SecondRoundParties
      && forall c :: && c in firstRound && c in pred.results.vals
                     && pred.results.vals[c] == firstRound[c] + Inflow(t, c)
  {
    hide Inflow;
    CategoriesWellDefined();
  }

  /** A prediction keeps the district, lists the six second-round categories
      in `SECOND_ROUND_PARTIES` order and so always has a winner. */
  lemma PredictionShape(p: Parameters, details: CirconscriptionResult, pred: CirconscriptionPrediction)
    requires details.WellFormed() && IsPredictionFor(p, details, pred)
    ensures pred.circonscription == details.circonscription
    ensures pred.results.keys == SecondRoundParties
    ensures pred.results.WellFormed() && pred.HasCandidate()
    ensures forall c :: c in pred.results.vals && c in details.competingPartiesResults.vals
  {
    hide Combine, ValidTransfers, Inflow;
    var t :| ValidTransfers(p, t, details) && Combine(details, t) == Ok(pred);
    CombineEntries(details, t);
    CategoriesWellDefined();
    assert forall c :: c in pred.results.vals <==> c in pred.results.keys;
    assert NFP in pred.results.vals;
  }

  // ------------------------------------------------------------ transferred votes

  /** What pool `s` sends in all (0 when `s` is not a pool). */
  function SourceTotal(t: Transfers, s: Category): int {
    if s in t then Total(t[s]) else 0
  }

  /** What pool `s` sends to `c` (0 when `s` is not a pool). */
  function Sent(t: Transfers, s: Category, c: Category): int {
    if s in t then Get(t[s], c) else 0
  }

  lemma InflowBySource(t: Transfers, c: Category)
    ensures Inflow(t, c) == Sent(t, NFP, c) + Sent(t, LR, c) + Sent(t, RN, c)
                          + Sent(t, ENS, c) + Sent(t, DIV, c) + Sent(t, ABS, c)
  {
  }

  lemma SourceTotalByTarget(t: Transfers, s: Category)
    ensures SourceTotal(t, s) == Sent(t, s, NFP) + Sent(t, s, LR) + Sent(t, s, RN)
                               + Sent(t, s, ENS) + Sent(t, s, DIV) + Sent(t, s, ABS)
  {
  }

  /** Summing what every category receives is summing what every pool sends. */
  lemma InflowsTotal(t: Transfers)
    ensures Inflow(t, NFP) + Inflow(t, LR) + Inflow(t, RN) + Inflow(t, ENS) + Inflow(t, DIV) + Inflow(t, ABS)
         == SourceTotal(t, NFP) + SourceTotal(t, LR) + SourceTotal(t, RN)
          + SourceTotal(t, ENS) + SourceTotal(t, DIV) + SourceTotal(t, ABS)
  {
    hide Inflow, SourceTotal, Sent;
    InflowBySource(t, NFP);
    InflowBySource(t, LR);
    InflowBySource(t, RN);
    InflowBySource(t, ENS);
    InflowBySource(t, DIV);
    InflowBySource(t, ABS);
    SourceTotalByTarget(t, NFP);
    SourceTotalByTarget(t, LR);
    SourceTotalByTarget(t, RN);
    SourceTotalByTarget(t, ENS);
    SourceTotalByTarget(t, DIV);
    SourceTotalByTarget(t, ABS);
  }

  /** Valid transfers split each pool into non-negative counts adding up to it. */
  lemma TransferCounts(p: Parameters, t: Transfers, details: CirconscriptionResult)
    requires details.WellFormed() && ValidTransfers(p, t, details)
    ensures var pools := details.AvailableVotePoolsByParty().vals;
      && t.Keys == pools.Keys
      && forall e | e in t :: (forall b | b in t[e] :: t[e][b] >= 0) && Total(t[e]) == pools[e]
  {
    var competing := details.competingPartiesResults;
    var normalized := Normalize(p, competing).value;
    var pools := details.AvailableVotePoolsByParty().vals;
    forall e | e in t ensures (forall b | b in t[e] :: t[e][b] >= 0) && Total(t[e]) == pools[e] {
      assert ValidSplit(t[e], competing.keys, pools[e], Pvals(normalized, competing.keys, e));
    }
  }

  /** Valid transfers send each pool out in full. */
  lemma TransfersSendPools(p: Parameters, t: Transfers, details: CirconscriptionResult)
    requires details.WellFormed() && ValidTransfers(p, t, details)
    ensures var pools := details.AvailableVotePoolsByParty().vals;
      forall s :: SourceTotal(t, s) == Get(pools, s)
  {
    TransferCounts(p, t, details);
  }

  /** A category receives a non-negative number of votes. */
  lemma InflowNonNegative(p: Parameters, t: Transfers, details: CirconscriptionResult, c: Category)
    requires details.WellFormed() && ValidTransfers(p, t, details)
    ensures Inflow(t, c) >= 0
  {
    hide ValidTransfers, CirconscriptionResult.AvailableVotePoolsByParty, Normalize, NormalizedMatrix, MatrixToDict;
    TransferCounts(p, t, details);
    var col := Column(t, c);
    assert forall s | s in col :: col[s] >= 0;
  }

  // ------------------------------------------------------------ masked rows and columns

  /** Each pool is a competing category, and its split lies in the support
      of the draw whose probabilities are its row of the normalized matrix. */
  lemma TransferRow(p: Parameters, t: Transfers, details: CirconscriptionResult, e: Category)
    requires details.WellFormed() && ValidTransfers(p, t, details) && e in t
    ensures var competing := details.competingPartiesResults;
      && NormalizedMatrix(p, competing).Ok? && e in competing.keys
      && ValidSplit(t[e], competing.keys, details.AvailableVotePoolsByParty().vals[e],
                    NormalizedMatrix(p, competing).value[LastIndex(competing.keys, e)])
  {
    var competing := details.competingPartiesResults;
    var order, normalized := competing.keys, Normalize(p, competing).value;
    assert NormalizedMatrix(p, competing).Ok?;
    NormalizeDict(p, competing);
    var m := NormalizedMatrix(p, competing).value;
    assert e in normalized && e in order;
    RowOfDict(normalized, m, order, LastIndex(order, e));
  }

  /** The pools are among the competing categories. */
  lemma PoolsCompete(p: Parameters, t: Transfers, details: CirconscriptionResult)
    requires details.WellFormed() && ValidTransfers(p, t, details)
    ensures forall e | e in t :: e in details.competingPartiesResults.keys
  {
    forall e | e in t ensures e in details.competingPartiesResults.keys {
      TransferRow(p, t, details, e);
    }
  }

  /** A masked cell of the normalized matrix has probability 0, so the pool
      of its row sends nothing to the category of its column. */
  lemma TransferMasked(p: Parameters, t: Transfers, details: CirconscriptionResult, i: nat, j: nat)
    requires details.WellFormed() && ValidTransfers(p, t, details)
    requires var competing := details.competingPartiesResults;
      && i < |competing.keys| && j < |competing.keys| - 1
      && competing.keys[i] in t && MaskedOut(competing, i, j)
    ensures var order := details.competingPartiesResults.keys; Get(t[order[i]], order[j]) == 0
  {
    var competing := details.competingPartiesResults;
    var order := competing.keys;
    TransferRow(p, t, details, order[i]);
    LastIndexDistinct(order, i);
    NormalizeMasking(p, competing);
    assert NormalizedMatrix(p, competing).value[i][j] == 0.0;
  }

  /** A category with no positive first-round count (other than the last
      one) has its column masked: no pool sends it anything. */
  lemma NoTransferToAbsent(p: Parameters, t: Transfers, details: CirconscriptionResult, j: nat)
    requires details.WellFormed() && ValidTransfers(p, t, details)
    requires var competing := details.competingPartiesResults;
      j < |competing.keys| - 1 && competing.vals[competing.keys[j]] <= 0
    ensures var c := details.competingPartiesResults.keys[j];
      (forall s :: Sent(t, s, c) == 0) && Inflow(t, c) == 0
  {
    hide ValidTransfers, CirconscriptionResult.AvailableVotePoolsByParty, Normalize, NormalizedMatrix, MatrixToDict, Inflow;
    var competing := details.competingPartiesResults;
    var order := competing.keys;
    PoolsCompete(p, t, details);
    forall s ensures Sent(t, s, order[j]) == 0 {
      if s in t {
        var i := LastIndex(order, s);
        assert MaskedOut(competing, i, j);
        TransferMasked(p, t, details, i, j);
      }
    }
    InflowBySource(t, order[j]);
  }

  /** Such a category ends the second round with its first-round count. */
  lemma AbsentKeepsFirstRound(p: Parameters, details: CirconscriptionResult, pred: CirconscriptionPrediction, j: nat)
    requires details.WellFormed() && IsPredictionFor(p, details, pred)
    requires var competing := details.competingPartiesResults;
      j < |competing.keys| - 1 && competing.vals[competing.keys[j]] <= 0
    ensures var c := details.competingPartiesResults.keys[j];
      c in pred.results.vals && pred.results.vals[c] == details.competingPartiesResults.vals[c]
  {
    hide Combine, ValidTransfers, Inflow;
    var t :| ValidTransfers(p, t, details) && Combine(details, t) == Ok(pred);
    CombineEntries(details, t);
    NoTransferToAbsent(p, t, details, j);
  }

  /** A pool whose row is masked (the last competing category, or one with a
      positive first-round count) draws with all probabilities 0, so the
      whole pool goes to the last competing category. */
  lemma MaskedPoolToLast(p: Parameters, t: Transfers, details: CirconscriptionResult, e: Category)
    requires details.WellFormed() && ValidTransfers(p, t, details)
    requires var competing := details.competingPartiesResults;
      && e in details.AvailableVotePoolsByParty().vals
      && |competing.keys| > 0
      && (e == competing.keys[|competing.keys| - 1] || (e in competing.vals && competing.vals[e] > 0))
    ensures var order := details.competingPartiesResults.keys;
      && Sent(t, e, order[|order| - 1]) == details.AvailableVotePoolsByParty().vals[e]
      && forall c | c != order[|order| - 1] :: Sent(t, e, c) == 0
  {
    hide ValidTransfers, Normalize, NormalizedMatrix, MatrixToDict, CirconscriptionResult.AvailableVotePoolsByParty;
    var competing, pools := details.competingPartiesResults, details.AvailableVotePoolsByParty().vals;
    var order, last := competing.keys, |competing.keys| - 1;
    SplitKeys(p, t, details, e);
    PoolsCompete(p, t, details);
    var i := LastIndex(order, e);
    forall j | 0 <= j < last ensures Get(t[e], order[j]) == 0 {
      assert MaskedOut(competing, i, j);
      TransferMasked(p, t, details, i, j);
    }
    hide Total;
    SplitToLast(t[e], order, pools[e]);
  }

  /** A pool's split lists every competing category and sums to the pool. */
  lemma SplitKeys(p: Parameters, t: Transfers, details: CirconscriptionResult, e: Category)
    requires details.WellFormed() && ValidTransfers(p, t, details)
    requires e in details.AvailableVotePoolsByParty().vals
    ensures e in t
    ensures t[e].Keys == (set b | b in details.competingPartiesResults.keys)
    ensures Total(t[e]) == details.AvailableVotePoolsByParty().vals[e]
  {
    TransferRow(p, t, details, e);
  }

  /** A split with nothing for any category but the last gives the last all. */
  lemma SplitToLast(split: map<Category, int>, order: seq<Category>, votes: int)
    requires |order| > 0 && split.Keys == (set b | b in order) && Total(split) == votes
    requires forall j | 0 <= j < |order| - 1 :: Get(split, order[j]) == 0
    ensures Get(split, order[|order| - 1]) == votes
    ensures forall c | c != order[|order| - 1] :: Get(split, c) == 0
  {
    forall c | c != order[|order| - 1] ensures Get(split, c) == 0 {
      if c in split {
        var j := LastIndex(order, c);
      }
    }
  }

  /** When "ABS" is the last competing category, as in `SECOND_ROUND_PARTIES`,
      the abstention pool stays with the abstentions in full. */
  lemma AbstentionsStay(p: Parameters, t: Transfers, details: CirconscriptionResult)
    requires details.WellFormed() && ValidTransfers(p, t, details)
    requires var order := details.competingPartiesResults.keys; |order| > 0 && order[|order| - 1] == ABS
    ensures Sent(t, ABS, ABS) == details.abstention
    ensures forall c | c != ABS :: Sent(t, ABS, c) == 0
  {
    MaskedPoolToLast(p, t, details, ABS);
  }

  /** So the predicted abstentions are at least the first-round ones plus
      the abstention pool. */
  lemma PredictedAbstentions(p: Parameters, details: CirconscriptionResult, pred: CirconscriptionPrediction)
    requires details.WellFormed() && IsPredictionFor(p, details, pred)
    requires var order := details.competingPartiesResults.keys; |order| > 0 && order[|order| - 1] == ABS
    ensures ABS in pred.results.vals && ABS in details.competingPartiesResults.vals
    ensures pred.results.vals[ABS] >= details.competingPartiesResults.vals[ABS] + details.abstention
  {
    hide Combine, ValidTransfers, Inflow, Sent;
    var t :| ValidTransfers(p, t, details) && Combine(details, t) == Ok(pred);
    CombineEntries(details, t);
    AbstentionsStay(p, t, details);
    InflowBySource(t, ABS);
    SentNonNegative(p, t, details, ABS);
  }

  /** No pool sends a negative number of votes. */
  lemma SentNonNegative(p: Parameters, t: Transfers, details: CirconscriptionResult, c: Category)
    requires details.WellFormed() && ValidTransfers(p, t, details)
    ensures forall s :: Sent(t, s, c) >= 0
  {
    hide ValidTransfers, CirconscriptionResult.AvailableVotePoolsByParty, Normalize, NormalizedMatrix, MatrixToDict;
    TransferCounts(p, t, details);
  }

  // ------------------------------------------------------------ the predicted votes

  /** No category loses votes in the second round: its predicted count is at
      least its first-round count. */
  lemma PredictionAtLeastFirstRound(p: Parameters, details: CirconscriptionResult, pred: CirconscriptionPrediction)
    requires details.WellFormed() && IsPredictionFor(p, details, pred)
    ensures forall c :: c in pred.results.vals && c in details.competingPartiesResults.vals &&
                        pred.results.vals[c] >= details.competingPartiesResults.vals[c]
  {
    hide Combine, ValidTransfers, Inflow;
    var t :| ValidTransfers(p, t, details) && Combine(details, t) == Ok(pred);
    CombineEntries(details, t);
    forall c ensures Inflow(t, c) >= 0 {
      InflowNonNegative(p, t, details, c);
    }
  }

  /** Vote conservation: the second round counts every first-round vote of
      the competing categories once, plus every vote of the pools (the
      eliminated families, with "ABS" replaced by the abstentions). */
  lemma PredictionConservesVotes(p: Parameters, details: CirconscriptionResult, pred: CirconscriptionPrediction)
    requires details.WellFormed() && IsPredictionFor(p, details, pred)
    ensures Total(pred.results.vals)
         == Total(details.competingPartiesResults.vals) + Total(details.AvailableVotePoolsByParty().vals)
    ensures Total(pred.results.vals)
         == Total(details.competingPartiesResults.vals) + Total(details.eliminatedPartiesResults.vals)
            - Get(details.eliminatedPartiesResults.vals, ABS) + details.abstention
  {
    hide Combine, ValidTransfers, Inflow, SourceTotal, CirconscriptionResult.AvailableVotePoolsByParty;
    var t :| ValidTransfers(p, t, details) && Combine(details, t) == Ok(pred);
    CombineEntries(details, t);
    var firstRound, results := details.competingPartiesResults.vals, pred.results.vals;
    assert forall c :: Get(results, c) == firstRound[c] + Inflow(t, c);
    InflowsTotal(t);
    TransfersSendPools(p, t, details);
    PoolsTotal(details);
  }

  // ------------------------------------------------------------ when a prediction exists

  lemma {:induction false} PoolsErrorNone(normalized: Parameters, order: seq<Category>, keys: seq<Category>,
                                          pools: map<Category, int>, n: nat)
    requires CoversOrder(normalized, order)
    requires n <= |keys| && forall k | 0 <= k < |keys| :: keys[k] in pools
    ensures PoolsError(normalized, order, keys, pools, n).None? <==>
            forall k | 0 <= k < n :: PoolError(normalized, order, keys[k], pools[keys[k]]).None?
  {
    if n > 0 {
      PoolsErrorNone(normalized, order, keys, pools, n - 1);
    }
  }

  /** The first `n` elements of a sequence of distinct categories are `n` categories. */
  lemma {:induction false} ElementsCard(s: seq<Category>, n: nat)
    requires Distinct(s) && n <= |s|
    ensures |Elements(s, n)| == n
  {
    if n > 0 {
      ElementsCard(s, n - 1);
      ElementsAt(s, n - 1, s[n - 1]);
    }
  }

  /** A dict holding all six categories lists them in six keys. */
  lemma AllCategoriesSix(d: Dict<int>)
    requires d.WellFormed() && forall c :: c in d.vals
    ensures |d.keys| == 6
  {
    assert Distinct(d.keys) && forall c :: c in d.keys;
    hide Distinct, Dict.WellFormed;
    ElementsCard(d.keys, |d.keys|);
    ElementsOfAll(d.keys);
  }

  lemma ElementsOfAll(s: seq<Category>)
    requires forall c :: c in s
    ensures Elements(s, |s|) == {NFP, LR, RN, ENS, DIV, ABS}
  {
    ElementsAll(s);
    forall c ensures c in Elements(s, |s|) && c in {NFP, LR, RN, ENS, DIV, ABS} {
      assert c in s;
      match c
      case NFP =>
      case LR =>
      case RN =>
      case ENS =>
      case DIV =>
      case ABS =>
    }
  }

  /** Everything a district needs to be predicted: its competing results
      hold all six categories, its pools are non-negative, and the
      parameters have a non-negative row for every category. */
  predicate Predictable(p: Parameters, details: CirconscriptionResult)
    requires details.WellFormed()
  {
    var pools := details.AvailableVotePoolsByParty().vals;
    && (forall c :: c in details.competingPartiesResults.vals)
    && (forall c :: c in p)
    && NonNegativeWeights(p)
    && forall c | c in pools :: pools[c] >= 0
  }

  /** On such a district `predict_circonscription` raises nothing. */
  lemma PredictableNoError(p: Parameters, details: CirconscriptionResult)
    requires details.WellFormed() && Predictable(p, details)
    ensures PredictionError(p, details).None?
  {
    hide Predictable, CirconscriptionResult.AvailableVotePoolsByParty, Dict.WellFormed;
    hide Normalize, NormalizedMatrix, MatrixToDict, TransferError, PoolsError, ValidPvals, DictOfMatrix, CoversOrder;
    var competing, pools := details.competingPartiesResults, details.AvailableVotePoolsByParty();
    var order := competing.keys;
    PredictableFacts(p, details);
    NormalizedOk(p, competing);
    var m := NormalizedMatrix(p, competing).value;
    NormalizeDict(p, competing);
    NormalizeUnitRange(p, competing);
    PoolStepsSucceed(MatrixToDict(m, order), m, order, pools);
    TransferErrorCases(p, details);
  }

  /** Sampled parameters have every weight in [0, 1] and the sources of the
      hyperparameters, so they predict every district the hyperparameters
      fully cover whose competing results hold all six categories and whose
      pools are non-negative. */
  lemma SampledPredictable(sampled: Parameters, hyper: Parameters, details: CirconscriptionResult)
    requires details.WellFormed() && SampledFrom(sampled, hyper)
    requires (forall c :: c in hyper) && forall c :: c in details.competingPartiesResults.vals
    requires var pools := details.AvailableVotePoolsByParty().vals; forall c | c in pools :: pools[c] >= 0
    ensures Predictable(sampled, details)
    ensures PredictionError(sampled, details).None?
  {
    hide PredictionError, CirconscriptionResult.AvailableVotePoolsByParty;
    assert forall c :: c in sampled;
    PredictableNoError(sampled, details);
  }

  lemma PredictableFacts(p: Parameters, details: CirconscriptionResult)
    requires details.WellFormed() && Predictable(p, details)
    ensures var competing, pools := details.competingPartiesResults, details.AvailableVotePoolsByParty();
      && pools.WellFormed()
      && (forall c :: c in competing.vals && c in competing.keys && c in p)
      && NonNegativeWeights(p)
      && forall c | c in pools.vals :: pools.vals[c] >= 0
  {
  }

  /** The parameters of a district with all six categories, read with a
      full set of sources, normalize. */
  lemma NormalizedOk(p: Parameters, competing: Dict<int>)
    requires competing.WellFormed() && (forall c :: c in competing.vals) && forall c :: c in p
    ensures NormalizedMatrix(p, competing).Ok?
    ensures Normalize(p, competing) == Ok(MatrixToDict(NormalizedMatrix(p, competing).value, competing.keys))
  {
    AllCategoriesSix(competing);
    assert !MissingSource(p, competing.keys);
  }

  /** With the normalized rows as probabilities, every pool step succeeds. */
  lemma PoolStepsSucceed(normalized: Parameters, m: Matrix, order: seq<Category>, pools: Dict<int>)
    requires IsSquare(m, |order|) && DictOfMatrix(normalized, m, order)
    requires forall i | 0 <= i < |order| :: ValidPvals(m[i])
    requires pools.WellFormed() && forall c | c in pools.vals :: pools.vals[c] >= 0 && c in order
    ensures CoversOrder(normalized, order)
    ensures PoolsError(normalized, order, pools.keys, pools.vals, |pools.keys|).None?
  {
    assert forall k | 0 <= k < |pools.keys| :: pools.keys[k] in pools.vals;
    hide ValidPvals, PoolsError, Dict.WellFormed;
    assert CoversOrder(normalized, order);
    forall k | 0 <= k < |pools.keys|
      ensures PoolError(normalized, order, pools.keys[k], pools.vals[pools.keys[k]]).None?
    {
      var pool := pools.keys[k];
      var i := LastIndex(order, pool);
      RowOfDict(normalized, m, order, i);
    }
    PoolsErrorNone(normalized, order, pools.keys, pools.vals, |pools.keys|);
  }

  /** The weights `normalized` gives source `order[i]`, in the order of
      `order`, are row `i` of the matrix. */
  lemma RowOfDict(normalized: Parameters, m: Matrix, order: seq<Category>, i: nat)
    requires IsSquare(m, |order|) && DictOfMatrix(normalized, m, order) && i < |order|
    ensures CoversOrder(normalized, order) && order[i] in normalized
    ensures Pvals(normalized, order, order[i]) == m[i]
  {
    var pv := Pvals(normalized, order, order[i]);
    forall j | 0 <= j < |order| ensures pv[j] == m[i][j] {
      assert normalized[order[i]][order[j]] == m[i][j];
    }
  }

  /** Conversely, a district predicted without error has all six categories
      among its competing results, parameters `to_matrix` can read, and
      non-negative pools. */
  lemma NoErrorPredictable(p: Parameters, details: CirconscriptionResult)
    requires details.WellFormed() && PredictionError(p, details).None?
    ensures forall c :: c in details.competingPartiesResults.vals
    ensures !MissingSource(p, details.competingPartiesResults.keys)
    ensures var pools := details.AvailableVotePoolsByParty().vals;
      forall c | c in pools :: pools[c] >= 0
  {
    var competing, pools := details.competingPartiesResults, details.AvailableVotePoolsByParty();
    assert TransferError(p, details).None? && NormalizedMatrix(p, competing).Ok?;
    hide PredictionError, NormalizedMatrix, MatrixToDict, CirconscriptionResult.AvailableVotePoolsByParty;
    TransferErrorCases(p, details);
    hide TransferError;
    PoolStepsNonNegative(MatrixToDict(NormalizedMatrix(p, competing).value, competing.keys), competing.keys, pools);
  }

  /** When every pool step succeeds, every pool is non-negative. */
  lemma PoolStepsNonNegative(normalized: Parameters, order: seq<Category>, pools: Dict<int>)
    requires CoversOrder(normalized, order) && pools.WellFormed()
    requires PoolsError(normalized, order, pools.keys, pools.vals, |pools.keys|).None?
    ensures forall c | c in pools.vals :: pools.vals[c] >= 0
  {
    PoolsErrorNone(normalized, order, pools.keys, pools.vals, |pools.keys|);
    forall c | c in pools.vals ensures pools.vals[c] >= 0 {
      var k :| 0 <= k < |pools.keys| && pools.keys[k] == c;
      assert PoolError(normalized, order, c, pools.vals[c]).None?;
    }
  }

  // ------------------------------------------------------------ the whole country

  /** Every prediction of a successful `predict_all_circonscriptions` has a
      winner, so `agregate_by_party` can count its seats. */
  lemma PredictionsHaveWinners(p: Parameters, all: seq<CirconscriptionResult>, preds: seq<CirconscriptionPrediction>)
    requires forall i | 0 <= i < |all| :: all[i].WellFormed()
    requires |preds| == |all| && forall i | 0 <= i < |all| :: IsPredictionFor(p, all[i], preds[i])
    ensures forall i | 0 <= i < |preds| :: preds[i].HasCandidate()
    ensures forall i | 0 <= i < |preds| :: preds[i].circonscription == all[i].circonscription
  {
    forall i | 0 <= i < |preds|
      ensures preds[i].HasCandidate() && preds[i].circonscription == all[i].circonscription
    {
      PredictionShape(p, all[i], preds[i]);
    }
  }
}
