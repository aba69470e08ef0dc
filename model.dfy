/** `StatisticalModel`: sampling the second-round vote transfers of a district
    and adding them to its first-round results. */
module Model {
  import opened Categories
  import opened Dicts
  import opened Wrappers
  import opened Draws
  import opened Circonscriptions
  import opened TransferParameters

  /** `transfers[pool][target]`: the votes a pool sends to a target. */
  type Transfers = map<Category, map<Category, int>>

  // ------------------------------------------- sample_transfers_in_circonscription

  /** Every source of `normalized` has a weight for every category of `order`. */
  predicate CoversOrder(normalized: Parameters, order: seq<Category>) {
    forall a, j | a in normalized && 0 <= j < |order| :: order[j] in normalized[a]
  }

  /** `list(normalized[pool].values())`, whose keys are `order`. */
  function Pvals(normalized: Parameters, order: seq<Category>, pool: Category): (pvals: seq<real>)
    requires pool in normalized && CoversOrder(normalized, order)
    ensures |pvals| == |order|
    ensures forall j | 0 <= j < |order| :: pvals[j] == normalized[pool][order[j]]
  {
    seq(|order|, j requires 0 <= j < |order| => normalized[pool][order[j]])
  }

  /** The failure of the step for one pool: looking the pool up among the
      district's sources raises KeyError; `np.random.multinomial` raises
      ValueError for a negative pool or invalid probabilities. */
  function PoolError(normalized: Parameters, order: seq<Category>, pool: Category, votes: int): Option<Exception>
    requires CoversOrder(normalized, order)
  {
    if pool !in normalized then Some(KeyError)
    else if votes < 0 || !ValidPvals(Pvals(normalized, order, pool)) then Some(ValueError)
    else None
  }

  /** The first failure among the first `n` pools of `keys`, visited in order. */
  function PoolsError(normalized: Parameters, order: seq<Category>, keys: seq<Category>, pools: map<Category, int>, n: nat): Option<Exception>
    requires CoversOrder(normalized, order)
    requires n <= |keys| && forall k | 0 <= k < |keys| :: keys[k] in pools
  {
    if n == 0 then None
    else
      var before := PoolsError(normalized, order, keys, pools, n - 1);
      if before.Some? then before else PoolError(normalized, order, keys[n - 1], pools[keys[n - 1]])
  }

  /** Once a pool fails, later pools do not change the outcome. */
  lemma {:induction false} PoolsErrorPrefix(normalized: Parameters, order: seq<Category>, keys: seq<Category>, pools: map<Category, int>, i: nat, n: nat)
    requires CoversOrder(normalized, order)
    requires forall k | 0 <= k < |keys| :: keys[k] in pools
    requires i <= n <= |keys| && PoolsError(normalized, order, keys, pools, i).Some?
    ensures PoolsError(normalized, order, keys, pools, n) == PoolsError(normalized, order, keys, pools, i)
    decreases n
  {
    if i < n {
      PoolsErrorPrefix(normalized, order, keys, pools, i, n - 1);
    }
  }

  /** What `sample_transfers_in_circonscription` raises, if anything. */
  function TransferError(p: Parameters, details: CirconscriptionResult): Option<Exception>
    requires details.WellFormed()
  {
    var competing := details.competingPartiesResults;
    match NormalizedMatrix(p, competing)
    case Err(e) => Some(e)
    case Ok(m) =>
      NormalizeDict(p, competing);
      var pools := details.AvailableVotePoolsByParty();
      PoolsError(MatrixToDict(m, competing.keys), competing.keys, pools.keys, pools.vals, |pools.keys|)
  }

  /** `sample_transfers_in_circonscription` fails where `normalize` does,
      and otherwise at the first pool whose step fails. */
  lemma TransferErrorCases(p: Parameters, details: CirconscriptionResult)
    requires details.WellFormed()
    ensures var competing := details.competingPartiesResults;
      NormalizedMatrix(p, competing).Err? ==> TransferError(p, details) == Some(NormalizedMatrix(p, competing).error)
    ensures var competing, pools := details.competingPartiesResults, details.AvailableVotePoolsByParty();
      NormalizedMatrix(p, competing).Ok? ==>
        var normalized := MatrixToDict(NormalizedMatrix(p, competing).value, competing.keys);
        && Normalize(p, competing) == Ok(normalized)
        && CoversOrder(normalized, competing.keys)
        && TransferError(p, details) == PoolsError(normalized, competing.keys, pools.keys, pools.vals, |pools.keys|)
  {
    if NormalizedMatrix(p, details.competingPartiesResults).Ok? {
      NormalizeDict(p, details.competingPartiesResults);
    }
  }

  /** One pool's split: one non-negative count per competing category,
      summing to the pool, and within the support of the multinomial draw
      whose probabilities are `pvals`. */
  predicate ValidSplit(split: map<Category, int>, order: seq<Category>, votes: int, pvals: seq<real>) {
    var last := |order| - 1;
    && split.Keys == (set b | b in order)
    && (forall b | b in split :: split[b] >= 0)
    && Total(split) == votes
    && |pvals| == |order| > 0
    && (forall j | 0 <= j < last :: pvals[j] == 0.0 ==> Get(split, order[j]) == 0)
    && (SumReals(pvals[..last]) == 1.0 ==> Get(split, order[last]) == 0)
  }

  /** The transfers split each available pool, and only those, among the
      district's competing categories, each by a multinomial draw whose
      probabilities are the pool's row of the normalized parameters. */
  ghost predicate ValidTransfers(p: Parameters, t: Transfers, details: CirconscriptionResult)
    requires details.WellFormed()
  {
    var competing, pools := details.competingPartiesResults, details.AvailableVotePoolsByParty();
    var normalized := Normalize(p, competing);
    && normalized.Ok? && CoversOrder(normalized.value, competing.keys)
    && t.Keys == pools.vals.Keys
    && forall e | e in t ::
         && e in normalized.value
         && ValidSplit(t[e], competing.keys, pools.vals[e], Pvals(normalized.value, competing.keys, e))
  }

  /** Splits of every pool, each within the support of its row of the
      normalized parameters, are valid transfers. */
  lemma SplitsAreValidTransfers(p: Parameters, details: CirconscriptionResult, t: Transfers)
    requires details.WellFormed() && NormalizedMatrix(p, details.competingPartiesResults).Ok?
    requires var competing, pools := details.competingPartiesResults, details.AvailableVotePoolsByParty();
      var normalized := MatrixToDict(NormalizedMatrix(p, competing).value, competing.keys);
      && t.Keys == Elements(pools.keys, |pools.keys|)
      && forall e | e in t ::
           && e in pools.vals && e in normalized && CoversOrder(normalized, competing.keys)
           && ValidSplit(t[e], competing.keys, pools.vals[e], Pvals(normalized, competing.keys, e))
    ensures ValidTransfers(p, t, details)
  {
    hide ValidSplit, Pvals, NormalizedMatrix, MatrixToDict, TransferError, CirconscriptionResult.AvailableVotePoolsByParty;
    var competing, pools := details.competingPartiesResults, details.AvailableVotePoolsByParty();
    TransferErrorCases(p, details);
    ElementsAll(pools.keys);
    assert pools.WellFormed();
  }

  // --------------------------------------------------------- predict_circonscription

  /** `{source: transfers[source].get(target, 0)}`: what each pool sends to `target`. */
  function Column(t: Transfers, target: Category): (col: map<Category, int>)
    ensures col.Keys == t.Keys
  {
    map s | s in t :: Get(t[s], target)
  }

  /** `agregated_vote_transfers[target]`. */
  function Inflow(t: Transfers, target: Category): int {
    Total(Column(t, target))
  }

  /** The prediction `predict_circonscription` builds from the sampled
      transfers: for each of the six categories, its first-round votes plus
      what it receives; a KeyError when a category has no first-round entry. */
  function Combine(details: CirconscriptionResult, t: Transfers): (r: Result<CirconscriptionPrediction>)
  {
    var firstRound := details.competingPartiesResults.vals;
    if exists c :: c !in firstRound then Err(KeyError)
    else
      Ok(CirconscriptionPrediction(details.circonscription,
           Dict(SecondRoundParties, map c | c in SecondRoundParties :: firstRound[c] + Inflow(t, c))))
  }

  /** What `predict_circonscription` raises, if anything. */
  function PredictionError(p: Parameters, details: CirconscriptionResult): Option<Exception>
    requires details.WellFormed()
  {
    match TransferError(p, details)
    case Some(e) => Some(e)
    case None =>
      if exists c :: c !in details.competingPartiesResults.vals then Some(KeyError) else None
  }

  /** `pred` is one of the predictions the model can make for `details`. */
  ghost predicate IsPredictionFor(p: Parameters, details: CirconscriptionResult, pred: CirconscriptionPrediction)
    requires details.WellFormed()
  {
    exists t :: ValidTransfers(p, t, details) && Combine(details, t) == Ok(pred)
  }

  // ------------------------------------------------------------- StatisticalModel

  class StatisticalModel {
    const hyperparameters: Parameters
    const variance: real
    const fixedParameters: bool
    /** The parameters the model predicts with, set once at construction. */
    const parameters: Parameters

    /** `StatisticalModel(hyperparameters, variance, fixed_parameters)` and
        its `__post_init__`: keep the hyperparameters, or sample a copy. */
    constructor (hyperparameters: Parameters, variance: real := 0.2, fixedParameters: bool := false)
      requires fixedParameters || variance > 0.0
      ensures this.hyperparameters == hyperparameters
      ensures this.variance == variance && this.fixedParameters == fixedParameters
      ensures fixedParameters ==> parameters == hyperparameters
      ensures !fixedParameters ==> SampledFrom(parameters, hyperparameters)
    {
      this.hyperparameters := hyperparameters;
      this.variance := variance;
      this.fixedParameters := fixedParameters;
      if !fixedParameters {
        var sampled := SampleFromTruncatedGaussian(hyperparameters, variance);
        this.parameters := sampled;
      } else {
        this.parameters := hyperparameters;
      }
    }

    /** `sample_transfers_in_circonscription`: one multinomial split of each
        available pool among the district's competing categories. */
    method SampleTransfersInCirconscription(details: CirconscriptionResult) returns (r: Result<Transfers>)
      requires details.WellFormed()
      ensures r.Err? <==> TransferError(parameters, details).Some?
      ensures r.Err? ==> r.error == TransferError(parameters, details).value
      ensures r.Ok? ==> ValidTransfers(parameters, r.value, details)
    {
      hide NormalizedMatrix, MatrixToDict, PoolsError, ValidSplit, CirconscriptionResult.AvailableVotePoolsByParty, Pvals, Total;
      hide TransferError, ValidTransfers, Normalize, CoversOrder;
      var competing := details.competingPartiesResults;
      var order := competing.keys;
      TransferErrorCases(parameters, details);
      var normalizedMatrix := NormalizedMatrix(parameters, competing);
      if normalizedMatrix.Err? {
        return Err(normalizedMatrix.error);
      }
      var normalized := MatrixToDict(normalizedMatrix.value, order);
      var pools := details.AvailableVotePoolsByParty();
      r := SplitPools(normalized, order, pools.keys, pools.vals);
      if r.Ok? {
        SplitsAreValidTransfers(parameters, details, r.value);
      }
    }

    /** `predict_circonscription`: the district's second-round results. */
    method PredictCirconscription(details: CirconscriptionResult) returns (r: Result<CirconscriptionPrediction>)
      requires details.WellFormed()
      ensures r.Err? <==> PredictionError(parameters, details).Some?
      ensures r.Err? ==> r.error == PredictionError(parameters, details).value
      ensures r.Ok? ==> IsPredictionFor(parameters, details, r.value)
    {
      hide TransferError, ValidTransfers, Inflow;
      var transfers := SampleTransfersInCirconscription(details);
      if transfers.Err? {
        return Err(transfers.error);
      }
      r := Combine(details, transfers.value);
    }

    /** `predict_all_circonscriptions`: one prediction per district, in order;
        the first district that fails makes the whole call fail with its error. */
    method PredictAllCirconscriptions(all: seq<CirconscriptionResult>) returns (r: Result<seq<CirconscriptionPrediction>>)
      requires forall i | 0 <= i < |all| :: all[i].WellFormed()
      ensures r.Ok? ==> |r.value| == |all|
      ensures r.Ok? ==> forall k | 0 <= k < |all| ::
                          PredictionError(parameters, all[k]).None? && IsPredictionFor(parameters, all[k], r.value[k])
      ensures r.Err? ==> exists i | 0 <= i < |all| ::
                           && PredictionError(parameters, all[i]) == Some(r.error)
                           && forall k | 0 <= k < i :: PredictionError(parameters, all[k]).None?
    {
      hide PredictionError, IsPredictionFor;
      var predictions: seq<CirconscriptionPrediction> := [];
      for i := 0 to |all|
        invariant |predictions| == i
        invariant forall k | 0 <= k < i ::
                    PredictionError(parameters, all[k]).None? && IsPredictionFor(parameters, all[k], predictions[k])
      {
        var prediction := PredictCirconscription(all[i]);
        if prediction.Err? {
          return Err(prediction.error);
        }
        predictions := predictions + [prediction.value];
      }
      return Ok(predictions);
    }
  }

  /** The loop of `sample_transfers_in_circonscription`: each pool of `keys`,
      in order, split among `order` by one multinomial draw with the pool's
      row of `normalized` as probabilities. */
  method SplitPools(normalized: Parameters, order: seq<Category>, keys: seq<Category>, pools: map<Category, int>)
    returns (r: Result<Transfers>)
    requires Distinct(order) && CoversOrder(normalized, order)
    requires forall k | 0 <= k < |keys| :: keys[k] in pools
    ensures r.Err? <==> PoolsError(normalized, order, keys, pools, |keys|).Some?
    ensures r.Err? ==> r.error == PoolsError(normalized, order, keys, pools, |keys|).value
    ensures r.Ok? ==> && r.value.Keys == Elements(keys, |keys|)
                      && forall e | e in r.value ::
                           e in pools && e in normalized && ValidSplit(r.value[e], order, pools[e], Pvals(normalized, order, e))
  {
    hide Distinct, CoversOrder, PoolError, ValidSplit;
    var transfers: Transfers := map[];
    for i := 0 to |keys|
      invariant PoolsError(normalized, order, keys, pools, i).None?
      invariant transfers.Keys == Elements(keys, i)
      invariant forall e | e in transfers ::
                  e in pools && e in normalized && ValidSplit(transfers[e], order, pools[e], Pvals(normalized, order, e))
    {
      var pool := keys[i];
      var split := SplitPool(normalized, order, pool, pools[pool]);
      if split.Err? {
        PoolsErrorPrefix(normalized, order, keys, pools, i + 1, |keys|);
        return Err(split.error);
      }
      transfers := transfers[pool := split.value];
    }
    return Ok(transfers);
  }

  /** One step of that loop: `{target_parties[i]: n for i, n in
      enumerate(np.random.multinomial(votes, pvals))}` for one pool. */
  method SplitPool(normalized: Parameters, order: seq<Category>, pool: Category, votes: int)
    returns (r: Result<map<Category, int>>)
    requires Distinct(order) && CoversOrder(normalized, order)
    ensures r.Err? <==> PoolError(normalized, order, pool, votes).Some?
    ensures r.Err? ==> r.error == PoolError(normalized, order, pool, votes).value
    ensures r.Ok? ==> pool in normalized && ValidSplit(r.value, order, votes, Pvals(normalized, order, pool))
  {
    hide ValidSplit, Zip;
    if pool !in normalized {
      return Err(KeyError);
    }
    var pvals := Pvals(normalized, order, pool);
    if votes < 0 || !ValidPvals(pvals) {
      return Err(ValueError);
    }
    var counts := Multinomial(votes, pvals);
    SplitOfCounts(order, counts, votes, pvals);
    return Ok(Zip(order, counts).vals);
  }

  /** The split built from a multinomial draw is a valid split of the pool. */
  lemma SplitOfCounts(order: seq<Category>, counts: seq<int>, votes: int, pvals: seq<real>)
    requires Distinct(order) && |counts| == |order| == |pvals| > 0
    requires forall j | 0 <= j < |counts| :: counts[j] >= 0
    requires SumInts(counts) == votes && InSupport(counts, pvals)
    ensures ValidSplit(Zip(order, counts).vals, order, votes, pvals)
  {
    var d := Zip(order, counts);
    assert counts[..|order|] == counts;
    TotalOfDict(d);
    assert forall j | 0 <= j < |order| :: Get(d.vals, order[j]) == counts[j];
  }
}
