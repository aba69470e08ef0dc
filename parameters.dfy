/** `StatisticalModelParameters`: the nested dict of transfer propensities,
    its dense matrix form, its adaptation to one district, and its random
    perturbation. */
module TransferParameters {
  import opened Categories
  import opened Dicts
  import opened Wrappers
  import opened Draws

  /** `parameters[source][target]`: the share of the votes of `source` that
      would go to `target` in the second round. */
  type Parameters = map<Category, map<Category, real>>

  /** A numpy matrix, row by row. */
  type Matrix = seq<seq<real>>

  predicate IsSquare(m: Matrix, n: nat) {
    |m| == n && forall i | 0 <= i < n :: |m[i]| == n
  }

  /** `parameters[source].get(target, 0)`. */
  function Weight(p: Parameters, source: Category, target: Category): real
    requires source in p
  {
    if target in p[source] then p[source][target] else 0.0
  }

  // ---------------------------------------------------------------- to_matrix

  /** `to_matrix` looks a source up only for the cells off the diagonal, so
      it fails exactly when some category of `order` is not a key of
      `parameters` and `order` holds two different categories (see
      `MissingSourceOffDiagonal`). */
  predicate MissingSource(p: Parameters, order: seq<Category>) {
    (exists i | 0 <= i < |order| :: order[i] !in p) && !AllSame(order)
  }

  /** Every element of `order` is its first one. */
  predicate AllSame(order: seq<Category>) {
    forall j | 0 <= j < |order| :: order[j] == order[0]
  }

  /** `MissingSource` holds exactly when an off-diagonal cell has an absent source. */
  lemma MissingSourceOffDiagonal(p: Parameters, order: seq<Category>)
    ensures MissingSource(p, order) <==>
      exists i, j | 0 <= i < |order| && 0 <= j < |order| :: order[i] != order[j] && order[i] !in p
  {
    if MissingSource(p, order) {
      var i :| 0 <= i < |order| && order[i] !in p;
      var j :| 0 <= j < |order| && order[j] != order[0];
      var k := if order[i] == order[j] then 0 else j;
      assert order[i] != order[k] && order[i] !in p;
    }
  }

  function Cell(p: Parameters, order: seq<Category>, i: nat, j: nat): real
    requires i < |order| && j < |order| && !MissingSource(p, order)
  {
    if order[i] == order[j] then 0.0 else Weight(p, order[i], order[j])
  }

  /** `to_matrix(order)`: the |order| x |order| matrix whose cell (i, j) is the
      weight from `order[i]` to `order[j]`, 0 for an absent target and 0 on
      the diagonal; a KeyError when an off-diagonal source is absent. */
  function ToMatrix(p: Parameters, order: seq<Category>): (r: Result<Matrix>)
    ensures r.Err? <==> MissingSource(p, order)
    ensures r.Err? ==> r.error == KeyError
    ensures r.Ok? ==> IsSquare(r.value, |order|)
    ensures r.Ok? ==> forall i, j | 0 <= i < |order| && 0 <= j < |order| ::
                        if order[i] == order[j] then r.value[i][j] == 0.0
                        else order[i] in p && r.value[i][j] == Weight(p, order[i], order[j])
  {
    if MissingSource(p, order) then Err(KeyError)
    else
      Ok(seq(|order|, i requires 0 <= i < |order| =>
           seq(|order|, j requires 0 <= j < |order| => Cell(p, order, i, j))))
  }

  /** With the default order, which lists all six categories once,
      `to_matrix()` fails exactly when some category is not a source. */
  lemma ToMatrixDefaultOrder(p: Parameters)
    ensures ToMatrix(p, DefaultOrder).Err? <==> exists c :: c !in p
    ensures ToMatrix(p, DefaultOrder).Ok? ==> IsSquare(ToMatrix(p, DefaultOrder).value, 6)
  {
    CategoriesWellDefined();
    if c :| c !in p {
      var i := LastIndex(DefaultOrder, c);
      var j := if i == 0 then 1 else 0;
      assert DefaultOrder[i] != DefaultOrder[j] && DefaultOrder[i] !in p;
    }
  }

  // ------------------------------------------------------------------ to_dict

  /** `{order[j]: row[j] for j in ...}`: a later duplicate overwrites an earlier one. */
  function RowToDict(row: seq<real>, order: seq<Category>): (d: map<Category, real>)
    requires |order| <= |row|
    ensures d.Keys == set b | b in order
  {
    map b | b in order :: row[LastIndex(order, b)]
  }

  predicate RowsCover(m: Matrix, rows: nat, cols: nat) {
    rows <= |m| && forall i | 0 <= i < rows :: cols <= |m[i]|
  }

  /** The dict `to_dict` has built once it has visited the sources in `keys`. */
  function RowsToDict(m: Matrix, keys: seq<Category>, order: seq<Category>): (d: Parameters)
    requires RowsCover(m, |keys|, |order|)
    ensures d.Keys == set a | a in keys
  {
    map a | a in keys :: RowToDict(m[LastIndex(keys, a)], order)
  }

  /** What `to_dict(m, order)` returns. */
  function MatrixToDict(m: Matrix, order: seq<Category>): (d: Parameters)
    requires RowsCover(m, |order|, |order|)
    ensures d.Keys == set a | a in order
    ensures forall a | a in d :: d[a].Keys == set b | b in order
  {
    RowsToDict(m, order, order)
  }

  lemma LastIndexSnoc(s: seq<Category>, x: Category, c: Category)
    requires c in s + [x]
    ensures LastIndex(s + [x], c) == if c == x then |s| else LastIndex(s, c)
  {
    assert (s + [x])[..|s|] == s;
  }

  lemma RowsToDictStep(m: Matrix, order: seq<Category>, i: nat)
    requires i < |order| && RowsCover(m, |order|, |order|)
    ensures RowsToDict(m, order[..i + 1], order)
         == RowsToDict(m, order[..i], order)[order[i] := RowToDict(m[i], order)]
  {
    assert order[..i + 1] == order[..i] + [order[i]];
    forall a | a in order[..i + 1] {
      LastIndexSnoc(order[..i], order[i], a);
    }
  }

  /** `to_dict(parameters_matrix, order)`: row `i` of the matrix becomes the
      dict of source `order[i]`, keyed by `order`. */
  method ToDict(m: Matrix, order: seq<Category>) returns (p: Parameters)
    requires RowsCover(m, |order|, |order|)
    ensures p == MatrixToDict(m, order)
  {
    p := map[];
    for i := 0 to |order|
      invariant p == RowsToDict(m, order[..i], order)
    {
      RowsToDictStep(m, order, i);
      p := p[order[i] := RowToDict(m[i], order)];
    }
    assert order[..|order|] == order;
  }

  /** Round trip: `to_dict(to_matrix(order), order)` is keyed by `order` at
      both levels, and holds the stored weight (0 when absent) off the
      diagonal and 0 on it. */
  lemma {:induction false} ToMatrixToDict(p: Parameters, order: seq<Category>)
    requires !MissingSource(p, order)
    ensures var d := MatrixToDict(ToMatrix(p, order).value, order);
      && d.Keys == (set a | a in order)
      && (forall a | a in d :: d[a].Keys == set b | b in order)
      && (forall a, b | a in d && b in d[a] ::
            if a == b then d[a][b] == 0.0 else a in p && d[a][b] == Weight(p, a, b))
  {
    var m := ToMatrix(p, order).value;
    var d := MatrixToDict(m, order);
    forall a, b | a in d && b in d[a]
      ensures if a == b then d[a][b] == 0.0 else a in p && d[a][b] == Weight(p, a, b)
    {
      var i, j := LastIndex(order, a), LastIndex(order, b);
      assert d[a][b] == m[i][j];
    }
  }

  // ---------------------------------------------------------------- normalize

  /** `second_round_mask`: 1 where the district's competing count is
      positive, and 1 in the last slot (abstention) whatever its count. */
  function Mask(counts: seq<int>): (mask: seq<int>)
    requires |counts| > 0
    ensures |mask| == |counts|
    ensures forall j | 0 <= j < |mask| :: mask[j] == 0 || mask[j] == 1
    ensures forall j | 0 <= j < |mask| :: mask[j] == 1 <==> j == |counts| - 1 || counts[j] > 0
  {
    seq(|counts|, j requires 0 <= j < |counts| =>
      if j == |counts| - 1 || counts[j] > 0 then 1 else 0)
  }

  /** `(1 - full_binary_mask.T) * m * full_binary_mask`: row `i` is kept only
      when `mask[i]` is 0, column `j` only when `mask[j]` is 1. */
  function ApplyMask(m: Matrix, mask: seq<int>): (r: Matrix)
    requires IsSquare(m, |mask|)
    ensures IsSquare(r, |mask|)
    ensures forall i, j | 0 <= i < |mask| && 0 <= j < |mask| && (mask[i] == 1 || mask[j] == 0) :: r[i][j] == 0.0
    ensures forall i, j | 0 <= i < |mask| && 0 <= j < |mask| && mask[i] == 0 && mask[j] == 1 :: r[i][j] == m[i][j]
  {
    seq(|mask|, i requires 0 <= i < |mask| =>
      seq(|mask|, j requires 0 <= j < |mask| =>
        (1 - mask[i]) as real * m[i][j] * mask[j] as real))
  }

  function Divided(row: seq<real>, d: real): (r: seq<real>)
    requires d != 0.0
    ensures |r| == |row| && forall j | 0 <= j < |row| :: r[j] == row[j] / d
  {
    seq(|row|, j requires 0 <= j < |row| => row[j] / d)
  }

  function ZeroRow(n: nat): (r: seq<real>)
    ensures |r| == n && forall j | 0 <= j < n :: r[j] == 0.0
  {
    seq(n, _ => 0.0)
  }

  /** `np.nan_to_num(row / row.sum(), 0)` in exact arithmetic: a row summing
      to 0 gives 0/0 everywhere, which becomes 0. */
  function RowNormalize(row: seq<real>): (r: seq<real>)
    ensures |r| == |row|
  {
    var total := SumReals(row);
    if total == 0.0 then ZeroRow(|row|) else Divided(row, total)
  }

  /** `parameters_for_circo`: the district's matrix with its masked rows and
      columns set to 0. */
  function MaskedMatrix(p: Parameters, competing: Dict<int>): (r: Matrix)
    requires competing.WellFormed() && |competing.keys| > 0 && !MissingSource(p, competing.keys)
    ensures IsSquare(r, |competing.keys|)
  {
    ApplyMask(ToMatrix(p, competing.keys).value, Mask(competing.Values()))
  }

  /** The matrix `normalize` hands to `to_dict`, for a district whose
      competing results are `competing`. With no competing entry,
      `second_round_mask[-1]` raises IndexError; `to_matrix` may raise
      KeyError; numpy cannot broadcast the n x n matrix against the 6 x n
      mask unless n is 1 or 6, and raises ValueError. */
  function NormalizedMatrix(p: Parameters, competing: Dict<int>): (r: Result<Matrix>)
    requires competing.WellFormed()
    ensures r.Ok? ==> |competing.keys| > 0 && !MissingSource(p, competing.keys)
    ensures r.Ok? ==> IsSquare(r.value, |competing.keys|)
    ensures r.Ok? ==> forall i | 0 <= i < |competing.keys| ::
                        r.value[i] == RowNormalize(MaskedMatrix(p, competing)[i])
  {
    var order := competing.keys;
    if |order| == 0 then Err(IndexError)
    else match ToMatrix(p, order)
      case Err(e) => Err(e)
      case Ok(_) =>
        if |order| != 1 && |order| != 6 then Err(ValueError)
        else
          var masked := MaskedMatrix(p, competing);
          Ok(seq(|order|, i requires 0 <= i < |order| => RowNormalize(masked[i])))
  }

  /** `normalize(district_result)`: the district's parameters, keyed at both
      levels by its competing categories. */
  function Normalize(p: Parameters, competing: Dict<int>): (r: Result<Parameters>)
    requires competing.WellFormed()
    ensures r.Ok? <==> NormalizedMatrix(p, competing).Ok?
    ensures r.Ok? ==> && r.value.Keys == (set a | a in competing.keys)
                      && forall a | a in r.value :: r.value[a].Keys == set b | b in competing.keys
  {
    match NormalizedMatrix(p, competing)
    case Err(e) => Err(e)
    case Ok(m) => Ok(MatrixToDict(m, competing.keys))
  }

  /** The failures of `normalize`, in the order they are raised. */
  lemma NormalizeErrors(p: Parameters, competing: Dict<int>)
    requires competing.WellFormed()
    ensures var n := |competing.keys|;
      && (Normalize(p, competing).Err? <==> n == 0 || MissingSource(p, competing.keys) || (n != 1 && n != 6))
      && (n == 0 ==> Normalize(p, competing) == Err(IndexError))
      && (n > 0 && MissingSource(p, competing.keys) ==> Normalize(p, competing) == Err(KeyError))
      && (n > 0 && !MissingSource(p, competing.keys) && n != 1 && n != 6 ==> Normalize(p, competing) == Err(ValueError))
  {
  }

  /** A masked cell: the row of a category with a positive competing count
      (or of the last, abstention, slot) is 0, and so is the column of a
      category with no positive count (except the last column). */
  predicate MaskedOut(competing: Dict<int>, i: nat, j: nat)
    requires competing.WellFormed() && i < |competing.keys| && j < |competing.keys|
  {
    var order, last := competing.keys, |competing.keys| - 1;
    || i == last || competing.vals[order[i]] > 0
    || (j != last && competing.vals[order[j]] <= 0)
  }

  lemma MaskedCells(p: Parameters, competing: Dict<int>, i: nat, j: nat)
    requires competing.WellFormed() && |competing.keys| > 0 && !MissingSource(p, competing.keys)
    requires i < |competing.keys| && j < |competing.keys|
    ensures MaskedOut(competing, i, j) ==> MaskedMatrix(p, competing)[i][j] == 0.0
    ensures !MaskedOut(competing, i, j) ==>
      MaskedMatrix(p, competing)[i][j] == ToMatrix(p, competing.keys).value[i][j]
  {
    hide Mask, ToMatrix, ApplyMask, MissingSource;
    var vs := competing.Values();
    var mask, m := Mask(vs), ToMatrix(p, competing.keys).value;
    assert mask[i] == 0 || mask[i] == 1;
    assert mask[j] == 0 || mask[j] == 1;
  }

  /** Masking in `normalize`: every masked cell of the normalized matrix is 0. */
  lemma NormalizeMasking(p: Parameters, competing: Dict<int>)
    requires competing.WellFormed() && NormalizedMatrix(p, competing).Ok?
    ensures var m, n := NormalizedMatrix(p, competing).value, |competing.keys|;
      forall i, j | 0 <= i < n && 0 <= j < n && MaskedOut(competing, i, j) :: m[i][j] == 0.0
  {
    var m, n := NormalizedMatrix(p, competing).value, |competing.keys|;
    var masked := MaskedMatrix(p, competing);
    forall i, j | 0 <= i < n && 0 <= j < n && MaskedOut(competing, i, j)
      ensures m[i][j] == 0.0
    {
      MaskedCells(p, competing, i, j);
      RowNormalizeZero(masked[i], j);
    }
  }

  /** Normalizing a row keeps its zeros. */
  lemma RowNormalizeZero(row: seq<real>, j: nat)
    requires j < |row| && row[j] == 0.0
    ensures RowNormalize(row)[j] == 0.0
  {
  }

  lemma {:induction false} SumRealsDivided(row: seq<real>, d: real)
    requires d != 0.0
    ensures SumReals(Divided(row, d)) == SumReals(row) / d
    decreases |row|
  {
    if row != [] {
      var init, last := row[..|row| - 1], row[|row| - 1];
      assert Divided(row, d)[..|row| - 1] == Divided(init, d);
      SumRealsDivided(init, d);
      QuotientOfSum(SumReals(init), last, d);
    }
  }

  lemma QuotientOfSum(a: real, b: real, d: real)
    requires d != 0.0
    ensures (a + b) / d == a / d + b / d
  {
  }

  predicate NonNegative(row: seq<real>) {
    forall j | 0 <= j < |row| :: row[j] >= 0.0
  }

  /** A sum of non-negative terms bounds each term and each prefix sum. */
  lemma {:induction false} SumRealsBounds(row: seq<real>)
    requires NonNegative(row)
    ensures SumReals(row) >= 0.0
    ensures forall j | 0 <= j < |row| :: row[j] <= SumReals(row)
    ensures forall k | 0 <= k <= |row| :: SumReals(row[..k]) <= SumReals(row)
    decreases |row|
  {
    if row != [] {
      var init := row[..|row| - 1];
      SumRealsBounds(init);
      forall k | 0 <= k <= |row| ensures SumReals(row[..k]) <= SumReals(row) {
        if k < |row| {
          assert row[..k] == init[..k];
        } else {
          assert row[..k] == row;
        }
      }
    }
  }

  /** Row normalization in `normalize`: a row whose masked sum is not 0 sums
      to exactly 1 and is the masked row divided by that sum; a row whose
      masked sum is 0 is all zeros. */
  lemma NormalizeRowSums(p: Parameters, competing: Dict<int>)
    requires competing.WellFormed() && NormalizedMatrix(p, competing).Ok?
    ensures var m, n := NormalizedMatrix(p, competing).value, |competing.keys|;
      forall i | 0 <= i < n ::
        var total := SumReals(MaskedMatrix(p, competing)[i]);
        && (total != 0.0 ==>
              && SumReals(m[i]) == 1.0
              && forall j | 0 <= j < n :: m[i][j] == MaskedMatrix(p, competing)[i][j] / total)
        && (total == 0.0 ==> forall j | 0 <= j < n :: m[i][j] == 0.0)
  {
    var m, n := NormalizedMatrix(p, competing).value, |competing.keys|;
    var masked := MaskedMatrix(p, competing);
    forall i | 0 <= i < n
      ensures SumReals(masked[i]) != 0.0 ==> SumReals(m[i]) == 1.0
    {
      assert m[i] == RowNormalize(masked[i]);
      RowNormalizeSum(masked[i]);
    }
  }

  /** All weights of `p` are non-negative. */
  predicate NonNegativeWeights(p: Parameters) {
    forall a, b | a in p && b in p[a] :: p[a][b] >= 0.0
  }

  lemma MaskedNonNegative(p: Parameters, competing: Dict<int>, i: nat)
    requires competing.WellFormed() && |competing.keys| > 0 && !MissingSource(p, competing.keys)
    requires NonNegativeWeights(p) && i < |competing.keys|
    ensures NonNegative(MaskedMatrix(p, competing)[i])
  {
    var masked := MaskedMatrix(p, competing);
    forall j | 0 <= j < |competing.keys| ensures masked[i][j] >= 0.0 {
      MaskedCells(p, competing, i, j);
    }
  }

  /** With non-negative weights every normalized entry lies in [0, 1], and
      each row is a valid `pvals` argument for `np.random.multinomial`. */
  lemma NormalizeUnitRange(p: Parameters, competing: Dict<int>)
    requires competing.WellFormed() && NormalizedMatrix(p, competing).Ok?
    requires NonNegativeWeights(p)
    ensures var m, n := NormalizedMatrix(p, competing).value, |competing.keys|;
      forall i | 0 <= i < n :: ValidPvals(m[i])
  {
    var m, n := NormalizedMatrix(p, competing).value, |competing.keys|;
    forall i | 0 <= i < n ensures ValidPvals(m[i]) {
      NormalizedRowValid(p, competing, i);
    }
  }

  lemma NormalizedRowValid(p: Parameters, competing: Dict<int>, i: nat)
    requires competing.WellFormed() && NormalizedMatrix(p, competing).Ok?
    requires NonNegativeWeights(p) && i < |competing.keys|
    ensures ValidPvals(NormalizedMatrix(p, competing).value[i])
  {
    var masked := MaskedMatrix(p, competing)[i];
    MaskedNonNegative(p, competing, i);
    RowNormalizeValid(masked);
  }

  lemma RowNormalizeSum(row: seq<real>)
    ensures SumReals(row) != 0.0 ==> SumReals(RowNormalize(row)) == 1.0
  {
    var total := SumReals(row);
    if total != 0.0 {
      SumRealsDivided(row, total);
      assert total / total == 1.0;
    }
  }

  lemma RowNormalizeValid(row: seq<real>)
    requires |row| > 0 && NonNegative(row)
    ensures ValidPvals(RowNormalize(row))
  {
    var n, total := |row|, SumReals(row);
    var r := RowNormalize(row);
    SumRealsBounds(row);
    if total == 0.0 {
      assert r[..n - 1] == ZeroRow(n - 1);
      ZeroRowSum(n - 1);
    } else {
      RowNormalizeSum(row);
      forall j | 0 <= j < n ensures 0.0 <= r[j] <= 1.0 {
        assert r[j] == row[j] / total;
        UnitQuotient(row[j], total);
      }
      SumRealsBounds(r);
    }
  }

  /** A share of a positive total lies in [0, 1]. */
  lemma UnitQuotient(x: real, total: real)
    requires 0.0 <= x <= total && total > 0.0
    ensures 0.0 <= x / total <= 1.0
  {
    var q := x / total;
    assert q * total == x;
    if q > 1.0 {
      ProductMonotone(q, 1.0, total);
    }
    if q < 0.0 {
      ProductMonotone(0.0, q, total);
    }
  }

  lemma ProductMonotone(a: real, b: real, t: real)
    requires a > b && t > 0.0
    ensures a * t > b * t
  {
    assert (a - b) * t > 0.0;
  }

  lemma {:induction false} ZeroRowSum(n: nat)
    ensures SumReals(ZeroRow(n)) == 0.0
  {
    if n > 0 {
      assert ZeroRow(n)[..n - 1] == ZeroRow(n - 1);
      ZeroRowSum(n - 1);
    }
  }

  /** `d` is keyed at both levels by `order`, and its entry for
      (order[i], order[j]) is cell (i, j) of `m`. */
  predicate DictOfMatrix(d: Parameters, m: Matrix, order: seq<Category>)
    requires IsSquare(m, |order|)
  {
    && d.Keys == (set a | a in order)
    && (forall a | a in d :: d[a].Keys == set b | b in order)
    && forall i, j | 0 <= i < |order| && 0 <= j < |order| ::
         order[i] in d && order[j] in d[order[i]] && d[order[i]][order[j]] == m[i][j]
  }

  /** With distinct keys, `to_dict` loses no cell of the matrix. */
  lemma MatrixToDictCells(m: Matrix, order: seq<Category>)
    requires Distinct(order) && IsSquare(m, |order|)
    ensures DictOfMatrix(MatrixToDict(m, order), m, order)
  {
    var d := MatrixToDict(m, order);
    forall i, j | 0 <= i < |order| && 0 <= j < |order|
      ensures order[i] in d && order[j] in d[order[i]] && d[order[i]][order[j]] == m[i][j]
    {
      LastIndexDistinct(order, i);
      LastIndexDistinct(order, j);
    }
  }

  /** The dict `normalize` returns, when it returns, is keyed at both levels by
      the district's competing categories, and its entry for (order[i],
      order[j]) is cell (i, j) of the normalized matrix. */
  lemma NormalizeDict(p: Parameters, competing: Dict<int>)
    requires competing.WellFormed() && NormalizedMatrix(p, competing).Ok?
    ensures Normalize(p, competing).Ok?
    ensures DictOfMatrix(Normalize(p, competing).value, NormalizedMatrix(p, competing).value, competing.keys)
  {
    MatrixToDictCells(NormalizedMatrix(p, competing).value, competing.keys);
  }

  // ------------------------------------------- _sample_from_truncated_gaussian

  /** `parameters` has the same sources as `hyper`, the same targets for each
      source, and every value in [0, 1]. */
  ghost predicate SampledFrom(parameters: Parameters, hyper: Parameters) {
    && parameters.Keys == hyper.Keys
    && forall s | s in parameters ::
         && parameters[s].Keys == hyper[s].Keys
         && forall t | t in parameters[s] :: 0.0 <= parameters[s][t] <= 1.0
  }

  /** `_sample_from_truncated_gaussian(hyperparameters, variance)`: each
      weight is replaced by one truncated-normal draw centred on it, of
      spread `variance`, truncated to [0, 1]. */
  method SampleFromTruncatedGaussian(hyper: Parameters, variance: real) returns (sampled: Parameters)
    requires variance > 0.0
    ensures SampledFrom(sampled, hyper)
  {
    sampled := map[];
    var sources := hyper.Keys;
    while sources != {}
      invariant sources <= hyper.Keys
      invariant sampled.Keys == hyper.Keys - sources
      invariant forall s | s in sampled ::
                  && sampled[s].Keys == hyper[s].Keys
                  && forall t | t in sampled[s] :: 0.0 <= sampled[s][t] <= 1.0
      decreases sources
    {
      var source :| source in sources;
      var otherParties := hyper[source];
      var sampledSource: map<Category, real> := map[];
      var targets := otherParties.Keys;
      while targets != {}
        invariant targets <= otherParties.Keys
        invariant sampledSource.Keys == otherParties.Keys - targets
        invariant forall t | t in sampledSource :: 0.0 <= sampledSource[t] <= 1.0
        decreases targets
      {
        var target :| target in targets;
        var x := TruncatedGaussian(otherParties[target], variance);
        sampledSource := sampledSource[target := x];
        targets := targets - {target};
      }
      sampled := sampled[source := sampledSource];
      sources := sources - {source};
    }
  }
}
