/** Districts, their first-round results, their predicted results, and seat counting. */
module Circonscriptions {
  import opened Categories
  import opened Dicts
  import opened Wrappers

  // ---------------------------------------------------------------------------
  // District identity

  datatype Circonscription = Circonscription(id: string, name: string) {

    /** An overseas district keeps a longer identifier. */
    predicate IsOverseas() {
      |id| > 4
    }
  }

  /** `str.isnumeric`, restricted to the ASCII digits. */
  predicate IsDigit(c: char) {
    '0' <= c <= '9'
  }

  function DigitValue(c: char): int
    requires IsDigit(c)
  {
    c as int - '0' as int
  }

  /** The ASCII characters Python's `int()` strips as whitespace. */
  predicate IsSpace(c: char) {
    c == ' ' || 9 <= c as int <= 13 || 28 <= c as int <= 31
  }

  /** Python's `int()` on the two-character string `[c0, c1]` whose second
      character is a digit: a digit, a sign or a blank may precede it. */
  function ParseTwoDigits(c0: char, c1: char): (r: Option<int>)
    requires IsDigit(c1)
    ensures IsDigit(c0) ==> r == Some(10 * DigitValue(c0) + DigitValue(c1))
    ensures r.Some? ==> -9 <= r.value <= 99
  {
    if IsDigit(c0) then Some(10 * DigitValue(c0) + DigitValue(c1))
    else if c0 == '+' || IsSpace(c0) then Some(DigitValue(c1))
    else if c0 == '-' then Some(-DigitValue(c1))
    else None
  }

  /** The rule of `init_from_insee`: the third character is a redundant '0'
      when the code is Corsican (a letter in second position) or starts with a
      department number of at most 95. */
  predicate DropsThirdCharacter(inseeId: string)
    requires |inseeId| >= 3
  {
    && inseeId[2] == '0'
    && (!IsDigit(inseeId[1])
        || var n := ParseTwoDigits(inseeId[0], inseeId[1]); n.Some? && n.value <= 95)
  }

  /** `Circonscription.init_from_insee`. Reading `insee_id[2]` fails on a code
      shorter than three characters, and `int(insee_id[:2])` fails when it is
      evaluated on a first character that is neither a digit, a sign nor a blank. */
  function InitFromInsee(inseeId: string, name: string): (r: Result<Circonscription>)
  {
    if |inseeId| < 3 then Err(IndexError)
    else if inseeId[2] != '0' || !IsDigit(inseeId[1]) then
      Ok(Circonscription(if inseeId[2] == '0' then inseeId[..2] + inseeId[3..] else inseeId, name))
    else
      match ParseTwoDigits(inseeId[0], inseeId[1])
      case None => Err(ValueError)
      case Some(department) =>
        Ok(Circonscription(if department <= 95 then inseeId[..2] + inseeId[3..] else inseeId, name))
  }

  /** When it succeeds, `init_from_insee` keeps the name, keeps the first two
      characters and everything after the third, and removes the third exactly
      under `DropsThirdCharacter`; it fails only on a short code or an
      unparsable department prefix. */
  lemma InitFromInseeSpec(inseeId: string, name: string)
    ensures var r := InitFromInsee(inseeId, name);
      && (r.Err? <==> |inseeId| < 3 || (inseeId[2] == '0' && IsDigit(inseeId[1])
                                        && ParseTwoDigits(inseeId[0], inseeId[1]).None?))
      && (r.Err? ==> r.error == (if |inseeId| < 3 then IndexError else ValueError))
      && (r.Ok? ==>
            var id := r.value.id;
            && r.value.name == name
            && (|id| == |inseeId| - 1 <==> DropsThirdCharacter(inseeId))
            && (|id| == |inseeId| <==> !DropsThirdCharacter(inseeId))
            && id[..2] == inseeId[..2]
            && id[|id| - (|inseeId| - 3)..] == inseeId[3..]
            && (!DropsThirdCharacter(inseeId) ==> id == inseeId))
  {
  }

  /** A five-character code of a department numbered at most 95 (or of
      Corsica) with a '0' sub-code gives a metropolitan four-character id;
      a code whose third character is not '0' stays overseas-length. */
  lemma InitFromInseeOverseas(inseeId: string, name: string)
    requires |inseeId| == 5
    requires InitFromInsee(inseeId, name).Ok?
    ensures InitFromInsee(inseeId, name).value.IsOverseas() <==> !DropsThirdCharacter(inseeId)
  {
  }

  lemma InitFromInseeExamples()
    ensures InitFromInsee("01001", "Ain 1") == Ok(Circonscription("0101", "Ain 1"))
    ensures InitFromInsee("2A002", "Corse-du-Sud 2") == Ok(Circonscription("2A02", "Corse-du-Sud 2"))
    ensures InitFromInsee("97101", "Guadeloupe 1") == Ok(Circonscription("97101", "Guadeloupe 1"))
    ensures InitFromInsee("ZZ", "") == Err(IndexError)
    ensures InitFromInsee("X5102", "") == Ok(Circonscription("X5102", ""))
    ensures InitFromInsee("X5012", "") == Err(ValueError)
  {
    assert "01001"[..2] + "01001"[3..] == "0101";
    assert "2A002"[..2] + "2A002"[3..] == "2A02";
  }

  // ---------------------------------------------------------------------------
  // First-round results

  datatype CirconscriptionResult = CirconscriptionResult(
    circonscription: Circonscription,
    competingPartiesResults: Dict<int>,
    eliminatedPartiesResults: Dict<int>,
    abstention: int)
  {
    ghost predicate WellFormed() {
      competingPartiesResults.WellFormed() && eliminatedPartiesResults.WellFormed()
    }

    /** `eliminated_parties_results | {"ABS": abstention}`: the vote pools to redistribute. */
    function AvailableVotePoolsByParty(): (pools: Dict<int>)
      requires eliminatedPartiesResults.WellFormed()
      ensures pools.WellFormed()
      ensures forall c :: c in pools.vals <==> c in eliminatedPartiesResults.vals || c == ABS
      ensures pools.vals[ABS] == abstention
      ensures forall c :: c in eliminatedPartiesResults.vals && c != ABS ==>
                pools.vals[c] == eliminatedPartiesResults.vals[c]
      ensures pools.keys == if ABS in eliminatedPartiesResults.vals
                            then eliminatedPartiesResults.keys
                            else eliminatedPartiesResults.keys + [ABS]
    {
      var abs := Dict([ABS], map[ABS := abstention]);
      assert KeysNotIn(abs.keys, eliminatedPartiesResults.vals.Keys)
             == if ABS in eliminatedPartiesResults.vals then [] else [ABS];
      Union(eliminatedPartiesResults, abs)
    }
  }

  /** The pools hold the eliminated votes (less any "ABS" entry they override) plus the abstentions. */
  lemma PoolsTotal(d: CirconscriptionResult)
    requires d.eliminatedPartiesResults.WellFormed()
    ensures Total(d.AvailableVotePoolsByParty().vals)
            == Total(d.eliminatedPartiesResults.vals) - Get(d.eliminatedPartiesResults.vals, ABS) + d.abstention
  {
    var e := d.eliminatedPartiesResults.vals;
    assert d.AvailableVotePoolsByParty().vals == e[ABS := d.abstention];
    TotalUpdate(e, ABS, d.abstention);
  }

  // ---------------------------------------------------------------------------
  // Predicted results and seats

  datatype CirconscriptionPrediction = CirconscriptionPrediction(
    circonscription: Circonscription,
    results: Dict<int>)
  {
    /** `get_winner` needs at least one entry other than "ABS" (numpy's argmax fails on none). */
    ghost predicate HasCandidate() {
      results.WellFormed() && exists c :: c in results.vals && c != ABS
    }

    /** `valid_winners`: the results without the abstention entry, in order. */
    function ValidWinners(): (v: Dict<int>)
      requires results.WellFormed()
      ensures v.WellFormed()
      ensures v.keys == KeysNotIn(results.keys, {ABS})
      ensures forall c :: c in v.vals <==> c in results.vals && c != ABS
      ensures forall c | c in v.vals :: v.vals[c] == results.vals[c]
    {
      Dict(KeysNotIn(results.keys, {ABS}), results.vals - {ABS})
    }

    /** `get_winner`: the entry with the most votes among those other than
        "ABS" (see `GetWinnerIsFirstMaximum`). */
    function GetWinner(): (w: Category)
      requires HasCandidate()
      ensures w in results.vals && w != ABS
    {
      var valid := ValidWinners();
      assert valid.keys != [] by {
        var c :| c in results.vals && c != ABS;
        assert c in valid.keys;
      }
      valid.keys[ArgMax(valid.Values())]
    }

    /** `get_seats`: the five families, one seat for the winner and none for
        the others, so one seat in all. */
    function GetSeats(): (seats: map<Category, int>)
      requires HasCandidate()
      ensures seats.Keys == FamilySet
      ensures forall c | c in FamilySet :: seats[c] == if c == GetWinner() then 1 else 0
      ensures Total(seats) == 1
    {
      SeatsOf(GetWinner())
    }
  }

  /** The seat map of a district won by `winner`: one seat in all when the
      winner is a family. */
  function SeatsOf(winner: Category): (seats: map<Category, int>)
    ensures seats.Keys == FamilySet
    ensures IsParty(winner) ==> Total(seats) == 1
  {
    map c | c in FamilySet :: if c == winner then 1 else 0
  }

  /** `np.argmax`: the first index holding the largest value. */
  function ArgMax(s: seq<int>): (k: nat)
    requires |s| > 0
    ensures k < |s|
    ensures forall j | 0 <= j < |s| :: s[j] <= s[k]
    ensures forall j | 0 <= j < k :: s[j] < s[k]
  {
    if |s| == 1 then 0
    else
      var k := ArgMax(s[..|s| - 1]);
      if s[|s| - 1] > s[k] then |s| - 1 else k
  }

  /** The winner has at least as many votes as every other non-abstention
      entry, and strictly more than every one that comes before it in the
      order of `results`: ties go to the first. */
  lemma GetWinnerIsFirstMaximum(p: CirconscriptionPrediction)
    requires p.HasCandidate()
    ensures var w := p.GetWinner();
      && (forall c :: c in p.results.vals && c != ABS ==> p.results.vals[c] <= p.results.vals[w])
      && (forall i, j | 0 <= i < j < |p.results.keys| && p.results.keys[j] == w && p.results.keys[i] != ABS ::
            p.results.vals[p.results.keys[i]] < p.results.vals[w])
  {
    var ks, valid := p.results.keys, p.ValidWinners();
    var vs := valid.Values();
    var k := ArgMax(vs);
    var w := valid.keys[k];
    assert w == p.GetWinner();
    forall c | c in p.results.vals && c != ABS
      ensures p.results.vals[c] <= p.results.vals[w]
    {
      assert c in valid.vals;
      var m :| 0 <= m < |valid.keys| && valid.keys[m] == c;
      assert vs[m] <= vs[k];
    }
    forall i, j | 0 <= i < j < |ks| && ks[j] == w && ks[i] != ABS
      ensures p.results.vals[ks[i]] < p.results.vals[w]
    {
      FirstMaximumBefore(p, k, i, j);
    }
  }

  lemma FirstMaximumBefore(p: CirconscriptionPrediction, k: nat, i: nat, j: nat)
    requires p.HasCandidate()
    requires var vs := p.ValidWinners().Values();
      && k < |vs|
      && (forall j | 0 <= j < k :: vs[j] < vs[k])
    requires var ks := p.results.keys;
      && i < j < |ks| && ks[j] == p.ValidWinners().keys[k] && ks[i] != ABS
    ensures p.results.vals[p.results.keys[i]] < p.results.vals[p.results.keys[j]]
  {
    var ks, valid := p.results.keys, p.ValidWinners();
    var vs := valid.Values();
    assert ks[j] != ABS;
    KeysNotInAt(ks, {ABS}, i);
    KeysNotInAt(ks, {ABS}, j);
    KeysNotInOrder(ks, {ABS}, i, j);
    var pi, pj := |KeysNotIn(ks[..i], {ABS})|, |KeysNotIn(ks[..j], {ABS})|;
    assert valid.keys[pj] == valid.keys[k];
    assert pj == k;
    assert vs[pi] < vs[k];
  }

  /** `Counter.update(m)`: each key of `m` is added to the counter, its count added to the current one. */
  function CounterUpdate(counter: map<Category, int>, m: map<Category, int>): (r: map<Category, int>)
    ensures r.Keys == counter.Keys + m.Keys
    ensures forall c :: c in r ==> r[c] == Get(counter, c) + Get(m, c)
    ensures Total(r) == Total(counter) + Total(m)
  {
    var r := map c | c in counter.Keys + m.Keys :: Get(counter, c) + Get(m, c);
    assert forall c :: Get(r, c) == Get(counter, c) + Get(m, c);
    r
  }

  /** The winner of each prediction, in order. */
  function Winners(preds: seq<CirconscriptionPrediction>): (ws: seq<Category>)
    requires forall i | 0 <= i < |preds| :: preds[i].HasCandidate()
    ensures |ws| == |preds|
    ensures forall i | 0 <= i < |preds| :: ws[i] == preds[i].GetWinner() && IsParty(ws[i])
  {
    seq(|preds|, i requires 0 <= i < |preds| && preds[i].HasCandidate() => preds[i].GetWinner())
  }

  /** The number of occurrences of `c` in `ws`. */
  function Count(ws: seq<Category>, c: Category): nat {
    if ws == [] then 0 else Count(ws[..|ws| - 1], c) + (if ws[|ws| - 1] == c then 1 else 0)
  }

  lemma CountStep(ws: seq<Category>, i: nat, c: Category)
    requires i < |ws|
    ensures Count(ws[..i + 1], c) == Count(ws[..i], c) + (if ws[i] == c then 1 else 0)
    ensures Count(ws[..0], c) == 0
  {
    assert ws[..i + 1][..i] == ws[..i];
  }

  /** A sequence of families has as many elements as the families' counts add up to. */
  lemma {:induction false} CountAddUp(ws: seq<Category>)
    requires forall i | 0 <= i < |ws| :: IsParty(ws[i])
    ensures Count(ws, NFP) + Count(ws, LR) + Count(ws, RN) + Count(ws, ENS) + Count(ws, DIV) == |ws|
    ensures Count(ws, ABS) == 0
  {
    if ws != [] {
      CountAddUp(ws[..|ws| - 1]);
    }
  }

  /** `countSeats` is the tally of the winners `ws`: one entry per family once
      there is a winner, each the number of times that family wins. */
  ghost predicate TallyOf(countSeats: map<Category, int>, ws: seq<Category>) {
    && countSeats.Keys == (if ws == [] then {} else FamilySet)
    && forall c :: c in countSeats ==> countSeats[c] == Count(ws, c)
  }

  /** One iteration of `agregate_by_party`: adding the seats of the `i`-th
      winner to the tally of the ones before it. */
  lemma TallyStep(countSeats: map<Category, int>, ws: seq<Category>, i: nat)
    requires i < |ws| && IsParty(ws[i])
    requires TallyOf(countSeats, ws[..i])
    ensures TallyOf(CounterUpdate(countSeats, SeatsOf(ws[i])), ws[..i + 1])
  {
    forall c | c in FamilySet
      ensures CounterUpdate(countSeats, SeatsOf(ws[i]))[c] == Count(ws[..i + 1], c)
    {
      CountStep(ws, i, c);
    }
  }

  /** `agregate_by_party`: for each family, the number of predictions it wins,
      as `dict(Counter)`; no prediction gives an empty dict. */
  method AgregateByParty(fullPredictions: seq<CirconscriptionPrediction>) returns (countSeats: map<Category, int>)
    requires forall i | 0 <= i < |fullPredictions| :: fullPredictions[i].HasCandidate()
    ensures countSeats.Keys == if fullPredictions == [] then {} else FamilySet
    ensures forall c :: c in countSeats ==> countSeats[c] == Count(Winners(fullPredictions), c)
    ensures Total(countSeats) == |fullPredictions|
  {
    ghost var ws := Winners(fullPredictions);
    countSeats := map[];
    for i := 0 to |fullPredictions|
      invariant TallyOf(countSeats, ws[..i])
    {
      var seats := fullPredictions[i].GetSeats();
      TallyStep(countSeats, ws, i);
      countSeats := CounterUpdate(countSeats, seats);
    }
    TallyTotal(countSeats, ws);
  }

  lemma TallyTotal(countSeats: map<Category, int>, ws: seq<Category>)
    requires forall i | 0 <= i < |ws| :: IsParty(ws[i])
    requires TallyOf(countSeats, ws[..|ws|])
    ensures TallyOf(countSeats, ws)
    ensures Total(countSeats) == |ws|
  {
    assert ws[..|ws|] == ws;
    CountAddUp(ws);
  }
}
