/** The closed set of categories a vote can belong to: the five political
    families of `PoliticalFamily` and the abstention pseudo-category "ABS". */
module Categories {

  datatype Category = NFP | LR | RN | ENS | DIV | ABS

  /** True for a political family, false for the abstention sentinel. */
  predicate IsParty(c: Category) {
    c != ABS
  }

  /** The string each category carries: the enum values of `PoliticalFamily`, and "ABS". */
  function Label(c: Category): string {
    match c
    case NFP => "NFP+"
    case LR => "LR+"
    case RN => "RN+"
    case ENS => "ENS+"
    case DIV => "DIV"
    case ABS => "ABS"
  }

  /** `PoliticalFamily.__members__.values()`, in declaration order. */
  const Families: seq<Category> := [NFP, LR, RN, ENS, DIV]

  /** The families as a set. */
  const FamilySet: set<Category> := {NFP, LR, RN, ENS, DIV}

  /** `SECOND_ROUND_PARTIES`: the families followed by abstention. */
  const SecondRoundParties: seq<Category> := Families + [ABS]

  /** The order `to_matrix` and `to_dict` use when the caller gives none. */
  const DefaultOrder: seq<Category> := [DIV, ENS, LR, NFP, RN, ABS]

  predicate Distinct(s: seq<Category>) {
    forall i, j | 0 <= i < j < |s| :: s[i] != s[j]
  }

  /** The index of the last occurrence of `c` in `s`: the position whose value
      a Python dict built from `s` keeps for key `c`. */
  function LastIndex(s: seq<Category>, c: Category): (k: nat)
    requires c in s
    ensures k < |s| && s[k] == c
    ensures forall m | k < m < |s| :: s[m] != c
  {
    if s[|s| - 1] == c then |s| - 1 else LastIndex(s[..|s| - 1], c)
  }

  /** The categories among the first `n` elements of `s`. */
  function Elements(s: seq<Category>, n: nat): set<Category>
    requires n <= |s|
  {
    if n == 0 then {} else Elements(s, n - 1) + {s[n - 1]}
  }

  /** `Elements(s, n)` holds exactly the categories at positions below `n`. */
  lemma {:induction false} ElementsAt(s: seq<Category>, n: nat, c: Category)
    requires n <= |s|
    ensures c in Elements(s, n) <==> exists k | 0 <= k < n :: s[k] == c
  {
    if n > 0 {
      ElementsAt(s, n - 1, c);
      if s[n - 1] == c {
        assert exists k | 0 <= k < n :: s[k] == c;
      }
    }
  }

  /** The categories at all positions of `s` are the categories of `s`. */
  lemma ElementsAll(s: seq<Category>)
    ensures Elements(s, |s|) == set c | c in s
  {
    forall c ensures c in Elements(s, |s|) <==> c in s {
      ElementsAt(s, |s|, c);
    }
  }

  lemma LastIndexDistinct(s: seq<Category>, i: int)
    requires Distinct(s) && 0 <= i < |s|
    ensures LastIndex(s, s[i]) == i
  {
  }

  /** The labels tell the categories apart, and a family is exactly a non-abstention category. */
  lemma CategoriesWellDefined()
    ensures forall a, b :: Label(a) == Label(b) ==> a == b
    ensures forall c :: IsParty(c) <==> c in Families
    ensures FamilySet == set c | c in Families
    ensures Distinct(SecondRoundParties) && forall c :: c in SecondRoundParties
    ensures Distinct(DefaultOrder) && forall c :: c in DefaultOrder
  {
    forall c ensures c in DefaultOrder {
      match c
      case DIV => assert DefaultOrder[0] == c;
      case ENS => assert DefaultOrder[1] == c;
      case LR => assert DefaultOrder[2] == c;
      case NFP => assert DefaultOrder[3] == c;
      case RN => assert DefaultOrder[4] == c;
      case ABS => assert DefaultOrder[5] == c;
    }
  }
}
