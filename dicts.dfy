/** Python dicts keyed by categories (insertion-ordered), their union, and sums. */
module Dicts {
  import opened Categories

  /** A dict: `keys` in insertion order, `vals` the contents. */
  datatype Dict<V> = Dict(keys: seq<Category>, vals: map<Category, V>) {

    ghost predicate WellFormed() {
      Distinct(keys) && forall c :: c in vals <==> c in keys
    }

    /** `list(d.values())`: the values in key order. */
    function Values(): (vs: seq<V>)
      requires WellFormed()
      ensures |vs| == |keys|
      ensures forall i | 0 <= i < |keys| :: vs[i] == vals[keys[i]]
    {
      seq(|keys|, i requires 0 <= i < |keys| => vals[keys[i]])
    }
  }

  /** `{ks[i]: vs[i] for i in range(len(ks))}`: a later duplicate key overwrites an earlier one. */
  function Zip<V>(ks: seq<Category>, vs: seq<V>): (d: Dict<V>)
    requires |ks| <= |vs|
    ensures d.keys == ks && d.vals.Keys == set c | c in ks
    ensures Distinct(ks) ==> d.WellFormed() && d.Values() == vs[..|ks|]
  {
    var d := Dict(ks, map c | c in ks :: vs[LastIndex(ks, c)]);
    if Distinct(ks) then
      assert forall i | 0 <= i < |ks| :: d.vals[ks[i]] == vs[i] by {
        forall i | 0 <= i < |ks| ensures d.vals[ks[i]] == vs[i] {
          LastIndexDistinct(ks, i);
        }
      }
      d
    else
      d
  }

  /** The elements of `ks` outside `s`, in order. */
  function KeysNotIn(ks: seq<Category>, s: set<Category>): (r: seq<Category>)
    ensures forall c :: c in r <==> c in ks && c !in s
    ensures Distinct(ks) ==> Distinct(r)
    ensures |r| <= |ks|
  {
    if ks == [] then []
    else
      var init := KeysNotIn(ks[..|ks| - 1], s);
      var last := ks[|ks| - 1];
      assert forall c :: c in ks <==> c in ks[..|ks| - 1] || c == last;
      if last in s then init else init + [last]
  }

  /** Filtering a prefix of `ks` gives a prefix of the filtered `ks`. */
  lemma {:induction false} KeysNotInPrefix(ks: seq<Category>, s: set<Category>, i: nat)
    requires i <= |ks|
    ensures KeysNotIn(ks[..i], s) <= KeysNotIn(ks, s)
    decreases |ks|
  {
    if i == |ks| {
      assert ks[..i] == ks;
    } else {
      var init := ks[..|ks| - 1];
      KeysNotInPrefix(init, s, i);
      assert init[..i] == ks[..i];
    }
  }

  /** An element of `ks` outside `s` lands, after filtering, at the position
      given by the number of kept elements before it. */
  lemma KeysNotInAt(ks: seq<Category>, s: set<Category>, i: nat)
    requires i < |ks| && ks[i] !in s
    ensures var p := |KeysNotIn(ks[..i], s)|;
      && p < |KeysNotIn(ks, s)|
      && KeysNotIn(ks, s)[p] == ks[i]
      && |KeysNotIn(ks[..i + 1], s)| == p + 1
  {
    assert ks[..i + 1][..i] == ks[..i];
    KeysNotInPrefix(ks, s, i + 1);
  }

  /** Filtering keeps the relative order of the elements it keeps. */
  lemma KeysNotInOrder(ks: seq<Category>, s: set<Category>, i: nat, j: nat)
    requires i < j <= |ks| && ks[i] !in s
    ensures |KeysNotIn(ks[..i], s)| < |KeysNotIn(ks[..j], s)|
  {
    var upToJ := ks[..j];
    assert upToJ[..i + 1] == ks[..i + 1];
    KeysNotInPrefix(upToJ, s, i + 1);
    KeysNotInAt(ks, s, i);
  }

  /** `d1 | d2`: the keys of `d1` first, then the new keys of `d2`; on a shared key `d2` wins. */
  function Union<V>(d1: Dict<V>, d2: Dict<V>): (u: Dict<V>)
    requires d1.WellFormed() && d2.WellFormed()
    ensures u.WellFormed()
    ensures u.keys == d1.keys + KeysNotIn(d2.keys, d1.vals.Keys)
    ensures forall c :: c in u.vals <==> c in d1.vals || c in d2.vals
    ensures forall c :: c in d2.vals ==> u.vals[c] == d2.vals[c]
    ensures forall c :: c in d1.vals && c !in d2.vals ==> u.vals[c] == d1.vals[c]
  {
    var u := Dict(d1.keys + KeysNotIn(d2.keys, d1.vals.Keys), d1.vals + d2.vals);
    assert Distinct(u.keys) by {
      var added := KeysNotIn(d2.keys, d1.vals.Keys);
      forall i, j | 0 <= i < j < |u.keys| ensures u.keys[i] != u.keys[j] {
        if j >= |d1.keys| && i < |d1.keys| {
          assert u.keys[j] in added;
        }
      }
    }
    u
  }

  /** `m.get(c, 0)` on a counter. */
  function Get(m: map<Category, int>, c: Category): int {
    if c in m then m[c] else 0
  }

  /** The sum of a counter over all six categories (an absent key counts 0). */
  function Total(m: map<Category, int>): int {
    Get(m, NFP) + Get(m, LR) + Get(m, RN) + Get(m, ENS) + Get(m, DIV) + Get(m, ABS)
  }

  function SumInts(s: seq<int>): int {
    if s == [] then 0 else SumInts(s[..|s| - 1]) + s[|s| - 1]
  }

  function SumReals(s: seq<real>): real {
    if s == [] then 0.0 else SumReals(s[..|s| - 1]) + s[|s| - 1]
  }

  lemma TotalUpdate(m: map<Category, int>, c: Category, v: int)
    ensures Total(m[c := v]) == Total(m) - Get(m, c) + v
  {
  }

  /** Summing a dict's values (`sum(d.values())`) gives its total over all categories. */
  lemma {:induction false} TotalOfDict(d: Dict<int>)
    requires d.WellFormed()
    ensures Total(d.vals) == SumInts(d.Values())
    decreases |d.keys|
  {
    if d.keys == [] {
      assert d.vals == map[];
    } else {
      var last := d.keys[|d.keys| - 1];
      var rest := DropLast(d);
      TotalOfDict(rest);
      DropLastValues(d);
      SumIntsSnoc(rest.Values(), d.vals[last]);
      TotalUpdate(rest.vals, last, d.vals[last]);
    }
  }

  lemma SumIntsSnoc(s: seq<int>, x: int)
    ensures SumInts(s + [x]) == SumInts(s) + x
  {
    assert (s + [x])[..|s|] == s;
  }

  lemma {:induction false} SumIntsConcat(a: seq<int>, b: seq<int>)
    ensures SumInts(a + b) == SumInts(a) + SumInts(b)
    decreases |b|
  {
    if b == [] {
      assert a + b == a;
    } else {
      assert (a + b)[..|a + b| - 1] == a + b[..|b| - 1];
      SumIntsConcat(a, b[..|b| - 1]);
    }
  }

  lemma DropLastValues(d: Dict<int>)
    requires d.WellFormed() && d.keys != []
    ensures d.Values() == DropLast(d).Values() + [d.vals[d.keys[|d.keys| - 1]]]
  {
  }

  /** The dict without its last-inserted key. */
  function DropLast(d: Dict<int>): (r: Dict<int>)
    requires d.WellFormed() && d.keys != []
    ensures r.WellFormed() && |r.keys| == |d.keys| - 1
    ensures r.keys == d.keys[..|d.keys| - 1]
    ensures d.keys[|d.keys| - 1] !in r.vals
    ensures d.vals == r.vals[d.keys[|d.keys| - 1] := d.vals[d.keys[|d.keys| - 1]]]
  {
    var last := d.keys[|d.keys| - 1];
    var init := d.keys[..|d.keys| - 1];
    var r := Dict(init, d.vals - {last});
    assert Distinct(init) by {
      forall i, j | 0 <= i < j < |init| ensures init[i] != init[j] {
        assert init[i] == d.keys[i] && init[j] == d.keys[j];
      }
    }
    assert last !in init by {
      forall i | 0 <= i < |init| ensures init[i] != last {
        assert init[i] == d.keys[i];
      }
    }
    assert forall c :: c in d.keys <==> c in init || c == last by {
      assert d.keys == init + [last];
    }
    assert d.vals == r.vals[last := d.vals[last]];
    r
  }
}
