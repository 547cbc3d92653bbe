/*
  Standard representation of the biomass reaction (tools/standardization.py):
  molecular weight of an elemental composition, scaling of a reaction,
  normalisation of the biomass reaction to 1 g/mmol, and the loop that tries to
  fold poorly defined metabolites into the reactions consuming them.
*/
module Standardization {
  import opened Common
  import opened Cobra

  // ---------------------------------------------------------------- molecular weight

  /** The atomic weights `calc_mw` knows (`molecular_weight`), in the order of its
      table. */
  const Weights: seq<(string, real)> := [
    ("C", 12.0), ("Ca", 40.078), ("Fe", 55.845), ("H", 1.0), ("K", 39.0983),
    ("Mg", 24.305), ("N", 14.0), ("O", 16.0), ("P", 30.973), ("S", 32.065)]

  /** `molecular_weight[k]`, None when `k` is not in the table. */
  function Lookup(table: seq<(string, real)>, k: string): (w: Option<real>)
    ensures w.Some? <==> exists i :: 0 <= i < |table| && table[i].0 == k
    ensures (forall i :: 0 <= i < |table| ==> table[i].1 > 0.0) && w.Some? ==> w.value > 0.0
  {
    if table == [] then None
    else if table[|table| - 1].0 == k then Some(table[|table| - 1].1)
    else
      var w := Lookup(table[..|table| - 1], k);
      assert w.Some? ==> exists i :: 0 <= i < |table| && table[i].0 == k by {
        if w.Some? {
          var i :| 0 <= i < |table| - 1 && table[..|table| - 1][i].0 == k;
          assert table[i].0 == k;
        }
      }
      w
  }

  /** No element is named twice: each entry's name is absent from the entries
      before it. */
  predicate DistinctNames(table: seq<(string, real)>)
  {
    table == [] || (Lookup(table[..|table| - 1], table[|table| - 1].0).None? && DistinctNames(table[..|table| - 1]))
  }

  /** A weight table names each element once and gives it a positive weight. */
  predicate WellFormed(table: seq<(string, real)>)
  {
    DistinctNames(table) && forall i :: 0 <= i < |table| ==> table[i].1 > 0.0
  }

  /** Names that differ pairwise are distinct in the sense above. */
  lemma {:induction false} PairwiseDistinctNames(table: seq<(string, real)>)
    requires forall i, j :: 0 <= i < j < |table| ==> table[i].0 != table[j].0
    ensures DistinctNames(table)
  {
    if table != [] {
      var init := table[..|table| - 1];
      assert forall i, j :: 0 <= i < j < |init| ==> init[i].0 != init[j].0 by {
        forall i, j | 0 <= i < j < |init| ensures init[i].0 != init[j].0 {
          assert init[i] == table[i] && init[j] == table[j];
        }
      }
      PairwiseDistinctNames(init);
      assert forall i :: 0 <= i < |init| ==> init[i].0 != table[|table| - 1].0;
    }
  }

  lemma WeightsWellFormed()
    ensures WellFormed(Weights)
  {
    PairwiseDistinctNames(Weights);
  }

  /** The amount an entry of weight `w` contributes for `x` of its element. */
  function Weighed(w: Option<real>, x: real): real
  {
    if w.Some? then w.value * Abs(x) else 0.0
  }

  /** The table's weights against the amounts in `v`. */
  function WeightedSum(table: seq<(string, real)>, v: Vec): real
  {
    if table == [] then 0.0
    else WeightedSum(table[..|table| - 1], v) + table[|table| - 1].1 * Get(v, table[|table| - 1].0)
  }

  /** Every amount of a composition by its absolute value. */
  function Magnitudes(v: Vec): (r: Vec)
    ensures forall k :: Get(r, k) == Abs(Get(v, k))
  {
    map k | k in v :: Abs(v[k])
  }

  /** Grams per mole of the table's elements in `v`, each counted by absolute amount. */
  function MassOver(table: seq<(string, real)>, v: Vec): real
  {
    WeightedSum(table, Magnitudes(v))
  }

  /** Molecular weight in g/mmol: the table's elements only, by absolute amount. */
  function Mw(v: Vec): real
  {
    MassOver(Weights, v) / 1000.0
  }

  /** The last entry of a table adds its weighted amount. */
  lemma MassOverLast(table: seq<(string, real)>, v: Vec)
    requires table != []
    ensures MassOver(table, v) == MassOver(table[..|table| - 1], v) + table[|table| - 1].1 * Abs(Get(v, table[|table| - 1].0))
  {
  }

  lemma {:induction false} MassOverNonNegative(table: seq<(string, real)>, v: Vec)
    requires WellFormed(table)
    ensures MassOver(table, v) >= 0.0
  {
    if table != [] {
      var w := table[|table| - 1].1;
      assert w > 0.0;
      MassOverNonNegative(table[..|table| - 1], v);
      MassOverLast(table, v);
      NonNegativeProduct(w, Abs(Get(v, table[|table| - 1].0)));
    }
  }

  lemma NonNegativeProduct(a: real, b: real)
    requires a >= 0.0 && b >= 0.0
    ensures a * b >= 0.0
  {
  }

  lemma {:induction false} MassOverZero(table: seq<(string, real)>)
    ensures MassOver(table, map[]) == 0.0
  {
    if table != [] {
      MassOverZero(table[..|table| - 1]);
      MassOverLast(table, map[]);
    }
  }

  /** Compositions that agree on the table's elements have the same mass: other
      keys (unknown elements, "charge") contribute nothing. */
  lemma {:induction false} MassOverAgree(table: seq<(string, real)>, a: Vec, b: Vec)
    requires forall i :: 0 <= i < |table| ==> Get(a, table[i].0) == Get(b, table[i].0)
    ensures MassOver(table, a) == MassOver(table, b)
  {
    if table != [] {
      var init := table[..|table| - 1];
      assert forall i :: 0 <= i < |init| ==> init[i] == table[i];
      MassOverAgree(init, a, b);
      MassOverLast(table, a);
      MassOverLast(table, b);
    }
  }

  lemma Distribute(a: real, p: real, w: real, y: real)
    ensures a * p + w * (a * y) == a * (p + w * y)
  {
  }

  lemma AbsMul(a: real, b: real)
    ensures Abs(a * b) == Abs(a) * Abs(b)
  {
    if a < 0.0 && b < 0.0 { assert a * b == (-a) * (-b); }
  }

  /** Every amount of `u` is `a` times that of `v`. */
  ghost predicate ScaledBy(u: Vec, v: Vec, a: real)
  {
    forall k :: Get(u, k) == a * Get(v, k)
  }

  /** The weighted sum is linear: scaling every amount by `a` scales the sum by `a`. */
  lemma {:induction false} WeightedSumScaled(table: seq<(string, real)>, v: Vec, u: Vec, a: real)
    requires ScaledBy(u, v, a)
    ensures WeightedSum(table, u) == a * WeightedSum(table, v)
  {
    if table != [] {
      var init := table[..|table| - 1];
      WeightedSumScaled(init, v, u, a);
      Distribute(a, WeightedSum(init, v), table[|table| - 1].1, Get(v, table[|table| - 1].0));
    }
  }

  /** Amounts scaled by `c` have magnitudes scaled by |c|. */
  lemma MagnitudesScaled(v: Vec, c: real)
    ensures ScaledBy(Magnitudes(Scale(c, v)), Magnitudes(v), Abs(c))
  {
    var u := Scale(c, v);
    forall k ensures Get(Magnitudes(u), k) == Abs(c) * Get(Magnitudes(v), k) {
      assert Get(u, k) == c * Get(v, k);
      AbsMul(c, Get(v, k));
    }
  }

  lemma MassOverScaledBy(table: seq<(string, real)>, v: Vec, u: Vec, a: real)
    requires ScaledBy(Magnitudes(u), Magnitudes(v), a)
    ensures MassOver(table, u) == a * MassOver(table, v)
  {
    WeightedSumScaled(table, Magnitudes(v), Magnitudes(u), a);
  }

  /** Scaling a composition scales its mass by the absolute factor. */
  lemma MassOverScale(table: seq<(string, real)>, v: Vec, c: real)
    ensures MassOver(table, Scale(c, v)) == Abs(c) * MassOver(table, v)
  {
    MagnitudesScaled(v, c);
    MassOverScaledBy(table, v, Scale(c, v), Abs(c));
  }

  /** Looking up the last entry's element, which no earlier entry names. */
  lemma LookupLast(table: seq<(string, real)>, k: string)
    requires table != [] && DistinctNames(table)
    ensures k == table[|table| - 1].0 ==> Lookup(table, k) == Some(table[|table| - 1].1) && Lookup(table[..|table| - 1], k).None?
    ensures k != table[|table| - 1].0 ==> Lookup(table, k) == Lookup(table[..|table| - 1], k)
  {
  }

  lemma GetRemove(v: Vec, k: string, e: string)
    ensures Get(v - {k}, e) == if e == k then 0.0 else Get(v, e)
  {
  }

  /** Removing a key takes away its weighted amount when the table knows it. */
  /** One entry of the induction behind `MassOverRemove`. */
  lemma MassOverRemoveStep(table: seq<(string, real)>, v: Vec, k: string)
    requires table != [] && DistinctNames(table) && k in v
    requires var init := table[..|table| - 1];
      MassOver(init, v) == MassOver(init, v - {k}) + Weighed(Lookup(init, k), v[k])
    ensures MassOver(table, v) == MassOver(table, v - {k}) + Weighed(Lookup(table, k), v[k])
  {
    var (e, w) := table[|table| - 1];
    MassOverLast(table, v);
    MassOverLast(table, v - {k});
    LookupLast(table, k);
    GetRemove(v, k, e);
  }

  lemma {:induction false} MassOverRemove(table: seq<(string, real)>, v: Vec, k: string)
    requires DistinctNames(table)
    requires k in v
    ensures MassOver(table, v) == MassOver(table, v - {k}) + Weighed(Lookup(table, k), v[k])
  {
    if table != [] {
      MassOverRemove(table[..|table| - 1], v, k);
      MassOverRemoveStep(table, v, k);
    }
  }

  lemma MwNonNegative(v: Vec)
    ensures Mw(v) >= 0.0
  {
    WeightsWellFormed();
    MassOverNonNegative(Weights, v);
  }

  /** The weight of a scaled composition is the weight scaled by the absolute factor. */
  lemma MwScale(v: Vec, c: real)
    ensures Mw(Scale(c, v)) == Abs(c) * Mw(v)
  {
    MassOverScale(Weights, v, c);
  }

  /** `bdict.pop('charge', None)` */
  function WithoutCharge(v: Vec): (r: Vec)
    ensures "charge" !in r
    ensures forall k :: k != "charge" ==> Get(r, k) == Get(v, k)
  {
    map k | k in v && k != "charge" :: v[k]
  }

  /** The sum over every entry but "charge" is the molecular weight. */
  lemma MassWithoutCharge(seen: Vec, bdict: Vec)
    requires forall k :: k != "charge" ==> Get(seen, k) == Get(bdict, k)
    ensures MassOver(Weights, seen) / 1000.0 == Mw(bdict)
  {
    assert forall i :: 0 <= i < |Weights| ==> Weights[i].0 != "charge";
    MassOverAgree(Weights, seen, bdict);
  }

  /** Taking one entry out of a composition moves its weighted amount from the table
      sum to the running total. */
  lemma WeightsRemove(total: real, items: Vec, k: string, v: real, w: Option<real>, target: real)
    requires k in items && v == items[k] && w == Lookup(Weights, k)
    requires total + MassOver(Weights, items) == target
    ensures total + Weighed(w, v) + MassOver(Weights, items - {k}) == target
    ensures |(items - {k}).Keys| < |items.Keys|
  {
    WeightsWellFormed();
    MassOverRemove(Weights, items, k);
    assert (items - {k}).Keys == items.Keys - {k};
  }

  /** `calc_mw`: drops "charge" from the composition it is handed (returned as the
      second result, since the dictionary is the caller's) and sums the table weight
      times the absolute amount of every element it knows. */
  method CalcMw(bdict: Vec) returns (mw: real, popped: Vec)
    ensures popped == WithoutCharge(bdict)
    ensures mw == Mw(bdict) && mw >= 0.0
  {
    popped := WithoutCharge(bdict);
    var items := popped;
    var total := 0.0;
    ghost var target := MassOver(Weights, popped);
    while items != map[]
      invariant total + MassOver(Weights, items) == target
      decreases |items|
    {
      var k :| k in items;
      var v := items[k];
      var w := Lookup(Weights, k);
      WeightsRemove(total, items, k, v, w, target);
      if w.Some? {
        assert Weighed(w, v) == w.value * Abs(v);
        total := total + w.value * Abs(v);
      }
      items := items - {k};
    }
    MassOverZero(Weights);
    MassWithoutCharge(popped, bdict);
    MwNonNegative(bdict);
    mw := total / 1000.0;
  }

  // ---------------------------------------------------------------- scaling

  /** The coefficients `multiply_rxn` gives its copy: every coefficient times
      `value`, where one that becomes 0 leaves. */
  function MultipliedCoefficients(value: real, st: Vec): (r: Vec)
    ensures NoZeros(r)
    ensures forall k :: Get(r, k) == value * Get(st, k)
  {
    Prune(Scale(value, st))
  }

  /** That is what emptying the copy (subtracting its own coefficients) and then
      adding the scaled coefficients gives. */
  lemma MultipliedBySubtractAdd(value: real, st: Vec)
    ensures AddMetabolites(SubtractMetabolites(st, st), Scale(value, st)) == MultipliedCoefficients(value, st)
  {
    SubtractAllEmpties(st);
    var a := AddMetabolites(map[], Scale(value, st));
    var b := MultipliedCoefficients(value, st);
    assert forall k :: Get(a, k) == Get(b, k);
    NoZerosExtensional(a, b);
  }

  /** `multiply_rxn`: a copy of the reaction that differs only in its
      coefficients; the input, a value, is untouched. */
  function MultiplyRxn(value: real, r: Reaction): (m: Reaction)
    ensures m == r.(stoich := m.stoich)
    ensures m.stoich == MultipliedCoefficients(value, r.stoich)
  {
    r.(stoich := MultipliedCoefficients(value, r.stoich))
  }

  lemma InverseFactor(c: real, x: real)
    requires c != 0.0
    ensures 1.0 / c * (c * x) == x
  {
    assert 1.0 / c * (c * x) == (1.0 / c * c) * x;
  }

  /** Multiplying by c and then by 1/c gives the reaction back (without any zero
      coefficient it may have carried). */
  lemma MultiplyInverse(c: real, r: Reaction)
    requires c != 0.0
    ensures MultiplyRxn(1.0 / c, MultiplyRxn(c, r)).stoich == Prune(r.stoich)
  {
    var there := MultipliedCoefficients(c, r.stoich);
    var back := MultipliedCoefficients(1.0 / c, there);
    forall k ensures Get(back, k) == Get(Prune(r.stoich), k) {
      var x := Get(r.stoich, k);
      assert Get(there, k) == c * x;
      assert Get(back, k) == 1.0 / c * Get(there, k);
      InverseFactor(c, x);
    }
    NoZerosExtensional(back, Prune(r.stoich));
  }

  /** The mass balance of a multiplied reaction is the multiplied mass balance. */
  lemma MultiplyMassBalance(ms: seq<Metabolite>, c: real, r: Reaction)
    requires c != 0.0
    ensures MassBalance(ms, MultiplyRxn(c, r).stoich) == Scale(c, MassBalance(ms, r.stoich))
  {
    MassBalanceSameCoefficients(ms, MultiplyRxn(c, r).stoich, Scale(c, r.stoich));
    MassBalanceScale(ms, r.stoich, c);
  }

  // ---------------------------------------------------------------- biomass normalisation

  /** `cur` holds the coefficients of `st` divided by `mw`, except for those still
      waiting in `todo`, which is a part of `st`. */
  ghost predicate DividedExcept(cur: Vec, st: Vec, mw: real, todo: Vec)
    requires mw != 0.0
  {
    && NoZeros(cur)
    && (forall k :: k in todo ==> k in st && todo[k] == st[k])
    && (forall k :: Get(cur, k) == (if k in todo then 0.0 else Get(st, k) / mw))
  }

  lemma DivideStart(st: Vec, mw: real)
    requires mw != 0.0
    ensures DividedExcept(map[], st, mw, st)
  {
  }

  /** Adding one waiting metabolite back with its divided coefficient. */
  lemma DivideStep(cur: Vec, st: Vec, mw: real, todo: Vec, k: string)
    requires mw != 0.0 && DividedExcept(cur, st, mw, todo) && k in todo
    ensures DividedExcept(AddMetabolites(cur, map[k := todo[k] / mw]), st, mw, todo - {k})
    ensures |(todo - {k}).Keys| < |todo.Keys|
  {
    var next := AddMetabolites(cur, map[k := todo[k] / mw]);
    forall j ensures Get(next, j) == (if j in todo - {k} then 0.0 else Get(st, j) / mw) {
      assert Get(next, j) == Get(cur, j) + Get(map[k := todo[k] / mw], j);
    }
    assert (todo - {k}).Keys == todo.Keys - {k};
  }

  /** The loop of `normalize_biomass`: the emptied reaction gets back each of its
      metabolites with the coefficient divided by the weight. */
  method DivideCoefficients(st: Vec, mw: real) returns (cur: Vec)
    requires mw != 0.0
    ensures NoZeros(cur) && forall k :: Get(cur, k) == Get(st, k) / mw
  {
    cur := map[];
    var todo := st;
    DivideStart(st, mw);
    while todo != map[]
      invariant DividedExcept(cur, st, mw, todo)
      decreases |todo|
    {
      var k :| k in todo;
      DivideStep(cur, st, mw, todo, k);
      cur := AddMetabolites(cur, map[k := todo[k] / mw]);
      todo := todo - {k};
    }
  }

  /** `normalize_biomass` on reaction `i`: its coefficients are divided, in place,
      by the molecular weight of its mass balance. A weight of 0 raises (a
      ZeroDivisionError, or the AssertionError when the reaction is empty) after
      the reaction was emptied. Otherwise no error is raised, because the weight
      recomputed afterwards is exactly 1. */
  method NormalizeBiomass(model: Model, i: nat) returns (err: Option<string>)
    requires i < |model.reactions|
    modifies model`reactions
    ensures var r := old(model.reactions[i]);
      var mw := Mw(MassBalance(model.metabolites, r.stoich));
      && |model.reactions| == |old(model.reactions)|
      && (forall j :: 0 <= j < |model.reactions| && j != i ==> model.reactions[j] == old(model.reactions[j]))
      && model.reactions[i] == r.(stoich := model.reactions[i].stoich)
      && (mw == 0.0 <==> err.Some?)
      && (mw == 0.0 ==> model.reactions[i].stoich == map[])
      && (mw != 0.0 ==> forall k :: Get(model.reactions[i].stoich, k) == Get(r.stoich, k) / mw)
      && (mw != 0.0 ==> Mw(MassBalance(model.metabolites, model.reactions[i].stoich)) == 1.0)
  {
    var r := model.reactions[i];
    var mw, _ := CalcMw(MassBalance(model.metabolites, r.stoich));
    var mets := r.stoich;
    SubtractAllEmpties(mets);
    model.reactions := model.reactions[i := r.(stoich := SubtractMetabolites(r.stoich, mets))];
    if mw == 0.0 {
      if mets == map[] {
        return Some("AssertionError");
      }
      return Some("ZeroDivisionError: float division by zero");
    }
    var divided := DivideCoefficients(mets, mw);
    model.reactions := model.reactions[i := r.(stoich := divided)];
    NormalizedWeight(model.metabolites, mets, divided, mw);
    err := None;
  }

  lemma DivideAsScale(st: Vec, divided: Vec, mw: real)
    requires mw != 0.0
    requires forall k :: Get(divided, k) == Get(st, k) / mw
    ensures forall k :: Get(divided, k) == Get(Scale(1.0 / mw, st), k)
  {
    forall k ensures Get(divided, k) == Get(Scale(1.0 / mw, st), k) {
      var x := Get(st, k);
      assert x / mw == (1.0 / mw) * x;
    }
  }

  /** A weight `w` scaled by the absolute value of its own inverse is 1. */
  lemma ScaledToOne(x: real, c: real, w: real, m: real)
    requires w == m && m > 0.0 && c == 1.0 / m && x == Abs(c) * w
    ensures x == 1.0
  {
    assert c > 0.0;
  }

  /** Dividing every coefficient by the weight of the mass balance makes that weight 1. */
  lemma NormalizedWeight(ms: seq<Metabolite>, st: Vec, divided: Vec, mw: real)
    requires mw == Mw(MassBalance(ms, st)) && mw != 0.0
    requires forall k :: Get(divided, k) == Get(st, k) / mw
    ensures Mw(MassBalance(ms, divided)) == 1.0
  {
    var c := 1.0 / mw;
    var b := MassBalance(ms, st);
    MwNonNegative(b);
    DivideAsScale(st, divided, mw);
    MassBalanceSameCoefficients(ms, divided, Scale(c, st));
    assert c != 0.0;
    MassBalanceScale(ms, st, c);
    MwScale(b, c);
    ScaledToOne(Mw(Scale(c, b)), c, Mw(b), mw);
  }

  // ---------------------------------------------------------------- consolidate_non_int

  predicate IsIntegral(x: real)
  {
    x.Floor as real == x
  }

  /** `find_bad_mets`' test: a charge that is set and non-zero, and either it or
      some element count is not an integer. */
  predicate IsBadMet(m: Metabolite)
  {
    var els := Elements(m.formula);
    m.charge.Some? && m.charge.value != 0.0 &&
    (!IsIntegral(m.charge.value) || !(forall e :: e in els ==> IsIntegral(els[e])))
  }

  /** `find_bad_mets` */
  function BadMets(ms: seq<Metabolite>): (r: seq<Metabolite>)
    ensures forall m :: m in r <==> m in ms && IsBadMet(m)
  {
    if ms == [] then []
    else (if IsBadMet(ms[0]) then [ms[0]] else []) + BadMets(ms[1..])
  }

  /** A charged metabolite whose formula has a count with a non-zero decimal digit,
      such as "C1.5", is poorly defined. */
  lemma DecimalCountBad(m: Metabolite, u: char, a: string, b: string, i: nat)
    requires IsUpper(u) && Text.AllDigits(a) && Text.AllDigits(b) && i < |b| && b[i] != '0'
    requires m.formula == [u] + (a + ("." + b))
    requires m.charge.Some? && m.charge.value != 0.0
    ensures IsBadMet(m)
  {
    ElementsOfDecimal(u, a, b);
    DecimalNotWhole(a, b, i);
    var els := Elements(m.formula);
    assert [u] in els && !IsIntegral(els[[u]]);
  }

  /** Indices, from `from` on, of the reactions that produce metabolite `id`. */
  function Producers(rs: seq<Reaction>, id: string, from: nat): (r: seq<nat>)
    requires from <= |rs|
    ensures forall j :: j in r <==> from <= j < |rs| && Get(rs[j].stoich, id) > 0.0
    decreases |rs| - from
  {
    if from == |rs| then []
    else (if Get(rs[from].stoich, id) > 0.0 then [from] else []) + Producers(rs, id, from + 1)
  }

  /** Ids of the reactions that consume metabolite `id`. */
  function Consumers(rs: seq<Reaction>, id: string): (r: seq<string>)
    ensures forall c :: c in r <==> exists j :: 0 <= j < |rs| && rs[j].id == c && Get(rs[j].stoich, id) < 0.0
  {
    if rs == [] then []
    else
      var rest := Consumers(rs[1..], id);
      assert forall c :: c in rest <==> exists j :: 1 <= j < |rs| && rs[j].id == c && Get(rs[j].stoich, id) < 0.0 by {
        forall c ensures c in rest <==> exists j :: 1 <= j < |rs| && rs[j].id == c && Get(rs[j].stoich, id) < 0.0 {
          if c in rest {
            var j :| 0 <= j < |rs[1..]| && rs[1..][j].id == c && Get(rs[1..][j].stoich, id) < 0.0;
            assert rs[j + 1] == rs[1..][j];
          }
          if exists j :: 1 <= j < |rs| && rs[j].id == c && Get(rs[j].stoich, id) < 0.0 {
            var j :| 1 <= j < |rs| && rs[j].id == c && Get(rs[j].stoich, id) < 0.0;
            assert rs[1..][j - 1] == rs[j];
          }
        }
      }
      (if Get(rs[0].stoich, id) < 0.0 then [rs[0].id] else []) + rest
  }

  /** `rxn + multiply_rxn(abs(coefficient), producer)` for the consumer `c`: the
      consumer is removed and the merged reaction added at the end of the list. */
  function MergeOne(rs: seq<Reaction>, id: string, producer: Reaction, c: string): (r: seq<Reaction>)
    ensures |r| == |rs|
  {
    match FindReaction(rs, c)
    case None => rs
    case Some(j) =>
      var rxn := rs[j];
      var merged := rxn.(stoich := AddMetabolites(rxn.stoich, MultiplyRxn(Abs(Get(rxn.stoich, id)), producer).stoich));
      rs[..j] + rs[j + 1..] + [merged]
  }

  /** `MergeOne` for each consumer in turn. */
  function MergeConsumers(rs: seq<Reaction>, id: string, producer: Reaction, cs: seq<string>): (r: seq<Reaction>)
    ensures |r| == |rs|
    decreases |cs|
  {
    if cs == [] then rs
    else MergeConsumers(MergeOne(rs, id, producer, cs[0]), id, producer, cs[1..])
  }

  /** The first of the remaining consumers merged, then the rest. */
  lemma MergeConsumersStep(rs: seq<Reaction>, id: string, producer: Reaction, cs: seq<string>, k: nat)
    requires k < |cs|
    ensures MergeConsumers(rs, id, producer, cs[k..]) == MergeConsumers(MergeOne(rs, id, producer, cs[k]), id, producer, cs[k + 1..])
  {
    assert cs[k..][1..] == cs[k + 1..];
  }

  /** Where a pass leaves the reactions and the collected producers; `ok` is false
      when it stopped at the assertion, with the reactions merged until then. */
  datatype Pass = Pass(ok: bool, rs: seq<Reaction>, collected: seq<string>)

  /** One pass of the `while bad_mets` loop over the bad metabolites `bad`, from the
      reactions `rs` and the producers collected so far; the assertion that each has
      exactly one producer stops it. */
  function PassEffect(rs: seq<Reaction>, bad: seq<Metabolite>, collected: seq<string>): Pass
    decreases |bad|
  {
    if bad == [] then Pass(true, rs, collected)
    else
      var ps := Producers(rs, bad[0].id, 0);
      if |ps| != 1 then Pass(false, rs, collected)
      else
        assert ps[0] in ps;
        var producer := rs[ps[0]];
        var merged := MergeConsumers(rs, bad[0].id, producer, Consumers(rs, bad[0].id));
        PassEffect(merged, bad[1..], collected + [producer.id])
  }

  /** `model.remove_reactions(ids)` */
  function RemoveReactions(rs: seq<Reaction>, ids: seq<string>): (r: seq<Reaction>)
    ensures forall x :: x in r <==> x in rs && x.id !in ids
  {
    if rs == [] then []
    else (if rs[0].id in ids then [] else [rs[0]]) + RemoveReactions(rs[1..], ids)
  }

  datatype Consolidation = Done(removed: seq<string>) | AssertionFailed | OutOfFuel

  /** The whole of `consolidate_non_int` with at most `fuel` passes. */
  function Consolidate(rs: seq<Reaction>, ms: seq<Metabolite>, collected: seq<string>, fuel: nat): (Consolidation, seq<Reaction>)
    decreases fuel
  {
    if BadMets(ms) == [] then (Done(collected), RemoveReactions(rs, collected))
    else if fuel == 0 then (OutOfFuel, rs)
    else
      var p := PassEffect(rs, BadMets(ms), collected);
      if !p.ok then (AssertionFailed, p.rs)
      else Consolidate(p.rs, ms, p.collected, fuel - 1)
  }

  /** The passes never change a metabolite, so the set of poorly defined
      metabolites never shrinks: once there is one, the loop cannot end normally,
      whatever the number of passes allowed. */
  lemma ConsolidateNeverDone(rs: seq<Reaction>, ms: seq<Metabolite>, collected: seq<string>, fuel: nat)
    requires exists m :: m in ms && IsBadMet(m)
    ensures !Consolidate(rs, ms, collected, fuel).0.Done?
  {
    var m :| m in ms && IsBadMet(m);
    assert m in BadMets(ms);
    ConsolidateNeverDoneFrom(rs, ms, collected, fuel);
  }

  /** `ConsolidateNeverDone` by induction on the passes allowed. */
  lemma {:induction false} ConsolidateNeverDoneFrom(rs: seq<Reaction>, ms: seq<Metabolite>, collected: seq<string>, fuel: nat)
    requires BadMets(ms) != []
    ensures !Consolidate(rs, ms, collected, fuel).0.Done?
    decreases fuel
  {
    if fuel > 0 {
      var p := PassEffect(rs, BadMets(ms), collected);
      ConsolidateUnfold(rs, ms, collected, fuel, p);
      if p.ok {
        ConsolidateNeverDoneFrom(p.rs, ms, p.collected, fuel - 1);
      }
    }
  }

  lemma {:induction false} NoBadMets(ms: seq<Metabolite>)
    requires forall m :: m in ms ==> !IsBadMet(m)
    ensures BadMets(ms) == []
  {
    if ms != [] {
      NoBadMets(ms[1..]);
    }
  }

  /** The list of poorly defined metabolites is empty exactly when there are none. */
  lemma BadMetsEmpty(ms: seq<Metabolite>)
    ensures BadMets(ms) == [] <==> forall m :: m in ms ==> !IsBadMet(m)
  {
    if forall m :: m in ms ==> !IsBadMet(m) {
      NoBadMets(ms);
    } else {
      var m :| m in ms && IsBadMet(m);
      assert m in BadMets(ms);
    }
  }

  /** Without poorly defined metabolites nothing is merged and nothing removed. */
  lemma ConsolidateNothingBad(rs: seq<Reaction>, ms: seq<Metabolite>, fuel: nat)
    requires forall m :: m in ms ==> !IsBadMet(m)
    ensures Consolidate(rs, ms, [], fuel) == (Done([]), rs)
  {
    NoBadMets(ms);
    RemoveNothing(rs);
  }

  lemma {:induction false} RemoveNothing(rs: seq<Reaction>)
    ensures RemoveReactions(rs, []) == rs
  {
    if rs != [] {
      RemoveNothing(rs[1..]);
      assert [rs[0]] + rs[1..] == rs;
    }
  }

  /** The inner `for rxn in list(met.reactions)` loop: each consumer of the bad
      metabolite `id` is replaced by its sum with the scaled producer. */
  method MergeAll(model: Model, id: string, producer: Reaction, cs: seq<string>)
    modifies model`reactions
    ensures model.reactions == MergeConsumers(old(model.reactions), id, producer, cs)
  {
    ghost var target := MergeConsumers(model.reactions, id, producer, cs);
    var k := 0;
    while k < |cs|
      invariant 0 <= k <= |cs|
      invariant MergeConsumers(model.reactions, id, producer, cs[k..]) == target
    {
      MergeConsumersStep(model.reactions, id, producer, cs, k);
      var found := FindReaction(model.reactions, cs[k]);
      if found.Some? {
        var j := found.value;
        var rxn := model.reactions[j];
        var merged := rxn.(stoich := AddMetabolites(rxn.stoich, MultiplyRxn(Abs(Get(rxn.stoich, id)), producer).stoich));
        model.reactions := model.reactions[..j] + model.reactions[j + 1..] + [merged];
      }
      k := k + 1;
    }
    assert cs[k..] == [];
  }

  /** One pass over the bad metabolites. */
  method ConsolidatePass(model: Model, bad: seq<Metabolite>, collected: seq<string>) returns (ok: bool, collected': seq<string>)
    modifies model`reactions
    ensures PassEffect(old(model.reactions), bad, collected) == Pass(ok, model.reactions, collected')
  {
    ghost var spec := PassEffect(model.reactions, bad, collected);
    collected' := collected;
    var i := 0;
    while i < |bad|
      invariant 0 <= i <= |bad|
      invariant PassEffect(model.reactions, bad[i..], collected') == spec
    {
      assert bad[i..][1..] == bad[i + 1..];
      var met := bad[i];
      var ps := Producers(model.reactions, met.id, 0);
      if |ps| != 1 {
        return false, collected';
      }
      assert ps[0] in ps;
      var producer := model.reactions[ps[0]];
      collected' := collected' + [producer.id];
      MergeAll(model, met.id, producer, Consumers(model.reactions, met.id));
      i := i + 1;
    }
    assert bad[i..] == [];
    ok := true;
  }

  /** One pass of `Consolidate` while poorly defined metabolites remain: it either
      stops at the assertion or goes on from where the pass left the reactions. */
  lemma ConsolidateUnfold(rs: seq<Reaction>, ms: seq<Metabolite>, collected: seq<string>, fuel: nat, p: Pass)
    requires BadMets(ms) != [] && fuel > 0
    requires p == PassEffect(rs, BadMets(ms), collected)
    ensures p.ok ==> Consolidate(rs, ms, collected, fuel) == Consolidate(p.rs, ms, p.collected, fuel - 1)
    ensures !p.ok ==> Consolidate(rs, ms, collected, fuel) == (AssertionFailed, p.rs)
  {
  }

  /** `ConsolidateUnfold` with the remaining passes named. */
  lemma ConsolidateStep(rs: seq<Reaction>, ms: seq<Metabolite>, collected: seq<string>, fuel: nat, p: Pass, rest: nat)
    requires BadMets(ms) != [] && fuel > 0 && rest == fuel - 1
    requires p == PassEffect(rs, BadMets(ms), collected) && p.ok
    ensures Consolidate(rs, ms, collected, fuel) == Consolidate(p.rs, ms, p.collected, rest)
  {
    ConsolidateUnfold(rs, ms, collected, rest + 1, p);
  }

  /** `consolidate_non_int` with at most `fuel` passes of its `while` loop. */
  method ConsolidateNonInt(model: Model, fuel: nat) returns (outcome: Consolidation)
    modifies model`reactions
    ensures (outcome, model.reactions) == Consolidate(old(model.reactions), model.metabolites, [], fuel)
    ensures outcome.Done? <==> forall m :: m in model.metabolites ==> !IsBadMet(m)
  {
    var ms := model.metabolites;
    ghost var spec := Consolidate(model.reactions, ms, [], fuel);
    BadMetsEmpty(ms);
    var collected: seq<string> := [];
    var bad := BadMets(ms);
    var n := fuel;
    while bad != []
      invariant model.metabolites == ms && bad == BadMets(ms)
      invariant Consolidate(model.reactions, ms, collected, n) == spec
      decreases n
    {
      if n == 0 {
        return OutOfFuel;
      }
      ghost var before := model.reactions;
      ghost var collectedBefore := collected;
      var ok;
      ok, collected := ConsolidatePass(model, bad, collected);
      if !ok {
        ConsolidateUnfold(before, ms, collectedBefore, n, Pass(ok, model.reactions, collected));
        return AssertionFailed;
      }
      ghost var passesLeft := n;
      n := n - 1;
      ConsolidateStep(before, ms, collectedBefore, passesLeft, Pass(ok, model.reactions, collected), n);
    }
    model.reactions := RemoveReactions(model.reactions, collected);
    outcome := Done(collected);
  }
}
