/*
  Corrections applied to the iCBI draft after its conversion to BiGG ids
  (iCBI/3_corrections.py): the search for reactions that involve the same set of
  metabolites, the citrate symporter CITt2 made to carry citrate and the citrate
  exchange reaction replaced, and the merge of the
  duplicated ferrous-iron metabolite into fe2_c.
*/
module Corrections {
  import opened Common
  import opened Cobra

  // ---------------------------------------------------------------- duplicate reactions

  /** Reactions i and j have different ids and the same set of metabolite ids
      (coefficients are ignored). */
  predicate SameMetabolites(rs: seq<Reaction>, i: int, j: int)
  {
    0 <= i < |rs| && 0 <= j < |rs| && rs[i].id != rs[j].id && rs[i].stoich.Keys == rs[j].stoich.Keys
  }

  /** The unordered pair `{rxn_1.id, rxn_2.id}`. */
  function Pair(rs: seq<Reaction>, i: nat, j: nat): set<string>
    requires i < |rs| && j < |rs|
  {
    {rs[i].id, rs[j].id}
  }

  /** The pair was met by the nested loop before position (i, j). */
  predicate EarlierPair(a: int, b: int, i: int, j: int)
  {
    a < i || (a == i && b < j)
  }

  /** The nested loop over all ordered pairs of reactions, recording each unordered
      pair of distinct ids with equal metabolite sets once. */
  method DuplicatePairs(rs: seq<Reaction>) returns (sameMets: seq<set<string>>)
    ensures forall p :: p in sameMets <==> exists a, b :: SameMetabolites(rs, a, b) && p == Pair(rs, a, b)
    ensures Distinct(sameMets)
  {
    sameMets := [];
    var i := 0;
    while i < |rs|
      invariant 0 <= i <= |rs|
      invariant forall p :: p in sameMets <==>
        exists a, b :: SameMetabolites(rs, a, b) && EarlierPair(a, b, i, 0) && p == Pair(rs, a, b)
      invariant Distinct(sameMets)
    {
      var metIds1 := rs[i].stoich.Keys;
      var j := 0;
      while j < |rs|
        invariant 0 <= j <= |rs|
        invariant forall p :: p in sameMets <==>
          exists a, b :: SameMetabolites(rs, a, b) && EarlierPair(a, b, i, j) && p == Pair(rs, a, b)
        invariant Distinct(sameMets)
      {
        var metIds2 := rs[j].stoich.Keys;
        if rs[i].id != rs[j].id && metIds1 == metIds2 {
          var pair := {rs[i].id, rs[j].id};
          assert SameMetabolites(rs, i, j) && pair == Pair(rs, i, j);
          if pair !in sameMets {
            sameMets := sameMets + [pair];
          }
        }
        j := j + 1;
      }
      i := i + 1;
    }
  }

  /** A recorded pair holds two different ids, and the relation is symmetric, so the
      pair of (j, i) is the pair of (i, j). */
  lemma PairShape(rs: seq<Reaction>, i: nat, j: nat)
    requires SameMetabolites(rs, i, j)
    ensures SameMetabolites(rs, j, i) && Pair(rs, j, i) == Pair(rs, i, j)
    ensures |Pair(rs, i, j)| == 2
  {
    assert Pair(rs, i, j) == {rs[i].id} + {rs[j].id};
  }

  // ---------------------------------------------------------------- CITt2

  const CitrateTransportName := "Citrate reversible transport via symport"

  /** The metabolite dictionary added to CITt2: cit_c with the coefficient of h_c and
      cit_e with the coefficient of h_e; None when either proton is missing from the
      reaction (the KeyError of `mets[...]`). */
  function CitrateEdit(st: Vec): (r: Option<Vec>)
    ensures r.Some? <==> "h_c" in st && "h_e" in st
    ensures r.Some? ==> NoZeros(r.value)
    ensures r.Some? ==> Get(r.value, "cit_c") == Get(st, "cit_c") + st["h_c"]
    ensures r.Some? ==> Get(r.value, "cit_e") == Get(st, "cit_e") + st["h_e"]
    ensures r.Some? ==> forall k :: k != "cit_c" && k != "cit_e" ==> Get(r.value, k) == Get(st, k)
  {
    if "h_c" in st && "h_e" in st then Some(AddMetabolites(st, map["cit_c" := st["h_c"], "cit_e" := st["h_e"]]))
    else None
  }

  /** `cb.Metabolite(id='cit_e', ...)`: a copy of cit_c in the extracellular
      compartment, with cit_c's formula, name and charge. */
  function ExternalCitrate(internal: Metabolite): (m: Metabolite)
    ensures m.id == "cit_e" && m.compartment == "e0"
    ensures Composition(m) == Composition(internal)
  {
    Metabolite("cit_e", internal.name, internal.formula, internal.charge, "e0", map[], map[])
  }

  /** Metabolites and reactions after a step of the script, and the id whose lookup
      failed, if one did. */
  datatype Edited = Edited(metabolites: seq<Metabolite>, reactions: seq<Reaction>, error: Option<string>)

  /** `add_boundary(cit_e, lb=0)`: the exchange reaction "EX_cit_e" that only
      consumes cit_e, with lower bound 0 and cobra's default upper bound 1000. */
  function CitrateExchange(external: Metabolite): (r: Reaction)
    ensures r.id == "EX_cit_e" && r.stoich == map["cit_e" := -1.0]
    ensures r.lb == 0.0 && r.ub == 1000.0
  {
    Reaction("EX_cit_e", external.name + " exchange", map["cit_e" := -1.0], 0.0, 1000.0, "", "", map[], map[])
  }

  /** `delete()` of the reaction at `i`: the others keep their order. */
  function WithoutReactionAt(rs: seq<Reaction>, i: nat): (r: seq<Reaction>)
    requires i < |rs|
    ensures |r| == |rs| - 1
    ensures forall j :: 0 <= j < i ==> r[j] == rs[j]
    ensures forall j :: i <= j < |r| ==> r[j] == rs[j + 1]
  {
    rs[..i] + rs[i + 1..]
  }

  /** The CITt2 part of the citrate cell: the symporter gains the citrate pair and
      its new name. */
  function CitrateSymport(ms: seq<Metabolite>, rs: seq<Reaction>): Edited
  {
    match FindReaction(rs, "CITt2")
    case None => Edited(ms, rs, Some("CITt2"))
    case Some(t) =>
      match CitrateEdit(rs[t].stoich)
      case None => Edited(ms, rs, Some(if "h_c" in rs[t].stoich then "h_e" else "h_c"))
      case Some(st) => Edited(ms, rs[t := rs[t].(stoich := st, name := CitrateTransportName)], None)
  }

  /** The citrate cell: cit_e is added (cobra's `add_metabolites` skips an id the
      model already has); the wrong exchange reaction EX_cit_e is deleted and a new
      one added on cit_e with lower bound 0; then CITt2 is edited. A missing
      EX_cit_e is an AttributeError, a missing cit_c or CITt2 too. */
  function CitrateTransport(ms: seq<Metabolite>, rs: seq<Reaction>): Edited
  {
    match FindMetabolite(ms, "cit_c")
    case None => Edited(ms, rs, Some("cit_c"))
    case Some(c) =>
      var ms' := if FindMetabolite(ms, "cit_e").Some? then ms else ms + [ExternalCitrate(ms[c])];
      match FindReaction(rs, "EX_cit_e")
      case None => Edited(ms', rs, Some("EX_cit_e"))
      case Some(x) => CitrateSymport(ms', WithoutReactionAt(rs, x) + [CitrateExchange(ExternalCitrate(ms[c]))])
  }

  method FixCitrateTransport(model: Model) returns (error: Option<string>)
    modifies model`metabolites, model`reactions
    ensures Edited(model.metabolites, model.reactions, error)
      == CitrateTransport(old(model.metabolites), old(model.reactions))
  {
    var c := FindMetabolite(model.metabolites, "cit_c");
    if c.None? {
      return Some("cit_c");
    }
    var internal := model.metabolites[c.value];
    var external := ExternalCitrate(internal);
    if FindMetabolite(model.metabolites, "cit_e").None? {
      model.metabolites := model.metabolites + [external];
    }
    var x := FindReaction(model.reactions, "EX_cit_e");
    if x.None? {
      return Some("EX_cit_e");
    }
    model.reactions := model.reactions[..x.value] + model.reactions[x.value + 1..];
    model.reactions := model.reactions + [CitrateExchange(external)];
    var t := FindReaction(model.reactions, "CITt2");
    if t.None? {
      return Some("CITt2");
    }
    var citt2 := model.reactions[t.value];
    if "h_c" !in citt2.stoich {
      return Some("h_c");
    }
    if "h_e" !in citt2.stoich {
      return Some("h_e");
    }
    var newMets := map["cit_c" := citt2.stoich["h_c"], "cit_e" := citt2.stoich["h_e"]];
    model.reactions := model.reactions[t.value := citt2.(stoich := AddMetabolites(citt2.stoich, newMets),
                                                          name := CitrateTransportName)];
    error := None;
  }

  /** Without CITt2 before the exchange swap there is none after it. */
  lemma CitrateLookupNone(rs: seq<Reaction>, x: nat, ex: Reaction)
    requires x < |rs| && ex.id == "EX_cit_e"
    requires FindReaction(rs, "CITt2").None?
    ensures FindReaction(WithoutReactionAt(rs, x) + [ex], "CITt2").None?
  {
    var rs' := WithoutReactionAt(rs, x) + [ex];
    forall j | 0 <= j < |rs'| ensures rs'[j].id != "CITt2" {
      if j < x {
        assert rs'[j] == rs[j];
      } else if j < |rs'| - 1 {
        assert rs'[j] == rs[j + 1];
      }
    }
  }

  /** CITt2 is found after the exchange swap where it stood before, one place
      earlier when it came after the deleted reaction. */
  lemma CitrateLookupSome(rs: seq<Reaction>, x: nat, ex: Reaction, t0: nat)
    requires x < |rs| && rs[x].id == "EX_cit_e" && ex.id == "EX_cit_e"
    requires FindReaction(rs, "CITt2") == Some(t0)
    ensures FindReaction(WithoutReactionAt(rs, x) + [ex], "CITt2") == Some(if t0 < x then t0 else t0 - 1)
  {
    var rs' := WithoutReactionAt(rs, x) + [ex];
    var t := if t0 < x then t0 else t0 - 1;
    assert rs'[t] == rs[t0];
    forall j | 0 <= j < t ensures rs'[j].id != "CITt2" {
      if j < x {
        assert rs'[j] == rs[j];
      } else {
        assert rs'[j] == rs[j + 1];
      }
    }
    var u := FindReaction(rs', "CITt2");
    assert u.Some?;
    assert u.value == t;
  }

  /** The cell fails exactly when cit_c, EX_cit_e, CITt2 or one of CITt2's protons is
      missing; without EX_cit_e the reactions are left as they were. */
  lemma CitrateTransportFails(ms: seq<Metabolite>, rs: seq<Reaction>)
    ensures CitrateTransport(ms, rs).error.None? <==>
      FindMetabolite(ms, "cit_c").Some? && FindReaction(rs, "EX_cit_e").Some? &&
      FindReaction(rs, "CITt2").Some? &&
      "h_c" in rs[FindReaction(rs, "CITt2").value].stoich && "h_e" in rs[FindReaction(rs, "CITt2").value].stoich
    ensures FindMetabolite(ms, "cit_c").Some? && FindReaction(rs, "EX_cit_e").None? ==>
      CitrateTransport(ms, rs).error == Some("EX_cit_e") && CitrateTransport(ms, rs).reactions == rs
  {
    if FindMetabolite(ms, "cit_c").Some? && FindReaction(rs, "EX_cit_e").Some? {
      var c := FindMetabolite(ms, "cit_c").value;
      var x := FindReaction(rs, "EX_cit_e").value;
      var ex := CitrateExchange(ExternalCitrate(ms[c]));
      match FindReaction(rs, "CITt2")
      case None => CitrateLookupNone(rs, x, ex);
      case Some(t0) => CitrateLookupSome(rs, x, ex, t0);
    }
  }

  /** A successful CITt2 edit changes only CITt2, which it renames. */
  lemma CitrateSymportEffect(ms: seq<Metabolite>, rs: seq<Reaction>)
    requires CitrateSymport(ms, rs).error.None?
    ensures var e := CitrateSymport(ms, rs);
      |e.reactions| == |rs| &&
      (forall j :: 0 <= j < |rs| && rs[j].id != "CITt2" ==> e.reactions[j] == rs[j]) &&
      exists t :: 0 <= t < |rs| && rs[t].id == "CITt2" && e.reactions[t].id == "CITt2" && e.reactions[t].name == CitrateTransportName
  {
    var t := FindReaction(rs, "CITt2").value;
    assert rs[t].id == "CITt2";
  }

  /** When the cell succeeds the model keeps its number of reactions, the last one is
      the new exchange reaction, which only consumes cit_e within bounds (0, 1000), and
      CITt2 carries its new name. */
  lemma CitrateTransportEffect(ms: seq<Metabolite>, rs: seq<Reaction>)
    requires CitrateTransport(ms, rs).error.None?
    ensures var e := CitrateTransport(ms, rs);
      |e.reactions| == |rs| &&
      e.reactions[|rs| - 1].stoich == map["cit_e" := -1.0] &&
      e.reactions[|rs| - 1].lb == 0.0 && e.reactions[|rs| - 1].ub == 1000.0 &&
      exists t :: 0 <= t < |rs| - 1 && e.reactions[t].id == "CITt2" && e.reactions[t].name == CitrateTransportName
  {
    var c := FindMetabolite(ms, "cit_c").value;
    var x := FindReaction(rs, "EX_cit_e").value;
    var ms' := if FindMetabolite(ms, "cit_e").Some? then ms else ms + [ExternalCitrate(ms[c])];
    var rs' := WithoutReactionAt(rs, x) + [CitrateExchange(ExternalCitrate(ms[c]))];
    assert CitrateTransport(ms, rs) == CitrateSymport(ms', rs');
    CitrateSymportEffect(ms', rs');
  }

  /** The metabolite ids of `ms` are pairwise different (as in a cobra model). */
  ghost predicate UniqueIds(ms: seq<Metabolite>)
  {
    forall i, j :: 0 <= i < j < |ms| ==> ms[i].id != ms[j].id
  }

  lemma SingleBalance(ms: seq<Metabolite>, i: nat, a: real, k: string)
    requires UniqueIds(ms) && i < |ms|
    ensures Balance(ms, map[ms[i].id := a], k) == a * Get(Composition(ms[i]), k)
  {
    assert forall j :: 0 <= j < |ms| && j != i ==> ms[j].id != ms[i].id by {
      forall j | 0 <= j < |ms| && j != i ensures ms[j].id != ms[i].id {
        if j < i { assert ms[j].id != ms[i].id; } else { assert ms[i].id != ms[j].id; }
      }
    }
    BalanceSingle(ms, i, a, k);
  }

  /** Two different metabolites of the list contribute their coefficients times their
      compositions. */
  lemma TwoMetaboliteBalance(ms: seq<Metabolite>, i: nat, j: nat, a: real, b: real, k: string)
    requires UniqueIds(ms) && i < |ms| && j < |ms| && i != j
    ensures Balance(ms, map[ms[i].id := a, ms[j].id := b], k)
      == a * Get(Composition(ms[i]), k) + b * Get(Composition(ms[j]), k)
  {
    var d := map[ms[i].id := a, ms[j].id := b];
    var di := map[ms[i].id := a];
    var dj := map[ms[j].id := b];
    assert forall id :: Get(d, id) == Get(AddMetabolites(di, dj), id);
    BalanceSameCoefficients(ms, d, AddMetabolites(di, dj), k);
    BalanceAdd(ms, di, dj, k);
    SingleBalance(ms, i, a, k);
    SingleBalance(ms, j, b, k);
  }

  lemma OppositeTerms(h: real, x: real)
    ensures h * x + (-h) * x == 0.0
  {
  }

  /** The citrate pair added with opposite coefficients contributes nothing to any
      element or to the charge. */
  lemma CitratePairBalance(ms: seq<Metabolite>, ic: nat, ie: nat, h: real, k: string)
    requires UniqueIds(ms)
    requires ic < |ms| && ie < |ms| && ms[ic].id == "cit_c" && ms[ie].id == "cit_e"
    requires Composition(ms[ic]) == Composition(ms[ie])
    ensures Balance(ms, map["cit_c" := h, "cit_e" := -h], k) == 0.0
  {
    TwoMetaboliteBalance(ms, ic, ie, h, -h, k);
    OppositeTerms(h, Get(Composition(ms[ic]), k));
  }

  /** The edit leaves the amount of every element and of the charge unchanged. */
  lemma CitrateEditBalanceAt(ms: seq<Metabolite>, st: Vec, ic: nat, ie: nat, k: string)
    requires UniqueIds(ms)
    requires ic < |ms| && ie < |ms| && ms[ic].id == "cit_c" && ms[ie].id == "cit_e"
    requires Composition(ms[ic]) == Composition(ms[ie])
    requires "h_c" in st && "h_e" in st && st["h_c"] == -st["h_e"]
    ensures CitrateEdit(st).Some? && Balance(ms, CitrateEdit(st).value, k) == Balance(ms, st, k)
  {
    var h := st["h_c"];
    var d := map["cit_c" := st["h_c"], "cit_e" := st["h_e"]];
    assert d == map["cit_c" := h, "cit_e" := -h];
    BalanceAdd(ms, st, d, k);
    CitratePairBalance(ms, ic, ie, h, k);
  }

  /** A symport that moves one proton in (h_e consumed, h_c produced in equal amount)
      stays mass- and charge-balanced once citrate rides along, because cit_e has
      cit_c's composition. */
  lemma CitrateEditBalanced(ms: seq<Metabolite>, st: Vec, ic: nat, ie: nat)
    requires UniqueIds(ms)
    requires ic < |ms| && ie < |ms| && ms[ic].id == "cit_c" && ms[ie].id == "cit_e"
    requires Composition(ms[ic]) == Composition(ms[ie])
    requires "h_c" in st && "h_e" in st && st["h_c"] == -st["h_e"]
    ensures CitrateEdit(st).Some?
    ensures MassBalance(ms, CitrateEdit(st).value) == MassBalance(ms, st)
  {
    var st' := CitrateEdit(st).value;
    forall k ensures Get(MassBalance(ms, st'), k) == Get(MassBalance(ms, st), k) {
      CitrateEditBalanceAt(ms, st, ic, ie, k);
    }
    NoZerosExtensional(MassBalance(ms, st'), MassBalance(ms, st));
  }

  // ---------------------------------------------------------------- FE2OR

  const Fe2 := "fe2_c"
  const Fe2Duplicate := "fe2_DUPLICATED_c"

  /** cobra's `Metabolite.remove_from_model()`: every reaction loses the metabolite. */
  function WithoutMetabolite(rs: seq<Reaction>, id: string): (r: seq<Reaction>)
    ensures |r| == |rs|
    ensures forall j :: 0 <= j < |rs| ==> r[j] == rs[j].(stoich := rs[j].stoich - {id})
  {
    seq(|rs|, j requires 0 <= j < |rs| => rs[j].(stoich := rs[j].stoich - {id}))
  }

  /** The iron cell: FE2OR gains +2 fe2_c and -2 fe2_DUPLICATED_c, then the duplicate
      leaves the model and every reaction. */
  function MergeIron(ms: seq<Metabolite>, rs: seq<Reaction>): Edited
  {
    match FindMetabolite(ms, Fe2)
    case None => Edited(ms, rs, Some(Fe2))
    case Some(_) =>
      match FindMetabolite(ms, Fe2Duplicate)
      case None => Edited(ms, rs, Some(Fe2Duplicate))
      case Some(dup) =>
        match FindReaction(rs, "FE2OR")
        case None => Edited(ms, rs, Some("FE2OR"))
        case Some(t) => Edited(ms[..dup] + ms[dup + 1..], MergedIronReactions(rs, t), None)
  }

  /** The reactions once FE2OR (at `t`) has gained +2 fe2_c and -2 fe2_DUPLICATED_c
      and the duplicate has left every reaction. */
  function MergedIronReactions(rs: seq<Reaction>, t: nat): seq<Reaction>
    requires t < |rs|
  {
    WithoutMetabolite(rs[t := rs[t].(stoich := AddMetabolites(rs[t].stoich, map[Fe2 := 2.0, Fe2Duplicate := -2.0]))], Fe2Duplicate)
  }

  method MergeDuplicateIron(model: Model) returns (error: Option<string>)
    modifies model`metabolites, model`reactions
    ensures Edited(model.metabolites, model.reactions, error)
      == MergeIron(old(model.metabolites), old(model.reactions))
  {
    if FindMetabolite(model.metabolites, Fe2).None? {
      return Some(Fe2);
    }
    var dup := FindMetabolite(model.metabolites, Fe2Duplicate);
    if dup.None? {
      return Some(Fe2Duplicate);
    }
    var t := FindReaction(model.reactions, "FE2OR");
    if t.None? {
      return Some("FE2OR");
    }
    var fe2or := model.reactions[t.value];
    model.reactions := model.reactions[t.value := fe2or.(stoich := AddMetabolites(fe2or.stoich, map[Fe2 := 2.0, Fe2Duplicate := -2.0]))];
    model.metabolites := model.metabolites[..dup.value] + model.metabolites[dup.value + 1..];
    model.reactions := WithoutMetabolite(model.reactions, Fe2Duplicate);
    error := None;
  }

  /** Removing the only metabolite with the duplicate's id keeps all the others. */
  lemma WithoutDuplicate(ms: seq<Metabolite>, dup: nat)
    requires UniqueIds(ms) && dup < |ms| && ms[dup].id == Fe2Duplicate
    ensures forall m :: m in ms[..dup] + ms[dup + 1..] ==> m.id != Fe2Duplicate
    ensures forall m :: m in ms && m.id != Fe2Duplicate ==> m in ms[..dup] + ms[dup + 1..]
  {
    var left := ms[..dup] + ms[dup + 1..];
    assert ms == ms[..dup] + [ms[dup]] + ms[dup + 1..];
    forall m | m in left ensures m.id != Fe2Duplicate {
      var i :| 0 <= i < |left| && left[i] == m;
      if i < dup { assert m == ms[i]; } else { assert m == ms[i + 1]; }
    }
  }

  /** The coefficients of a reaction after the merge. */
  lemma MergedIronReaction(rs: seq<Reaction>, t: nat, j: nat, k: string)
    requires t < |rs| && j < |rs|
    ensures Fe2Duplicate !in MergedIronReactions(rs, t)[j].stoich
    ensures k != Fe2Duplicate ==>
      Get(MergedIronReactions(rs, t)[j].stoich, k)
      == Get(rs[j].stoich, k) + (if t == j && k == Fe2 then 2.0 else 0.0)
  {
  }

  /** After the merge no metabolite and no reaction mentions the duplicate; FE2OR
      carries 2 more fe2_c; every other coefficient of every reaction is unchanged.
      When one of the three lookups fails nothing changes. */
  lemma MergeIronEffect(ms: seq<Metabolite>, rs: seq<Reaction>, j: nat, k: string)
    requires UniqueIds(ms)
    ensures var e := MergeIron(ms, rs);
      && (e.error.Some? ==> e.metabolites == ms && e.reactions == rs)
      && (e.error.None? ==>
            && |e.metabolites| == |ms| - 1
            && (forall m :: m in e.metabolites ==> m.id != Fe2Duplicate)
            && (forall m :: m in ms && m.id != Fe2Duplicate ==> m in e.metabolites)
            && |e.reactions| == |rs|
            && (j < |rs| ==> Fe2Duplicate !in e.reactions[j].stoich)
            && (j < |rs| && k != Fe2Duplicate ==>
                  Get(e.reactions[j].stoich, k)
                  == Get(rs[j].stoich, k) + (if FindReaction(rs, "FE2OR") == Some(j) && k == Fe2 then 2.0 else 0.0)))
  {
    if MergeIron(ms, rs).error.None? {
      var dup := FindMetabolite(ms, Fe2Duplicate).value;
      WithoutDuplicate(ms, dup);
      if j < |rs| {
        MergedIronReaction(rs, FindReaction(rs, "FE2OR").value, j, k);
      }
    }
  }
}
