/*
  Applying the curated mass- and charge-balance corrections to the iCBI model
  (iCBI/5_apply_mass_and_charge_balance_corrections.py): the curated metabolite
  table, where only the first row of each metabolite counts, the two curated
  reaction tables, where rows marked "ignore" are skipped, and the report of the
  imbalances that remain.
*/
module ApplyCorrections {
  import opened Common
  import opened Cobra
  import opened Sorting
  import opened Metadata

  // ---------------------------------------------------------------- the missing metabolite

  /** `add_metabolites` of the iSG metabolite (skipped when the id is already there),
      then its compartment set to "c0". */
  method AddMissingMetabolite(model: Model, isgMet: Metabolite)
    modifies model`metabolites
    ensures FindMetabolite(old(model.metabolites), isgMet.id).None? ==>
      model.metabolites == old(model.metabolites) + [isgMet.(compartment := "c0")]
    ensures FindMetabolite(old(model.metabolites), isgMet.id).Some? ==>
      var p := FindMetabolite(old(model.metabolites), isgMet.id).value;
      model.metabolites == old(model.metabolites)[p := old(model.metabolites)[p].(compartment := "c0")]
  {
    var found := FindMetabolite(model.metabolites, isgMet.id);
    if found.None? {
      model.metabolites := model.metabolites + [isgMet];
      FindMetaboliteAppended(old(model.metabolites), isgMet);
      found := FindMetabolite(model.metabolites, isgMet.id);
    }
    var p := found.value;
    model.metabolites := model.metabolites[p := model.metabolites[p].(compartment := "c0")];
  }

  /** An id missing from a list is found at the end once it is appended. */
  lemma {:induction false} FindMetaboliteAppended(ms: seq<Metabolite>, m: Metabolite)
    requires FindMetabolite(ms, m.id).None?
    ensures FindMetabolite(ms + [m], m.id) == Some(|ms|)
  {
    if ms != [] {
      assert (ms + [m])[1..] == ms[1..] + [m];
      FindMetaboliteAppended(ms[1..], m);
    }
  }

  // ---------------------------------------------------------------- metabolite corrections

  /** A row of `metabolites_curated.csv`; an empty formula cell reads as NaN (None). */
  datatype MetCorrection = MetCorrection(icbiId: string, curatedFormula: Option<string>, curatedCharge: Option<real>)

  /** `str` of the formula cell: NaN becomes the text "nan". */
  function FormulaText(f: Option<string>): string
  {
    if f.Some? then f.value else "nan"
  }

  function Corrected(m: Metabolite, c: MetCorrection): Metabolite
  {
    m.(formula := FormulaText(c.curatedFormula), charge := c.curatedCharge)
  }

  /** The first row for an id, if any. */
  function FirstRow(rows: seq<MetCorrection>, id: string): Option<MetCorrection>
  {
    if rows == [] then None
    else match FirstRow(rows[..|rows| - 1], id)
      case Some(c) => Some(c)
      case None => if rows[|rows| - 1].icbiId == id then Some(rows[|rows| - 1]) else None
  }

  /** `get_by_id` succeeds for every row of the table. */
  predicate KnownMetabolites(ms: seq<Metabolite>, rows: seq<MetCorrection>)
  {
    forall k :: 0 <= k < |rows| ==> FindMetabolite(ms, rows[k].icbiId).Some?
  }

  /** The metabolites after the rows are applied in order, each id only the first
      time it is met (the `applied` list). */
  function CorrectAll(ms: seq<Metabolite>, rows: seq<MetCorrection>): (r: seq<Metabolite>)
    requires KnownMetabolites(ms, rows)
    ensures |r| == |ms| && forall j :: 0 <= j < |ms| ==> r[j].id == ms[j].id
  {
    if rows == [] then ms
    else
      var prev := CorrectAll(ms, rows[..|rows| - 1]);
      var last := rows[|rows| - 1];
      if FirstRow(rows[..|rows| - 1], last.icbiId).Some? then prev
      else
        var p := FindMetabolite(ms, last.icbiId).value;
        prev[p := Corrected(prev[p], last)]
  }

  /** The metabolite-correction loop. */
  method ApplyMetaboliteCorrections(model: Model, rows: seq<MetCorrection>)
    requires KnownMetabolites(model.metabolites, rows)
    modifies model`metabolites
    ensures model.metabolites == CorrectAll(old(model.metabolites), rows)
  {
    ghost var ms := model.metabolites;
    var applied: seq<string> := [];
    var i := 0;
    KnownPrefix(ms, rows, 0);
    while i < |rows|
      invariant 0 <= i <= |rows| && KnownMetabolites(ms, rows)
      invariant KnownMetabolites(ms, rows[..i])
      invariant model.metabolites == CorrectAll(ms, rows[..i])
      invariant AppliedIds(applied, rows[..i])
    {
      applied := CorrectRow(model, ms, rows, i, applied);
      i := i + 1;
    }
    assert rows[..i] == rows;
  }

  /** One pass of the metabolite-correction loop: the row is applied unless its id
      already was. */
  method CorrectRow(model: Model, ghost ms: seq<Metabolite>, rows: seq<MetCorrection>, i: nat, applied: seq<string>)
    returns (applied': seq<string>)
    requires KnownMetabolites(ms, rows) && i < |rows|
    requires KnownMetabolites(ms, rows[..i]) && model.metabolites == CorrectAll(ms, rows[..i])
    requires AppliedIds(applied, rows[..i])
    modifies model`metabolites
    ensures KnownMetabolites(ms, rows[..i + 1]) && model.metabolites == CorrectAll(ms, rows[..i + 1])
    ensures AppliedIds(applied', rows[..i + 1])
  {
    CorrectStep(ms, rows, i);
    AppliedStep(applied, rows, i);
    var r := rows[i];
    applied' := applied;
    if r.icbiId !in applied {
      FindMetaboliteSameIds(ms, model.metabolites, r.icbiId);
      var p := FindMetabolite(model.metabolites, r.icbiId).value;
      CorrectMetabolite(model, p, r);
      applied' := applied + [r.icbiId];
    }
  }

  /** The formula and then the charge of one metabolite set from a row. */
  method CorrectMetabolite(model: Model, p: nat, r: MetCorrection)
    requires p < |model.metabolites|
    modifies model`metabolites
    ensures model.metabolites == old(model.metabolites)[p := Corrected(old(model.metabolites)[p], r)]
  {
    model.metabolites := model.metabolites[p := model.metabolites[p].(formula := FormulaText(r.curatedFormula))];
    model.metabolites := model.metabolites[p := model.metabolites[p].(charge := r.curatedCharge)];
  }

  /** `applied` holds exactly the ids that have a row among `rows`. */
  ghost predicate AppliedIds(applied: seq<string>, rows: seq<MetCorrection>)
  {
    forall x :: x in applied <==> FirstRow(rows, x).Some?
  }

  /** One row of the loop for the `applied` list: an id already applied is
      skipped, and a new one is added. */
  lemma AppliedStep(applied: seq<string>, rows: seq<MetCorrection>, i: nat)
    requires i < |rows| && AppliedIds(applied, rows[..i])
    ensures (rows[i].icbiId in applied) == FirstRow(rows[..i], rows[i].icbiId).Some?
    ensures rows[i].icbiId in applied ==> AppliedIds(applied, rows[..i + 1])
    ensures rows[i].icbiId !in applied ==> AppliedIds(applied + [rows[i].icbiId], rows[..i + 1])
  {
    assert rows[..i + 1][..i] == rows[..i];
  }

  /** Every prefix of a table whose ids are all known has only known ids. */
  lemma KnownPrefix(ms: seq<Metabolite>, rows: seq<MetCorrection>, i: nat)
    requires KnownMetabolites(ms, rows) && i <= |rows|
    ensures KnownMetabolites(ms, rows[..i])
  {
    assert forall k :: 0 <= k < i ==> rows[..i][k] == rows[k];
  }

  /** One row of the loop: the earlier rows plus this one, for the first rows and
      for the corrected metabolites. */
  lemma CorrectStep(ms: seq<Metabolite>, rows: seq<MetCorrection>, i: nat)
    requires KnownMetabolites(ms, rows) && i < |rows|
    ensures KnownMetabolites(ms, rows[..i]) && KnownMetabolites(ms, rows[..i + 1])
    ensures FindMetabolite(ms, rows[i].icbiId).Some?
    ensures CorrectAll(ms, rows[..i + 1]) ==
      if FirstRow(rows[..i], rows[i].icbiId).Some? then CorrectAll(ms, rows[..i])
      else
        var p := FindMetabolite(ms, rows[i].icbiId).value;
        CorrectAll(ms, rows[..i])[p := Corrected(CorrectAll(ms, rows[..i])[p], rows[i])]
  {
    KnownPrefix(ms, rows, i);
    KnownPrefix(ms, rows, i + 1);
    assert rows[..i + 1][..i] == rows[..i];
  }

  /** FirstRow finds the earliest row with the id, and nothing when there is none. */
  lemma {:induction false} FirstRowMeaning(rows: seq<MetCorrection>, id: string)
    ensures FirstRow(rows, id).None? <==> forall k :: 0 <= k < |rows| ==> rows[k].icbiId != id
    ensures FirstRow(rows, id).Some? ==>
      (exists k :: 0 <= k < |rows| && rows[k] == FirstRow(rows, id).value && rows[k].icbiId == id
                   && forall k' :: 0 <= k' < k ==> rows[k'].icbiId != id)
  {
    if rows != [] {
      var init := rows[..|rows| - 1];
      FirstRowMeaning(init, id);
      assert forall k :: 0 <= k < |init| ==> init[k] == rows[k];
      if FirstRow(init, id).None? && rows[|rows| - 1].icbiId == id {
        assert rows[|rows| - 1] == FirstRow(rows, id).value;
      }
    }
  }

  /** Only the first row for a metabolite takes effect: a metabolite with rows ends
      with the first row's formula text and charge, and every other metabolite is
      unchanged. (`get_by_id` reaches the first metabolite with an id.) */
  lemma {:induction false} FirstRowWins(ms: seq<Metabolite>, rows: seq<MetCorrection>, j: nat)
    requires KnownMetabolites(ms, rows) && j < |ms|
    ensures CorrectAll(ms, rows)[j] ==
      if FindMetabolite(ms, ms[j].id) == Some(j) && FirstRow(rows, ms[j].id).Some?
      then Corrected(ms[j], FirstRow(rows, ms[j].id).value)
      else ms[j]
  {
    if rows != [] {
      var init := rows[..|rows| - 1];
      var last := rows[|rows| - 1];
      assert KnownMetabolites(ms, init) by {
        assert forall k :: 0 <= k < |init| ==> init[k] == rows[k];
      }
      FirstRowWins(ms, init, j);
      if FirstRow(init, last.icbiId).None? {
        var p := FindMetabolite(ms, last.icbiId).value;
        if j == p {
          FirstRowWins(ms, init, p);
        }
      }
    }
  }

  // ---------------------------------------------------------------- reaction corrections

  /** A row of a curated imbalance table. */
  datatype RxnCorrection = RxnCorrection(icbiId: string, action: string, curatedRxn: string)

  /** What `build_reaction_from_string` makes of an equation: the new stoichiometry
      (the old one is removed first) and the bounds the arrow gives. The parser is a
      library routine and a parameter of the model. */
  datatype Built = Built(stoich: Vec, lb: real, ub: real)
  type Builder = string -> Built

  function Rebuilt(r: Reaction, b: Built): Reaction
  {
    r.(stoich := b.stoich, lb := b.lb, ub := b.ub)
  }

  /** `get_by_id` succeeds for every row that is not ignored. */
  predicate KnownReactions(rs: seq<Reaction>, rows: seq<RxnCorrection>)
  {
    forall k :: 0 <= k < |rows| && rows[k].action != "ignore" ==> FindReaction(rs, rows[k].icbiId).Some?
  }

  /** The reactions after the rows are applied in order. */
  function ApplyAll(rs: seq<Reaction>, rows: seq<RxnCorrection>, build: Builder): (r: seq<Reaction>)
    requires KnownReactions(rs, rows)
    ensures |r| == |rs| && forall j :: 0 <= j < |rs| ==> r[j].id == rs[j].id
  {
    if rows == [] then rs
    else
      var prev := ApplyAll(rs, rows[..|rows| - 1], build);
      var last := rows[|rows| - 1];
      if last.action == "ignore" then prev
      else
        var p := FindReaction(rs, last.icbiId).value;
        prev[p := Rebuilt(prev[p], build(last.curatedRxn))]
  }

  /** `apply_corrections` on one table. */
  method ApplyTable(model: Model, rows: seq<RxnCorrection>, build: Builder)
    requires KnownReactions(model.reactions, rows)
    modifies model`reactions
    ensures model.reactions == ApplyAll(old(model.reactions), rows, build)
  {
    ghost var rs := model.reactions;
    var i := 0;
    while i < |rows|
      invariant 0 <= i <= |rows|
      invariant KnownReactions(rs, rows[..i])
      invariant model.reactions == ApplyAll(rs, rows[..i], build)
    {
      assert rows[..i + 1][..i] == rows[..i];
      var r := rows[i];
      if r.action != "ignore" {
        FindReactionSameIds(rs, model.reactions, r.icbiId);
        var p := FindReaction(model.reactions, r.icbiId).value;
        model.reactions := model.reactions[p := Rebuilt(model.reactions[p], build(r.curatedRxn))];
      }
      i := i + 1;
    }
    assert rows[..i] == rows;
  }

  /** The proton table, then the other table. */
  method ApplyBothTables(model: Model, protons: seq<RxnCorrection>, other: seq<RxnCorrection>, build: Builder)
    requires KnownReactions(model.reactions, protons) && KnownReactions(model.reactions, other)
    modifies model`reactions
    ensures KnownReactions(old(model.reactions), protons + other)
    ensures model.reactions == ApplyAll(old(model.reactions), protons + other, build)
  {
    ghost var rs := model.reactions;
    ApplyTable(model, protons, build);
    KnownReactionsSameIds(rs, model.reactions, other);
    ApplyTable(model, other, build);
    ApplyAllAppend(rs, protons, other, build);
  }

  /** The last row for an id that is not ignored, if any. */
  function LastApplied(rows: seq<RxnCorrection>, id: string): Option<RxnCorrection>
  {
    if rows == [] then None
    else if rows[|rows| - 1].action != "ignore" && rows[|rows| - 1].icbiId == id then Some(rows[|rows| - 1])
    else LastApplied(rows[..|rows| - 1], id)
  }

  lemma KnownReactionsSameIds(rs: seq<Reaction>, rs': seq<Reaction>, rows: seq<RxnCorrection>)
    requires |rs| == |rs'| && forall j :: 0 <= j < |rs| ==> rs[j].id == rs'[j].id
    requires KnownReactions(rs, rows)
    ensures KnownReactions(rs', rows)
  {
    forall k | 0 <= k < |rows| && rows[k].action != "ignore" ensures FindReaction(rs', rows[k].icbiId).Some? {
      FindReactionSameIds(rs, rs', rows[k].icbiId);
    }
  }

  /** Applying two tables one after the other is applying their concatenation. */
  lemma {:induction false} ApplyAllAppend(rs: seq<Reaction>, p: seq<RxnCorrection>, o: seq<RxnCorrection>, build: Builder)
    requires KnownReactions(rs, p) && KnownReactions(rs, o)
    ensures KnownReactions(ApplyAll(rs, p, build), o)
    ensures KnownReactions(rs, p + o)
    ensures ApplyAll(ApplyAll(rs, p, build), o, build) == ApplyAll(rs, p + o, build)
  {
    var mid := ApplyAll(rs, p, build);
    KnownReactionsSameIds(rs, mid, o);
    assert KnownReactions(rs, p + o) by {
      forall k | 0 <= k < |p + o| && (p + o)[k].action != "ignore" ensures FindReaction(rs, (p + o)[k].icbiId).Some? {
        if k >= |p| {
          assert (p + o)[k] == o[k - |p|];
        }
      }
    }
    if o != [] {
      var init := o[..|o| - 1];
      var last := o[|o| - 1];
      assert KnownReactions(rs, init) by {
        assert forall k :: 0 <= k < |init| ==> init[k] == o[k];
      }
      ApplyAllAppend(rs, p, init, build);
      assert (p + o)[..|p + o| - 1] == p + init;
      assert (p + o)[|p + o| - 1] == last;
      if last.action != "ignore" {
        FindReactionSameIds(rs, mid, last.icbiId);
      }
    } else {
      assert p + o == p;
    }
  }

  /** The last row of a concatenation for an id comes from the second table when it
      has one: the other table's rows win over the proton table's. */
  lemma {:induction false} LastAppliedAppend(p: seq<RxnCorrection>, o: seq<RxnCorrection>, id: string)
    ensures LastApplied(p + o, id) == if LastApplied(o, id).Some? then LastApplied(o, id) else LastApplied(p, id)
  {
    if o == [] {
      assert p + o == p;
    } else {
      assert (p + o)[..|p + o| - 1] == p + o[..|o| - 1];
      LastAppliedAppend(p, o[..|o| - 1], id);
    }
  }

  /** Only rows that are not ignored change a reaction, and the last such row for a
      reaction decides its stoichiometry and bounds; every other field, and every
      reaction without such a row, is unchanged. */
  lemma {:induction false} LastRowWins(rs: seq<Reaction>, rows: seq<RxnCorrection>, build: Builder, j: nat)
    requires KnownReactions(rs, rows) && j < |rs|
    ensures ApplyAll(rs, rows, build)[j] ==
      if FindReaction(rs, rs[j].id) == Some(j) && LastApplied(rows, rs[j].id).Some?
      then Rebuilt(rs[j], build(LastApplied(rows, rs[j].id).value.curatedRxn))
      else rs[j]
  {
    if rows != [] {
      var init := rows[..|rows| - 1];
      assert KnownReactions(rs, init) by {
        assert forall k :: 0 <= k < |init| ==> init[k] == rows[k];
      }
      LastRowWins(rs, init, build, j);
    }
  }

  // ---------------------------------------------------------------- remaining imbalances

  /** A row of `imbalances_remaining.csv` (the equation string is not modelled). */
  datatype RemainingRow = RemainingRow(icbiId: string, mb: Vec)

  /** The triaged reactions whose balance is not empty, in reaction order. */
  function Remaining(ms: seq<Metabolite>, rs: seq<Reaction>): seq<RemainingRow>
  {
    if rs == [] then []
    else
      var r := rs[|rs| - 1];
      Remaining(ms, rs[..|rs| - 1]) + if Imbalanced(r, ms) then [RemainingRow(r.id, MassBalance(ms, r.stoich))] else []
  }

  /** The loop that collects the remaining imbalances. */
  method RemainingImbalances(model: Model) returns (rows: seq<RemainingRow>)
    ensures rows == Remaining(model.metabolites, model.reactions)
  {
    var ms := model.metabolites;
    var rs := model.reactions;
    rows := [];
    var i := 0;
    while i < |rs|
      invariant 0 <= i <= |rs|
      invariant rows == Remaining(ms, rs[..i])
    {
      assert rs[..i + 1][..i] == rs[..i];
      var rxn := rs[i];
      if !Excluded(rxn.id) {
        var mb := MassBalance(ms, rxn.stoich);
        if mb != map[] {
          rows := rows + [RemainingRow(rxn.id, mb)];
        }
      }
      i := i + 1;
    }
    assert rs[..i] == rs;
  }

  /** The report lists exactly the reactions that are not exchange, biomass or demand
      reactions and whose mass balance is not empty, each with its balance. */
  lemma {:induction false} RemainingMeaning(ms: seq<Metabolite>, rs: seq<Reaction>, row: RemainingRow)
    ensures row in Remaining(ms, rs) <==>
      exists i :: 0 <= i < |rs| && Imbalanced(rs[i], ms) && row == RemainingRow(rs[i].id, MassBalance(ms, rs[i].stoich))
  {
    if rs != [] {
      var init := rs[..|rs| - 1];
      RemainingMeaning(ms, init, row);
      assert forall i :: 0 <= i < |init| ==> init[i] == rs[i];
    }
  }

  predicate RemainingLe(a: RemainingRow, b: RemainingRow)
  {
    LexLe(a.icbiId, b.icbiId)
  }

  lemma RemainingLePreorder()
    ensures TotalPreorder(RemainingLe)
  {
    forall a: RemainingRow, b: RemainingRow ensures RemainingLe(a, b) || RemainingLe(b, a) {
      LexLeTotal(a.icbiId, b.icbiId);
    }
    forall a: RemainingRow, b: RemainingRow, c: RemainingRow | RemainingLe(a, b) && RemainingLe(b, c)
      ensures RemainingLe(a, c)
    {
      LexLeTrans(a.icbiId, b.icbiId, c.icbiId);
    }
  }

  /** The remaining-imbalances report sorted by reaction id. With no remaining
      imbalance the frame has no `icbi_id` column and `sort_values` raises KeyError. */
  function RemainingReport(rows: seq<RemainingRow>): Result<seq<RemainingRow>, string>
  {
    if rows == [] then Err("KeyError") else Ok(SortBy(rows, RemainingLe))
  }

  /** The report fails exactly when nothing remains imbalanced, and otherwise holds
      the same rows, ascending by reaction id. */
  lemma RemainingReportSorted(rows: seq<RemainingRow>)
    ensures RemainingReport(rows).Err? <==> rows == []
    ensures RemainingReport(rows).Err? ==> RemainingReport(rows).error == "KeyError"
    ensures RemainingReport(rows).Ok? ==> multiset(RemainingReport(rows).value) == multiset(rows)
    ensures RemainingReport(rows).Ok? ==> forall i, j :: 0 <= i < j < |RemainingReport(rows).value| ==>
      LexLe(RemainingReport(rows).value[i].icbiId, RemainingReport(rows).value[j].icbiId)
  {
    RemainingLePreorder();
    SortBySorted(rows, RemainingLe);
  }
}
