/*
  The iSG nomenclature upgrade (steps/4_upgrade_nomenclature_and_metadata.py):
  reactions and metabolites renamed from the curated nomenclature tables, the
  text substitution of old locus tags and subsystem names over the model's
  serialised lines, and the gene names, gene products and old-GPR notes added
  afterwards.
*/
module Nomenclature {
  import opened Common
  import opened Text
  import opened Cobra

  /** Why a renaming loop stops: `get_by_id` raised KeyError, one of the two
      assertions failed, or the id setter raised ValueError because the model already
      has an object with the new id. */
  datatype Failure = UnknownId(id: string) | MissingCompartment(id: string) | MissingCharge(id: string) | IdTaken(id: string)

  /** `s.replace(' ', '')`. */
  function NoSpaces(s: string): (r: string)
    ensures ' ' !in r
  {
    RemoveChar(s, ' ')
  }

  // ---------------------------------------------------------------- update_reactions

  /** A row of `reaction_nomenclature-curated.csv`. */
  datatype ReactionRow = ReactionRow(iatId: string, isgId: string, isgName: string)

  /** One row of `update_reactions` over the reactions and the objective: the lookup
      by `iat_id`, the id setter, then the name. */
  function ReactionRowStep(rs: seq<Reaction>, objective: string, row: ReactionRow): (r: (seq<Reaction>, string, Option<Failure>))
    ensures |r.0| == |rs|
  {
    match FindReaction(rs, row.iatId)
    case None => (rs, objective, Some(UnknownId(row.iatId)))
    case Some(p) =>
      match SetReactionId(rs, objective, p, NoSpaces(row.isgId))
      case None => (rs, objective, Some(IdTaken(NoSpaces(row.isgId))))
      case Some(next) => (next.0[p := next.0[p].(name := row.isgName)], next.1, None)
  }

  /** A row fails with KeyError exactly when no reaction has its `iat_id`, and with
      ValueError exactly when the new id is already another reaction's; then nothing
      changes. Otherwise the first reaction with that id takes the new id and name, the
      objective follows it, and nothing else changes. */
  lemma ReactionRowStepMeaning(rs: seq<Reaction>, objective: string, row: ReactionRow)
    ensures var r := ReactionRowStep(rs, objective, row);
      var newId := NoSpaces(row.isgId);
      && (r.2 == Some(UnknownId(row.iatId)) <==> forall j :: 0 <= j < |rs| ==> rs[j].id != row.iatId)
      && (r.2 == Some(IdTaken(newId)) <==>
           exists p :: 0 <= p < |rs| && rs[p].id == row.iatId && newId != row.iatId &&
             exists j :: 0 <= j < |rs| && rs[j].id == newId)
      && (r.2.Some? ==> r.0 == rs && r.1 == objective)
      && (r.2.None? ==>
           exists p :: 0 <= p < |rs| && rs[p].id == row.iatId &&
             r.0 == rs[p := rs[p].(id := newId, name := row.isgName)] &&
             r.1 == if objective == row.iatId then newId else objective)
  {
    var newId := NoSpaces(row.isgId);
    match FindReaction(rs, row.iatId)
    case None =>
    case Some(p) =>
      assert rs[p].id == row.iatId;
      if SetReactionId(rs, objective, p, newId).Some? {
        var next := SetReactionId(rs, objective, p, newId).value;
        assert next.0[p := next.0[p].(name := row.isgName)] == rs[p := rs[p].(id := newId, name := row.isgName)];
      }
  }

  /** The reactions and objective after the rows are applied in order, and the error
      that stopped the loop, if any (earlier rows are then already applied). Each row
      looks its reaction up among the ids as they are at that point. */
  function RenameReactions(rs: seq<Reaction>, objective: string, rows: seq<ReactionRow>): (r: (seq<Reaction>, string, Option<Failure>))
    ensures |r.0| == |rs|
  {
    if rows == [] then (rs, objective, None)
    else
      var prev := RenameReactions(rs, objective, rows[..|rows| - 1]);
      if prev.2.Some? then prev
      else ReactionRowStep(prev.0, prev.1, rows[|rows| - 1])
  }

  method UpdateReactions(model: Model, rows: seq<ReactionRow>) returns (err: Option<Failure>)
    modifies model`reactions, model`objective
    ensures (model.reactions, model.objective, err) == RenameReactions(old(model.reactions), old(model.objective), rows)
  {
    ghost var rs := model.reactions;
    ghost var obj := model.objective;
    var i := 0;
    while i < |rows|
      invariant 0 <= i <= |rows|
      invariant (model.reactions, model.objective, None) == RenameReactions(rs, obj, rows[..i])
    {
      assert rows[..i + 1][..i] == rows[..i];
      var row := rows[i];
      var found := FindReaction(model.reactions, row.iatId);
      if found.None? {
        RenameReactionsStops(rs, obj, rows, i + 1);
        return Some(UnknownId(row.iatId));
      }
      var p := found.value;
      var setter := SetReactionId(model.reactions, model.objective, p, NoSpaces(row.isgId));
      if setter.None? {
        RenameReactionsStops(rs, obj, rows, i + 1);
        return Some(IdTaken(NoSpaces(row.isgId)));
      }
      model.reactions, model.objective := setter.value.0, setter.value.1;
      model.reactions := model.reactions[p := model.reactions[p].(name := row.isgName)];
      i := i + 1;
    }
    assert rows[..i] == rows;
    err := None;
  }

  /** Once a row has failed, the later rows change nothing. */
  lemma {:induction false} RenameReactionsStops(rs: seq<Reaction>, objective: string, rows: seq<ReactionRow>, n: nat)
    requires n <= |rows| && RenameReactions(rs, objective, rows[..n]).2.Some?
    ensures RenameReactions(rs, objective, rows) == RenameReactions(rs, objective, rows[..n])
  {
    if n < |rows| {
      var init := rows[..|rows| - 1];
      assert init[..n] == rows[..n];
      RenameReactionsStops(rs, objective, init, n);
    } else {
      assert rows[..n] == rows;
    }
  }

  /** Every reaction either keeps its id and name or has been renamed by some row:
      its id is that row's iSG id without spaces and its name the row's name. The
      other fields never change. */
  lemma {:induction false} RenameReactionsMeaning(rs: seq<Reaction>, objective: string, rows: seq<ReactionRow>, j: nat)
    requires j < |rs|
    ensures var r := RenameReactions(rs, objective, rows).0[j];
      r.(id := rs[j].id, name := rs[j].name) == rs[j] &&
      ((r.id == rs[j].id && r.name == rs[j].name) ||
       exists k :: 0 <= k < |rows| && r.id == NoSpaces(rows[k].isgId) && r.name == rows[k].isgName)
  {
    if rows != [] {
      var init := rows[..|rows| - 1];
      RenameReactionsMeaning(rs, objective, init, j);
      assert forall k :: 0 <= k < |init| ==> init[k] == rows[k];
      var prev := RenameReactions(rs, objective, init);
      if prev.2.None? {
        ReactionRowStepMeaning(prev.0, prev.1, rows[|rows| - 1]);
      }
    }
  }

  // ---------------------------------------------------------------- update_metabolites

  /** A row of `final_metabolite_nomenclature_charge_curated.csv`. */
  datatype MetaboliteRow = MetaboliteRow(iatId: string, isgId: string, isgName: string, isgFormula: string,
                                         isgCharge: string, isgKegg: string, notes: string)

  /** A new id must end in a compartment suffix. */
  predicate HasCompartment(id: string)
  {
    TakeLast(id, 2) == "_c" || TakeLast(id, 2) == "_e"
  }

  /** Notes under which a missing charge is accepted. */
  predicate AcceptsMissingCharge(note: string)
  {
    StartsWith(note, "generic") || StartsWith(note, "review") || StartsWith(note, "pseudometabolite")
  }

  /** The IS_GENERIC note a row sets, if any. */
  function GenericFlag(note: string): Option<string>
  {
    if StartsWith(note, "generic") then
      var parts := Split(note, ':');
      Some(if |parts| == 1 then "True" else parts[1])
    else None
  }

  /** IS_GENERIC is "True" for a generic note without ':', and otherwise the text
      between its first and second ':'. */
  lemma GenericFlagMeaning(note: string)
    ensures GenericFlag(note).Some? <==> StartsWith(note, "generic")
    ensures StartsWith(note, "generic") && ':' !in note ==> GenericFlag(note) == Some("True")
    ensures StartsWith(note, "generic") && ':' in note ==>
      var p := IndexOf(note, ':');
      GenericFlag(note) == Some(Split(note[p + 1..], ':')[0])
  {
    if ':' in note {
      var p := IndexOf(note, ':');
      SplitAtFirst(note, ':', p);
      assert Split(note, ':')[1] == Split(note, ':')[1..][0];
    } else {
      SplitAbsent(note, ':');
    }
  }

  /** The KEGG_ID and IS_GENERIC notes of a row. */
  function WithNotes(m: Metabolite, row: MetaboliteRow): Metabolite
  {
    var notes := m.notes["KEGG_ID" := Str(row.isgKegg)];
    m.(notes := if GenericFlag(row.notes).Some? then notes["IS_GENERIC" := Str(GenericFlag(row.notes).value)] else notes)
  }

  /** One row applied to its metabolite: the metabolite afterwards and the failed
      assertion, if any. The charge assertion fails after the id, name and formula
      were already set. */
  function RenameMetabolite(m: Metabolite, row: MetaboliteRow): (Metabolite, Option<Failure>)
  {
    var newId := NoSpaces(row.isgId);
    if !HasCompartment(newId) then (m, Some(MissingCompartment(newId)))
    else
      var m1 := m.(id := newId, name := row.isgName, formula := row.isgFormula);
      match ParseInt(row.isgCharge)
      case Some(c) => (WithNotes(m1.(charge := Some(c as real)), row), None)
      case None =>
        if AcceptsMissingCharge(row.notes) then (WithNotes(m1, row), None)
        else (m1, Some(MissingCharge(row.isgId)))
  }

  /** The effect of one row: which assertion fails when, and what a successful row
      sets (an int charge is taken, an unparseable one leaves the old charge). */
  lemma RenameMetaboliteMeaning(m: Metabolite, row: MetaboliteRow)
    ensures var (m', e) := RenameMetabolite(m, row);
      && (e == Some(MissingCompartment(NoSpaces(row.isgId))) <==> !HasCompartment(NoSpaces(row.isgId)))
      && (e == Some(MissingCharge(row.isgId)) <==>
           HasCompartment(NoSpaces(row.isgId)) && ParseInt(row.isgCharge).None? && !AcceptsMissingCharge(row.notes))
      && (e.None? ==>
           && m'.id == NoSpaces(row.isgId) && HasCompartment(m'.id)
           && m'.name == row.isgName && m'.formula == row.isgFormula
           && m'.charge == (if ParseInt(row.isgCharge).Some? then Some(ParseInt(row.isgCharge).value as real) else m.charge)
           && m'.notes["KEGG_ID"] == Str(row.isgKegg)
           && ("IS_GENERIC" in m'.notes <==> "IS_GENERIC" in m.notes || StartsWith(row.notes, "generic"))
           && m'.compartment == m.compartment && m'.annotation == m.annotation)
  {
  }

  /** One row of `update_metabolites` over the metabolites and the reactions: the
      lookup by `iat_id`, the compartment assertion, the id setter (the reactions follow
      the new id), then the remaining fields. */
  function MetaboliteRowStep(ms: seq<Metabolite>, rs: seq<Reaction>, row: MetaboliteRow): (r: (seq<Metabolite>, seq<Reaction>, Option<Failure>))
    ensures |r.0| == |ms| && |r.1| == |rs|
  {
    match FindMetabolite(ms, row.iatId)
    case None => (ms, rs, Some(UnknownId(row.iatId)))
    case Some(p) =>
      var newId := NoSpaces(row.isgId);
      if !HasCompartment(newId) then (ms, rs, Some(MissingCompartment(newId)))
      else match SetMetaboliteId(ms, rs, p, newId)
        case None => (ms, rs, Some(IdTaken(newId)))
        case Some(next) =>
          var (m, e) := RenameMetabolite(ms[p], row);
          (next.0[p := m], next.1, e)
  }

  /** The failures of a row, in the order the script meets them: KeyError when no
      metabolite has its `iat_id`; the compartment assertion; ValueError when the new
      id is already another metabolite's; the charge assertion. All but the last leave
      the model unchanged. */
  lemma MetaboliteRowStepFailures(ms: seq<Metabolite>, rs: seq<Reaction>, row: MetaboliteRow)
    ensures var r := MetaboliteRowStep(ms, rs, row);
      var newId := NoSpaces(row.isgId);
      var absent := forall j :: 0 <= j < |ms| ==> ms[j].id != row.iatId;
      && (r.2 == Some(UnknownId(row.iatId)) <==> absent)
      && (r.2 == Some(MissingCompartment(newId)) <==> !absent && !HasCompartment(newId))
      && (r.2 == Some(IdTaken(newId)) <==>
           !absent && HasCompartment(newId) && newId != row.iatId && newId in MetaboliteIds(ms))
      && (r.2 == Some(MissingCharge(row.isgId)) <==>
           !absent && HasCompartment(newId) && (newId == row.iatId || newId !in MetaboliteIds(ms)) &&
           ParseInt(row.isgCharge).None? && !AcceptsMissingCharge(row.notes))
      && (r.2.Some? && !r.2.value.MissingCharge? ==> r.0 == ms && r.1 == rs)
  {
  }

  /** A row that passes the lookup, the compartment assertion and the id setter
      updates the first metabolite with its `iat_id` as `RenameMetabolite` says (the
      failed charge assertion included), and renames that key in every reaction. */
  lemma MetaboliteRowStepEffect(ms: seq<Metabolite>, rs: seq<Reaction>, row: MetaboliteRow)
    ensures var r := MetaboliteRowStep(ms, rs, row);
      r.2 == None || r.2 == Some(MissingCharge(row.isgId)) ==>
        exists p :: 0 <= p < |ms| && ms[p].id == row.iatId &&
          r.0 == ms[p := RenameMetabolite(ms[p], row).0] &&
          r.1 == RenameInReactions(rs, row.iatId, NoSpaces(row.isgId)) &&
          r.2 == RenameMetabolite(ms[p], row).1
  {
    match FindMetabolite(ms, row.iatId)
    case None =>
    case Some(p) =>
      var newId := NoSpaces(row.isgId);
      if HasCompartment(newId) && newId == row.iatId {
        RenameInReactionsSame(rs, newId);
      }
  }

  /** The metabolites and reactions after the rows are applied in order, and the
      failure that stopped the loop, if any. */
  function RenameMetabolites(ms: seq<Metabolite>, rs: seq<Reaction>, rows: seq<MetaboliteRow>): (r: (seq<Metabolite>, seq<Reaction>, Option<Failure>))
    ensures |r.0| == |ms| && |r.1| == |rs|
  {
    if rows == [] then (ms, rs, None)
    else
      var prev := RenameMetabolites(ms, rs, rows[..|rows| - 1]);
      if prev.2.Some? then prev
      else MetaboliteRowStep(prev.0, prev.1, rows[|rows| - 1])
  }

  method UpdateMetabolites(model: Model, rows: seq<MetaboliteRow>) returns (err: Option<Failure>)
    modifies model`metabolites, model`reactions
    ensures (model.metabolites, model.reactions, err) == RenameMetabolites(old(model.metabolites), old(model.reactions), rows)
  {
    ghost var ms := model.metabolites;
    ghost var rs := model.reactions;
    var i := 0;
    while i < |rows|
      invariant 0 <= i <= |rows|
      invariant (model.metabolites, model.reactions, None) == RenameMetabolites(ms, rs, rows[..i])
    {
      assert rows[..i + 1][..i] == rows[..i];
      var row := rows[i];
      var found := FindMetabolite(model.metabolites, row.iatId);
      if found.None? {
        RenameMetabolitesStops(ms, rs, rows, i + 1);
        return Some(UnknownId(row.iatId));
      }
      var p := found.value;
      var newId := NoSpaces(row.isgId);
      if !HasCompartment(newId) {
        RenameMetabolitesStops(ms, rs, rows, i + 1);
        return Some(MissingCompartment(newId));
      }
      var setter := SetMetaboliteId(model.metabolites, model.reactions, p, newId);
      if setter.None? {
        RenameMetabolitesStops(ms, rs, rows, i + 1);
        return Some(IdTaken(newId));
      }
      var met, e := RenameOne(model.metabolites[p], row);
      model.metabolites, model.reactions := setter.value.0[p := met], setter.value.1;
      if e.Some? {
        RenameMetabolitesStops(ms, rs, rows, i + 1);
        return e;
      }
      i := i + 1;
    }
    assert rows[..i] == rows;
    err := None;
  }

  /** The body of the row loop for the metabolite found. */
  method RenameOne(m: Metabolite, row: MetaboliteRow) returns (met: Metabolite, err: Option<Failure>)
    ensures (met, err) == RenameMetabolite(m, row)
  {
    var newId := NoSpaces(row.isgId);
    if !HasCompartment(newId) {
      return m, Some(MissingCompartment(newId));
    }
    met := m.(id := newId, name := row.isgName, formula := row.isgFormula);
    var charge := ParseInt(row.isgCharge);
    if charge.Some? {
      met := met.(charge := Some(charge.value as real));
    } else if !AcceptsMissingCharge(row.notes) {
      return met, Some(MissingCharge(row.isgId));
    }
    met := met.(notes := met.notes["KEGG_ID" := Str(row.isgKegg)]);
    if StartsWith(row.notes, "generic") {
      var parts := Split(row.notes, ':');
      if |parts| == 1 {
        met := met.(notes := met.notes["IS_GENERIC" := Str("True")]);
      } else {
        met := met.(notes := met.notes["IS_GENERIC" := Str(parts[1])]);
      }
    }
    err := None;
  }

  /** Once a row has failed, the later rows change nothing. */
  lemma {:induction false} RenameMetabolitesStops(ms: seq<Metabolite>, rs: seq<Reaction>, rows: seq<MetaboliteRow>, n: nat)
    requires n <= |rows| && RenameMetabolites(ms, rs, rows[..n]).2.Some?
    ensures RenameMetabolites(ms, rs, rows) == RenameMetabolites(ms, rs, rows[..n])
  {
    if n < |rows| {
      var init := rows[..|rows| - 1];
      assert init[..n] == rows[..n];
      RenameMetabolitesStops(ms, rs, init, n);
    } else {
      assert rows[..n] == rows;
    }
  }

  /** When the loop completes, every metabolite either is untouched or carries a new
      id that has no spaces and ends in "_c" or "_e". */
  lemma {:induction false} RenameMetabolitesIds(ms: seq<Metabolite>, rs: seq<Reaction>, rows: seq<MetaboliteRow>, j: nat)
    requires j < |ms| && RenameMetabolites(ms, rs, rows).2.None?
    ensures var m := RenameMetabolites(ms, rs, rows).0[j];
      m == ms[j] || (HasCompartment(m.id) && ' ' !in m.id)
  {
    if rows != [] {
      var init := rows[..|rows| - 1];
      RenameMetabolitesIds(ms, rs, init, j);
      var prev := RenameMetabolites(ms, rs, init);
      var row := rows[|rows| - 1];
      assert prev.2.None?;
      var r := MetaboliteRowStep(prev.0, prev.1, row);
      assert RenameMetabolites(ms, rs, rows) == r;
      MetaboliteRowStepEffect(prev.0, prev.1, row);
      var p :| 0 <= p < |ms| && prev.0[p].id == row.iatId &&
        r.0 == prev.0[p := RenameMetabolite(prev.0[p], row).0] && r.2 == RenameMetabolite(prev.0[p], row).1;
      if j == p {
        RenameMetaboliteMeaning(prev.0[p], row);
        assert r.0[j] == RenameMetabolite(prev.0[p], row).0;
      } else {
        assert r.0[j] == prev.0[j];
      }
    }
  }

  // ---------------------------------------------------------------- updates_on_file

  /** A row of `gene_update.csv`. */
  datatype GeneUpdateRow = GeneUpdateRow(locusTag: string, oldLocusTag: string, gene: string, product: string)

  /** The replacement pairs in table order: gene rows with a non-empty old tag, then
      the subsystem rows (old name, new name). */
  function GenePairs(genes: seq<GeneUpdateRow>): seq<(string, string)>
  {
    if genes == [] then []
    else
      var g := genes[|genes| - 1];
      if g.oldLocusTag != "" then GenePairs(genes[..|genes| - 1]) + [(g.oldLocusTag, g.locusTag)]
      else GenePairs(genes[..|genes| - 1])
  }

  /** One more gene row. */
  lemma GenePairsStep(genes: seq<GeneUpdateRow>, i: nat)
    requires i < |genes|
    ensures GenePairs(genes[..i + 1]) ==
      if genes[i].oldLocusTag != "" then GenePairs(genes[..i]) + [(genes[i].oldLocusTag, genes[i].locusTag)]
      else GenePairs(genes[..i])
  {
    assert genes[..i + 1][..i] == genes[..i];
  }

  function KeysOf(pairs: seq<(string, string)>): seq<string>
  {
    if pairs == [] then [] else KeysOf(pairs[..|pairs| - 1]) + [pairs[|pairs| - 1].0]
  }

  /** `repdict`'s keys (in the order a dict keeps: first insertion) and values (last
      assignment wins). */
  method BuildReplacements(genes: seq<GeneUpdateRow>, subsystems: seq<(string, string)>)
    returns (keys: seq<string>, vals: map<string, string>)
    ensures keys == FirstOccurrences(KeysOf(GenePairs(genes) + subsystems))
    ensures vals == BuildMap(GenePairs(genes) + subsystems)
  {
    keys, vals := AddGeneRows(genes);
    keys, vals := AddSubsystemRows(GenePairs(genes), keys, vals, subsystems);
  }

  /** The gene loop of `updates_on_file`. */
  method AddGeneRows(genes: seq<GeneUpdateRow>) returns (keys: seq<string>, vals: map<string, string>)
    ensures keys == FirstOccurrences(KeysOf(GenePairs(genes)))
    ensures vals == BuildMap(GenePairs(genes))
  {
    keys, vals := [], map[];
    var i := 0;
    while i < |genes|
      invariant 0 <= i <= |genes|
      invariant keys == FirstOccurrences(KeysOf(GenePairs(genes[..i])))
      invariant vals == BuildMap(GenePairs(genes[..i]))
    {
      var row := genes[i];
      GenePairsStep(genes, i);
      ghost var before := GenePairs(genes[..i]);
      if row.oldLocusTag != "" {
        PairStep(before, (row.oldLocusTag, row.locusTag));
        if row.oldLocusTag !in keys {
          keys := keys + [row.oldLocusTag];
        }
        vals := vals[row.oldLocusTag := row.locusTag];
      }
      i := i + 1;
    }
    assert genes[..i] == genes;
  }

  /** The subsystem loop of `updates_on_file`, continuing the dictionary built from
      the `base` pairs. */
  method AddSubsystemRows(base: seq<(string, string)>, keys0: seq<string>, vals0: map<string, string>, subsystems: seq<(string, string)>)
    returns (keys: seq<string>, vals: map<string, string>)
    requires keys0 == FirstOccurrences(KeysOf(base)) && vals0 == BuildMap(base)
    ensures keys == FirstOccurrences(KeysOf(base + subsystems))
    ensures vals == BuildMap(base + subsystems)
  {
    keys, vals := keys0, vals0;
    assert base + subsystems[..0] == base;
    var j := 0;
    while j < |subsystems|
      invariant 0 <= j <= |subsystems|
      invariant keys == FirstOccurrences(KeysOf(base + subsystems[..j]))
      invariant vals == BuildMap(base + subsystems[..j])
    {
      assert base + subsystems[..j + 1] == (base + subsystems[..j]) + [subsystems[j]];
      PairStep(base + subsystems[..j], subsystems[j]);
      if subsystems[j].0 !in keys {
        keys := keys + [subsystems[j].0];
      }
      vals := vals[subsystems[j].0 := subsystems[j].1];
      j := j + 1;
    }
    assert subsystems[..j] == subsystems;
  }

  /** Appending one pair to the table. */
  lemma PairStep(pairs: seq<(string, string)>, p: (string, string))
    ensures KeysOf(pairs + [p]) == KeysOf(pairs) + [p.0]
    ensures FirstOccurrences(KeysOf(pairs + [p])) ==
      if p.0 in FirstOccurrences(KeysOf(pairs)) then FirstOccurrences(KeysOf(pairs))
      else FirstOccurrences(KeysOf(pairs)) + [p.0]
    ensures BuildMap(pairs + [p]) == BuildMap(pairs)[p.0 := p.1]
  {
    assert (pairs + [p])[..|pairs|] == pairs;
    assert (KeysOf(pairs) + [p.0])[..|KeysOf(pairs)|] == KeysOf(pairs);
  }

  /** Every key is a value of KeysOf, and a pair's key maps to something. */
  lemma {:induction false} KeysOfMeaning(pairs: seq<(string, string)>, k: string)
    ensures k in KeysOf(pairs) <==> exists i :: 0 <= i < |pairs| && pairs[i].0 == k
  {
    if pairs != [] {
      var init := pairs[..|pairs| - 1];
      KeysOfMeaning(init, k);
      assert forall i :: 0 <= i < |init| ==> init[i] == pairs[i];
    }
  }

  /** The gene pairs are the rows with a non-empty old tag: a gene row with an empty
      old tag contributes no replacement. */
  lemma {:induction false} GenePairsMeaning(genes: seq<GeneUpdateRow>, pair: (string, string))
    ensures pair in GenePairs(genes) <==>
      exists i :: 0 <= i < |genes| && genes[i].oldLocusTag != "" && pair == (genes[i].oldLocusTag, genes[i].locusTag)
  {
    if genes != [] {
      var n := |genes| - 1;
      var init := genes[..n];
      GenePairsMeaning(init, pair);
      var last := (genes[n].oldLocusTag, genes[n].locusTag);
      assert GenePairs(genes) == if genes[n].oldLocusTag != "" then GenePairs(init) + [last] else GenePairs(init);
      if pair in GenePairs(init) {
        var i :| 0 <= i < |init| && init[i].oldLocusTag != "" && pair == (init[i].oldLocusTag, init[i].locusTag);
        assert genes[i] == init[i];
      }
      if exists i :: 0 <= i < |genes| && genes[i].oldLocusTag != "" && pair == (genes[i].oldLocusTag, genes[i].locusTag) {
        var i :| 0 <= i < |genes| && genes[i].oldLocusTag != "" && pair == (genes[i].oldLocusTag, genes[i].locusTag);
        if i < n {
          assert init[i] == genes[i];
        }
      }
    }
  }

  /** The value of a subsystem key is the new name of the last subsystem row for it. */
  lemma SubsystemWins(genes: seq<GeneUpdateRow>, subsystems: seq<(string, string)>, j: nat)
    requires j < |subsystems| && forall l :: j < l < |subsystems| ==> subsystems[l].0 != subsystems[j].0
    ensures var vals := BuildMap(GenePairs(genes) + subsystems);
      subsystems[j].0 in vals && vals[subsystems[j].0] == subsystems[j].1
  {
    var front := GenePairs(genes);
    var pairs := front + subsystems;
    var n := |front|;
    assert |pairs| == n + |subsystems| && pairs[n + j] == subsystems[j];
    forall l | n + j < l < |pairs| ensures pairs[l].0 != pairs[n + j].0 {
      assert pairs[l] == subsystems[l - n];
    }
    BuildMapLastWins(pairs, n + j);
  }

  /** One line of the serialised model: every key found in the ORIGINAL line is
      replaced, in key order, in the running output. */
  function Substitute(line: string, keys: seq<string>, vals: map<string, string>): string
    requires forall k :: k in keys ==> k in vals
  {
    if keys == [] then line
    else
      var out := Substitute(line, keys[..|keys| - 1], vals);
      var key := keys[|keys| - 1];
      if Contains(line, key) then ReplaceAll(out, key, vals[key]) else out
  }

  /** The substitution loop over the lines of the file. */
  method SubstituteLines(lines: seq<string>, keys: seq<string>, vals: map<string, string>) returns (out: seq<string>)
    requires forall k :: k in keys ==> k in vals
    ensures |out| == |lines|
    ensures forall i :: 0 <= i < |lines| ==> out[i] == Substitute(lines[i], keys, vals)
  {
    out := [];
    var i := 0;
    while i < |lines|
      invariant 0 <= i <= |lines| && |out| == i
      invariant forall l :: 0 <= l < i ==> out[l] == Substitute(lines[l], keys, vals)
    {
      var line := lines[i];
      var outline := line;
      var k := 0;
      while k < |keys|
        invariant 0 <= k <= |keys|
        invariant outline == Substitute(line, keys[..k], vals)
      {
        assert keys[..k + 1][..k] == keys[..k];
        var key := keys[k];
        if Contains(line, key) {
          outline := ReplaceAll(outline, key, vals[key]);
        }
        k := k + 1;
      }
      assert keys[..k] == keys;
      out := out + [outline];
      i := i + 1;
    }
  }

  /** A line that contains none of the keys is copied unchanged. */
  lemma {:induction false} SubstituteNoKey(line: string, keys: seq<string>, vals: map<string, string>)
    requires forall k :: k in keys ==> k in vals && !Contains(line, k)
    ensures Substitute(line, keys, vals) == line
  {
    if keys != [] {
      var init := keys[..|keys| - 1];
      assert forall k :: k in init ==> k in keys;
      SubstituteNoKey(line, init, vals);
      assert keys[|keys| - 1] in keys;
    }
  }

  /** Keys that map to themselves change nothing. */
  lemma {:induction false} SubstituteIdentity(line: string, keys: seq<string>, vals: map<string, string>)
    requires forall k :: k in keys ==> k != "" && k in vals && vals[k] == k
    ensures Substitute(line, keys, vals) == line
  {
    if keys != [] {
      var init := keys[..|keys| - 1];
      assert forall k :: k in init ==> k in keys;
      SubstituteIdentity(line, init, vals);
      assert keys[|keys| - 1] in keys;
      ReplaceIdentity(line, keys[|keys| - 1]);
    }
  }

  // ---------------------------------------------------------------- add_gene_fields

  function TagPairs(rows: seq<GeneUpdateRow>): seq<(string, GeneUpdateRow)>
  {
    if rows == [] then [] else TagPairs(rows[..|rows| - 1]) + [(rows[|rows| - 1].locusTag, rows[|rows| - 1])]
  }

  /** `genedict`: each locus tag's row, the last one for a repeated tag. */
  function GeneDict(rows: seq<GeneUpdateRow>): map<string, GeneUpdateRow>
  {
    BuildMap(TagPairs(rows))
  }

  lemma {:induction false} GeneDictLastWins(rows: seq<GeneUpdateRow>, i: nat)
    requires i < |rows| && forall j :: i < j < |rows| ==> rows[j].locusTag != rows[i].locusTag
    ensures rows[i].locusTag in GeneDict(rows) && GeneDict(rows)[rows[i].locusTag] == rows[i]
  {
    TagPairsIndex(rows);
    BuildMapLastWins(TagPairs(rows), i);
  }

  lemma {:induction false} TagPairsIndex(rows: seq<GeneUpdateRow>)
    ensures |TagPairs(rows)| == |rows|
    ensures forall i :: 0 <= i < |rows| ==> TagPairs(rows)[i] == (rows[i].locusTag, rows[i])
  {
    if rows != [] {
      TagPairsIndex(rows[..|rows| - 1]);
    }
  }

  /** The name and product a gene gets. The script assigns the product text to
      `gene.annotation` itself, putting a string where the annotation dictionary was;
      the model empties the dictionary and keeps the text as the `annotation`
      attribute. */
  function WithGeneFields(g: Gene, row: GeneUpdateRow): Gene
  {
    g.(name := row.gene, annotation := map[], attrs := g.attrs["annotation" := row.product])
  }

  /** The old GPR note: a one-element list holding the rule of the same reaction in
      the model from before the substitution. */
  function OldGprNote(r: Reaction, original: seq<Reaction>): Reaction
    requires FindReaction(original, r.id).Some?
  {
    r.(notes := r.notes["old_gpr" := Items([Str(original[FindReaction(original, r.id).value].gpr)])])
  }

  /** The `genedict` loop. */
  method BuildGeneDict(rows: seq<GeneUpdateRow>) returns (genedict: map<string, GeneUpdateRow>)
    ensures genedict == GeneDict(rows)
  {
    genedict := map[];
    var i := 0;
    while i < |rows|
      invariant 0 <= i <= |rows|
      invariant genedict == GeneDict(rows[..i])
    {
      assert rows[..i + 1][..i] == rows[..i];
      genedict := genedict[rows[i].locusTag := rows[i]];
      i := i + 1;
    }
    assert rows[..i] == rows;
  }

  /** The gene loop; a gene missing from the table raises KeyError. */
  method SetGeneFields(final: Model, genedict: map<string, GeneUpdateRow>)
    requires forall j :: 0 <= j < |final.genes| ==> final.genes[j].id in genedict
    modifies final`genes
    ensures |final.genes| == |old(final.genes)|
    ensures forall j :: 0 <= j < |final.genes| ==>
      final.genes[j] == WithGeneFields(old(final.genes)[j], genedict[old(final.genes)[j].id])
  {
    ghost var gs := final.genes;
    var g := 0;
    while g < |final.genes|
      invariant 0 <= g <= |final.genes| == |gs|
      invariant forall j :: 0 <= j < g ==> final.genes[j] == WithGeneFields(gs[j], genedict[gs[j].id])
      invariant forall j :: g <= j < |gs| ==> final.genes[j] == gs[j]
    {
      var gene := final.genes[g];
      var row := genedict[gene.id];
      final.genes := final.genes[g := gene.(name := row.gene, annotation := map[], attrs := gene.attrs["annotation" := row.product])];
      g := g + 1;
    }
  }

  /** The old-GPR loop; a reaction missing from the model before substitution raises
      KeyError. */
  method AddOldGprNotes(final: Model, original: seq<Reaction>)
    requires forall j :: 0 <= j < |final.reactions| ==> FindReaction(original, final.reactions[j].id).Some?
    modifies final`reactions
    ensures |final.reactions| == |old(final.reactions)|
    ensures forall j :: 0 <= j < |final.reactions| ==> final.reactions[j] == OldGprNote(old(final.reactions)[j], original)
  {
    ghost var rs := final.reactions;
    var r := 0;
    while r < |final.reactions|
      invariant 0 <= r <= |final.reactions| == |rs|
      invariant forall j :: 0 <= j < |rs| ==> FindReaction(original, rs[j].id).Some?
      invariant forall j :: 0 <= j < r ==> final.reactions[j] == OldGprNote(rs[j], original)
      invariant forall j :: r <= j < |rs| ==> final.reactions[j] == rs[j]
    {
      var rxn := final.reactions[r];
      var before := original[FindReaction(original, rxn.id).value];
      final.reactions := final.reactions[r := rxn.(notes := rxn.notes["old_gpr" := Items([Str(before.gpr)])])];
      r := r + 1;
    }
  }

  /** `add_gene_fields`: every gene's name and product from `gene_update.csv`, and
      every reaction's old GPR from the model before substitution. */
  method AddGeneFields(final: Model, original: seq<Reaction>, rows: seq<GeneUpdateRow>)
    requires forall j :: 0 <= j < |final.genes| ==> final.genes[j].id in GeneDict(rows)
    requires forall j :: 0 <= j < |final.reactions| ==> FindReaction(original, final.reactions[j].id).Some?
    modifies final`genes, final`reactions
    ensures |final.genes| == |old(final.genes)| && |final.reactions| == |old(final.reactions)|
    ensures forall j :: 0 <= j < |final.genes| ==>
      final.genes[j] == WithGeneFields(old(final.genes)[j], GeneDict(rows)[old(final.genes)[j].id])
    ensures forall j :: 0 <= j < |final.reactions| ==> final.reactions[j] == OldGprNote(old(final.reactions)[j], original)
  {
    var genedict := BuildGeneDict(rows);
    SetGeneFields(final, genedict);
    ghost var gs := final.genes;
    AddOldGprNotes(final, original);
    assert final.genes == gs;
  }
}
