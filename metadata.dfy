/*
  Metadata and mass-imbalance triage of the iCBI model
  (iCBI/4_metadata_and_mass_imbalance.py): ModelSEED alias strings parsed into
  annotation lists, reaction DB_links notes turned into annotations, SBO terms, and
  the split of the imbalanced reactions into a proton table and a table of other
  imbalances, with the metabolite rows written for the latter.
*/
module Metadata {
  import opened Common
  import opened Text
  import opened Cobra
  import opened Sorting

  // ---------------------------------------------------------------- ModelSEED aliases

  /** `dbmap`: the alias databases kept, and the annotation key each becomes. */
  const DbMap: map<string, string> := map["BiGG" := "bigg.metabolite", "KEGG" := "kegg.compound"]

  /** One ';'-separated alias entry: its database (the text before the first ':') and
      its values (the text between the first and second ':'); None for an entry
      without ':', where `db.split(':')[1]` raises IndexError. */
  function AliasEntry(db: string): (e: Option<(string, string)>)
    ensures e.None? <==> ':' !in db
  {
    var parts := Split(db, ':');
    SplitPieces(db, ':');
    if |parts| < 2 then None else Some((parts[0], parts[1]))
  }

  /** A string splits into two pieces or more exactly when it holds the separator. */
  lemma SplitPieces(s: string, sep: char)
    ensures |Split(s, sep)| >= 2 <==> sep in s
  {
    if sep in s {
      SplitAtFirst(s, sep, IndexOf(s, sep));
    } else {
      SplitAbsent(s, sep);
    }
  }

  /** The dictionary built from the entries in order; None once an entry fails. */
  function AliasesOf(entries: seq<string>): Option<map<string, seq<string>>>
  {
    if entries == [] then Some(map[])
    else
      match AliasesOf(entries[..|entries| - 1])
      case None => None
      case Some(d) =>
        match AliasEntry(entries[|entries| - 1])
        case None => None
        case Some(e) => Some(if e.0 in DbMap then d[DbMap[e.0] := Split(e.1, '|')] else d)
  }

  /** `parse_ms_aliases` on a compound's alias string. */
  method ParseMsAliases(aliases: string) returns (adict: Option<map<string, seq<string>>>)
    ensures adict == AliasesOf(Split(aliases, ';'))
  {
    var entries := Split(aliases, ';');
    var d: map<string, seq<string>> := map[];
    var i := 0;
    while i < |entries|
      invariant 0 <= i <= |entries|
      invariant AliasesOf(entries[..i]) == Some(d)
    {
      assert entries[..i + 1][..i] == entries[..i];
      var db := entries[i];
      var parts := Split(db, ':');
      if |parts| < 2 {
        AliasesFailStays(entries, i + 1);
        return None;
      }
      var key := parts[0];
      var values := parts[1];
      if key in DbMap {
        d := d[DbMap[key] := Split(values, '|')];
      }
      i := i + 1;
    }
    assert entries[..i] == entries;
    adict := Some(d);
  }

  /** Once an entry has failed, longer prefixes fail too. */
  lemma {:induction false} AliasesFailStays(entries: seq<string>, n: nat)
    requires n <= |entries| && AliasesOf(entries[..n]).None?
    ensures AliasesOf(entries).None?
  {
    if n < |entries| {
      var init := entries[..|entries| - 1];
      assert init[..n] == entries[..n];
      AliasesFailStays(init, n);
    } else {
      assert entries[..n] == entries;
    }
  }

  /** The parse fails exactly when some entry lacks ':'. When it succeeds, only the
      two kept databases appear as keys, and a kept database's values are those of
      its LAST entry, split on '|'. */
  lemma {:induction false} AliasesMeaning(entries: seq<string>, i: nat)
    ensures AliasesOf(entries).None? <==> exists j :: 0 <= j < |entries| && ':' !in entries[j]
    ensures AliasesOf(entries).Some? ==> AliasesOf(entries).value.Keys <= DbMap.Values
    ensures AliasesOf(entries).Some? && i < |entries| && AliasEntry(entries[i]).value.0 in DbMap
      && (forall j :: i < j < |entries| ==> AliasEntry(entries[j]).value.0 != AliasEntry(entries[i]).value.0)
      ==> var e := AliasEntry(entries[i]).value;
          DbMap[e.0] in AliasesOf(entries).value && AliasesOf(entries).value[DbMap[e.0]] == Split(e.1, '|')
  {
    if entries != [] {
      var init := entries[..|entries| - 1];
      var last := entries[|entries| - 1];
      AliasesMeaning(init, i);
      assert forall j :: 0 <= j < |init| ==> init[j] == entries[j];
      if AliasesOf(entries).Some? && i < |entries| - 1 && AliasEntry(entries[i]).value.0 in DbMap
        && (forall j :: i < j < |entries| ==> AliasEntry(entries[j]).value.0 != AliasEntry(entries[i]).value.0)
      {
        assert AliasEntry(init[i]).value.0 == AliasEntry(entries[i]).value.0;
        assert forall j :: i < j < |init| ==> AliasEntry(init[j]).value.0 != AliasEntry(init[i]).value.0;
        // the two keys of DbMap have different annotation keys
        assert forall a, b :: a in DbMap && b in DbMap && a != b ==> DbMap[a] != DbMap[b];
      }
    }
  }

  // ---------------------------------------------------------------- metabolite annotations

  /** Python's `str` of a list of strings: `['a', 'b']`. Values are written
      verbatim; Python would escape a backslash and switch quotes around a value
      holding a single quote. */
  function ListText(xs: seq<string>): string
  {
    "[" + Join(seq(|xs|, j requires 0 <= j < |xs| => "'" + xs[j] + "'"), ", ") + "]"
  }

  /** `str(adict.get(key))`: the list's text, or "None". */
  function AliasText(adict: map<string, seq<string>>, key: string): string
  {
    if key in adict then ListText(adict[key]) else "None"
  }

  /** The annotation of a metabolite found in the ModelSEED table: bigg.metabolite and
      kegg.compound filled from the aliases only when absent, inchikey always set. */
  function FilledAnnotation(ann: map<string, Note>, adict: map<string, seq<string>>, inchikey: string): (r: map<string, Note>)
    ensures r.Keys == ann.Keys + {"bigg.metabolite", "kegg.compound", "inchikey"}
    ensures r["inchikey"] == Str(inchikey)
    ensures forall k :: k in ann && k != "inchikey" ==> r[k] == ann[k]
    ensures "bigg.metabolite" !in ann ==> r["bigg.metabolite"] == Str(AliasText(adict, "bigg.metabolite"))
    ensures "kegg.compound" !in ann ==> r["kegg.compound"] == Str(AliasText(adict, "kegg.compound"))
  {
    var a1 := if "bigg.metabolite" in ann then ann else ann["bigg.metabolite" := Str(AliasText(adict, "bigg.metabolite"))];
    var a2 := if "kegg.compound" in a1 then a1 else a1["kegg.compound" := Str(AliasText(adict, "kegg.compound"))];
    a2["inchikey" := Str(inchikey)]
  }

  /** A row of the ModelSEED compound table (`compounds.tsv`). */
  datatype MsCompound = MsCompound(aliases: string, inchikey: string)

  /** The ModelSEED id a metabolite is annotated with, if it is a string. */
  function SeedId(m: Metabolite): Option<string>
  {
    if "seed.compound" in m.annotation && m.annotation["seed.compound"].Str? then Some(m.annotation["seed.compound"].s)
    else None
  }

  /** One metabolite of the "Bulk info from ms" loop: unchanged when its seed id is not
      in the table, None when its alias string does not parse. */
  function BulkInfo(m: Metabolite, msm: map<string, MsCompound>): Option<Metabolite>
  {
    var id := SeedId(m);
    if id.Some? && id.value in msm then
      match AliasesOf(Split(msm[id.value].aliases, ';'))
      case None => None
      case Some(adict) => Some(m.(annotation := FilledAnnotation(m.annotation, adict, msm[id.value].inchikey)))
    else Some(m)
  }

  /** The loop over all metabolites: the metabolites after it, and whether it stopped
      at an alias string that does not parse (the earlier ones are then already
      updated). */
  function BulkInfoAll(ms: seq<Metabolite>, msm: map<string, MsCompound>): (r: (seq<Metabolite>, bool))
    ensures |r.0| == |ms|
  {
    if ms == [] then ([], true)
    else
      var prev := BulkInfoAll(ms[..|ms| - 1], msm);
      var last := ms[|ms| - 1];
      if !prev.1 then (prev.0 + [last], false)
      else match BulkInfo(last, msm)
        case None => (prev.0 + [last], false)
        case Some(m) => (prev.0 + [m], true)
  }

  /** The body of the "Bulk info from ms" loop for one metabolite. */
  method FillMetabolite(met: Metabolite, msm: map<string, MsCompound>) returns (r: Option<Metabolite>)
    ensures r == BulkInfo(met, msm)
  {
    var seed := SeedId(met);
    if seed.Some? && seed.value in msm {
      var adict := ParseMsAliases(msm[seed.value].aliases);
      if adict.None? {
        return None;
      }
      return Some(met.(annotation := FilledAnnotation(met.annotation, adict.value, msm[seed.value].inchikey)));
    }
    r := Some(met);
  }

  method FillMetaboliteAnnotations(model: Model, msm: map<string, MsCompound>) returns (ok: bool)
    modifies model`metabolites
    ensures (model.metabolites, ok) == BulkInfoAll(old(model.metabolites), msm)
  {
    var ms := model.metabolites;
    var i := 0;
    while i < |ms|
      invariant 0 <= i <= |ms| == |model.metabolites|
      invariant model.metabolites[i..] == ms[i..]
      invariant BulkInfoAll(ms[..i], msm) == (model.metabolites[..i], true)
    {
      var filled := FillMetabolite(ms[i], msm);
      if filled.None? {
        BulkInfoFails(ms, msm, i, model.metabolites);
        return false;
      }
      var done := model.metabolites[..i];
      BulkInfoStep(ms, msm, i, done, filled.value);
      UpdateAt(model.metabolites, ms, i, filled.value);
      model.metabolites := model.metabolites[i := filled.value];
      i := i + 1;
    }
    BulkInfoEnd(ms, msm, model.metabolites);
    ok := true;
  }

  /** Writing position `i` of a list that agrees with `ms` from `i` on extends the
      prefix by the new value and leaves it agreeing with `ms` after `i`. */
  lemma UpdateAt(cur: seq<Metabolite>, ms: seq<Metabolite>, i: nat, v: Metabolite)
    requires i < |cur| == |ms| && cur[i..] == ms[i..]
    ensures cur[i := v][..i + 1] == cur[..i] + [v]
    ensures cur[i := v][i + 1..] == ms[i + 1..]
  {
    assert cur[i + 1..] == cur[i..][1..];
    assert ms[i + 1..] == ms[i..][1..];
  }

  /** One more pass of the loop, while it has not stopped. */
  lemma BulkInfoStep(ms: seq<Metabolite>, msm: map<string, MsCompound>, i: nat, done: seq<Metabolite>, m: Metabolite)
    requires i < |ms| && BulkInfoAll(ms[..i], msm) == (done, true) && BulkInfo(ms[i], msm) == Some(m)
    ensures BulkInfoAll(ms[..i + 1], msm) == (done + [m], true)
  {
    assert ms[..i + 1][..i] == ms[..i];
  }

  /** The pass that fails ends the loop with the metabolites after it untouched. */
  lemma BulkInfoFails(ms: seq<Metabolite>, msm: map<string, MsCompound>, i: nat, cur: seq<Metabolite>)
    requires i < |ms| == |cur| && cur[i..] == ms[i..] && BulkInfoAll(ms[..i], msm) == (cur[..i], true)
    requires BulkInfo(ms[i], msm).None?
    ensures BulkInfoAll(ms, msm) == (cur, false)
  {
    assert ms[..i + 1][..i] == ms[..i];
    assert BulkInfoAll(ms[..i + 1], msm) == (cur[..i] + [ms[i]], false);
    BulkInfoStops(ms, msm, i + 1);
    assert cur == cur[..i] + [ms[i]] + ms[i + 1..];
  }

  /** A loop that ran through has updated every metabolite. */
  lemma BulkInfoEnd(ms: seq<Metabolite>, msm: map<string, MsCompound>, cur: seq<Metabolite>)
    requires |ms| == |cur| && BulkInfoAll(ms[..|ms|], msm) == (cur[..|ms|], true)
    ensures BulkInfoAll(ms, msm) == (cur, true)
  {
    assert ms[..|ms|] == ms;
    assert cur[..|ms|] == cur;
  }

  /** After a failure the rest of the metabolites are kept as they are. */
  lemma {:induction false} BulkInfoStops(ms: seq<Metabolite>, msm: map<string, MsCompound>, n: nat)
    requires 0 < n <= |ms| && !BulkInfoAll(ms[..n], msm).1
    ensures BulkInfoAll(ms, msm) == (BulkInfoAll(ms[..n], msm).0 + ms[n..], false)
  {
    if n < |ms| {
      var init := ms[..|ms| - 1];
      assert init[..n] == ms[..n];
      BulkInfoStops(init, msm, n);
      var pre := BulkInfoAll(ms[..n], msm).0;
      assert BulkInfoAll(init, msm) == (pre + init[n..], false);
      assert BulkInfoAll(ms, msm) == ((pre + init[n..]) + [ms[|ms| - 1]], false);
      assert init[n..] + [ms[|ms| - 1]] == ms[n..];
      assert (pre + init[n..]) + [ms[|ms| - 1]] == pre + ms[n..];
    } else {
      assert ms[..n] == ms;
      assert ms[n..] == [];
      assert BulkInfoAll(ms, msm).0 + [] == BulkInfoAll(ms, msm).0;
    }
  }

  /** A metabolite that already had a BiGG or KEGG annotation keeps it; one that had
      none gets the alias list's text. */
  lemma BulkInfoKeepsExisting(m: Metabolite, msm: map<string, MsCompound>, key: string)
    requires key == "bigg.metabolite" || key == "kegg.compound"
    requires BulkInfo(m, msm).Some?
    ensures key in m.annotation ==> BulkInfo(m, msm).value.annotation[key] == m.annotation[key]
    ensures key in BulkInfo(m, msm).value.annotation || (SeedId(m).None? || SeedId(m).value !in msm)
  {
  }

  // ---------------------------------------------------------------- reaction annotations

  /** `rxn_annot_map`: database names of the DB_links note and their annotation keys. */
  const RxnAnnotMap: map<string, string> := map[
    "BIGG" := "bigg.reaction", "EC NUMBER" := "ec-code", "KEGG" := "kegg.reaction",
    "RHEA" := "rhea", "SEED" := "seed.reaction", "BRENDA" := "brenda", "METACYC" := "metacyc",
    "BIOCYC" := "biocyc", "MXNREF" := "metanetx.reaction", "UPA" := "unipathway.reaction",
    "BIOPATH" := "biopath", "REACTOME" := "reactome", "IAT CORE" := "iatcore"]

  /** The items of the parsed dictionary copied into the annotation in order, up to the
      first database name missing from `rxn_annot_map` (its KeyError is caught). */
  function LinkAnnotations(ann: map<string, Note>, items: seq<(string, Note)>): (r: map<string, Note>)
    ensures forall k :: k in r && k !in ann ==> k in RxnAnnotMap.Values
    decreases |items|
  {
    if items == [] then ann
    else if items[0].0 !in RxnAnnotMap then ann
    else LinkAnnotations(ann[RxnAnnotMap[items[0].0] := items[0].1], items[1..])
  }

  /** `ast.literal_eval` on the note's text: the dictionary's items, or None when it
      raises. It is a parameter of the model, as is any library parser. */
  type LiteralEval = string -> Option<seq<(string, Note)>>

  function ParsedLinks(note: Note, eval: LiteralEval): Option<seq<(string, Note)>>
  {
    if note.Str? then eval(note.s) else None
  }

  /** One reaction of the DB_links loop: the links copied into the annotation when the
      note parses, and the note dropped in every case. */
  function ConvertDbLinks(r: Reaction, eval: LiteralEval): (r': Reaction)
    ensures "DB_links" !in r'.notes
    ensures r'.notes == r.notes - {"DB_links"}
    ensures r' == r.(notes := r'.notes, annotation := r'.annotation)
    ensures "DB_links" !in r.notes ==> r' == r
  {
    if "DB_links" in r.notes then
      var ann := match ParsedLinks(r.notes["DB_links"], eval)
        case None => r.annotation
        case Some(items) => LinkAnnotations(r.annotation, items);
      r.(annotation := ann, notes := r.notes - {"DB_links"})
    else r
  }

  method ConvertAllDbLinks(model: Model, eval: LiteralEval)
    modifies model`reactions
    ensures |model.reactions| == |old(model.reactions)|
    ensures forall j :: 0 <= j < |model.reactions| ==> model.reactions[j] == ConvertDbLinks(old(model.reactions)[j], eval)
  {
    var i := 0;
    ghost var rs := model.reactions;
    while i < |model.reactions|
      invariant 0 <= i <= |model.reactions| == |rs|
      invariant forall j :: 0 <= j < i ==> model.reactions[j] == ConvertDbLinks(rs[j], eval)
      invariant forall j :: i <= j < |rs| ==> model.reactions[j] == rs[j]
    {
      var rxn := model.reactions[i];
      if "DB_links" in rxn.notes {
        var ann := rxn.annotation;
        var parsed := ParsedLinks(rxn.notes["DB_links"], eval);
        if parsed.Some? {
          ann := LinkAnnotations(ann, parsed.value);
        }
        model.reactions := model.reactions[i := rxn.(annotation := ann, notes := rxn.notes - {"DB_links"})];
      }
      i := i + 1;
    }
  }

  /** When every database name is known, each item's annotation key holds the value of
      the LAST item with that name, and nothing else changes. */
  lemma {:induction false} LinkAnnotationsLastWins(ann: map<string, Note>, items: seq<(string, Note)>, i: nat)
    requires forall j :: 0 <= j < |items| ==> items[j].0 in RxnAnnotMap
    requires i < |items| && forall j :: i < j < |items| ==> items[j].0 != items[i].0
    ensures var r := LinkAnnotations(ann, items);
      RxnAnnotMap[items[i].0] in r && r[RxnAnnotMap[items[i].0]] == items[i].1
    decreases |items|
  {
    if i > 0 {
      LinkAnnotationsLastWins(ann[RxnAnnotMap[items[0].0] := items[0].1], items[1..], i - 1);
    } else {
      LinkAnnotationsKeeps(ann[RxnAnnotMap[items[0].0] := items[0].1], items[1..], RxnAnnotMap[items[0].0]);
    }
  }

  /** A key that no later item maps to keeps its value. */
  lemma {:induction false} LinkAnnotationsKeeps(ann: map<string, Note>, items: seq<(string, Note)>, key: string)
    requires key in ann
    requires forall j :: 0 <= j < |items| && items[j].0 in RxnAnnotMap ==> RxnAnnotMap[items[j].0] != key
    ensures var r := LinkAnnotations(ann, items); key in r && r[key] == ann[key]
    decreases |items|
  {
    if items != [] && items[0].0 in RxnAnnotMap {
      LinkAnnotationsKeeps(ann[RxnAnnotMap[items[0].0] := items[0].1], items[1..], key);
    }
  }

  // ---------------------------------------------------------------- SBO terms

  const SboMetabolite := "SBO:0000247"
  const SboGene := "SBO:0000243"

  /** The SBO term of a reaction, by the first matching rule. */
  function ReactionSbo(id: string, subsystem: string): string
  {
    if StartsWith(id, "DM_") then "SBO:0000628"
    else if StartsWith(id, "EX_") then "SBO:0000627"
    else if Contains(Lower(subsystem), "transport") then "SBO:0000185"
    else if StartsWith(id, "BIOMASS") then "SBO:0000629"
    else "SBO:0000176"
  }

  /** Each term is given exactly when its rule is the first that matches. */
  lemma ReactionSboPrecedence(id: string, subsystem: string)
    ensures var t := ReactionSbo(id, subsystem);
      && (t == "SBO:0000628" <==> StartsWith(id, "DM_"))
      && (t == "SBO:0000627" <==> !StartsWith(id, "DM_") && StartsWith(id, "EX_"))
      && (t == "SBO:0000185" <==> !StartsWith(id, "DM_") && !StartsWith(id, "EX_") && Contains(Lower(subsystem), "transport"))
      && (t == "SBO:0000629" <==> !StartsWith(id, "DM_") && !StartsWith(id, "EX_")
                                  && !Contains(Lower(subsystem), "transport") && StartsWith(id, "BIOMASS"))
      && (t == "SBO:0000176" <==> !StartsWith(id, "DM_") && !StartsWith(id, "EX_")
                                  && !Contains(Lower(subsystem), "transport") && !StartsWith(id, "BIOMASS"))
  {
  }

  /** The metabolite SBO loop. */
  method AddMetaboliteSbo(model: Model)
    modifies model`metabolites
    ensures |model.metabolites| == |old(model.metabolites)|
    ensures forall j :: 0 <= j < |model.metabolites| ==>
      model.metabolites[j] == old(model.metabolites)[j].(annotation := old(model.metabolites)[j].annotation["sbo" := Str(SboMetabolite)])
  {
    ghost var ms := model.metabolites;
    var i := 0;
    while i < |model.metabolites|
      invariant 0 <= i <= |model.metabolites| == |ms|
      invariant forall j :: 0 <= j < i ==> model.metabolites[j] == ms[j].(annotation := ms[j].annotation["sbo" := Str(SboMetabolite)])
      invariant forall j :: i <= j < |ms| ==> model.metabolites[j] == ms[j]
    {
      var met := model.metabolites[i];
      model.metabolites := model.metabolites[i := met.(annotation := met.annotation["sbo" := Str(SboMetabolite)])];
      i := i + 1;
    }
  }

  /** The reaction SBO loop, with its if-chain. */
  method AddReactionSbo(model: Model)
    modifies model`reactions
    ensures |model.reactions| == |old(model.reactions)|
    ensures forall j :: 0 <= j < |model.reactions| ==> var r := old(model.reactions)[j];
      model.reactions[j] == r.(annotation := r.annotation["sbo" := Str(ReactionSbo(r.id, r.subsystem))])
  {
    ghost var rs := model.reactions;
    var i := 0;
    while i < |model.reactions|
      invariant 0 <= i <= |model.reactions| == |rs|
      invariant forall j :: 0 <= j < i ==> model.reactions[j] == rs[j].(annotation := rs[j].annotation["sbo" := Str(ReactionSbo(rs[j].id, rs[j].subsystem))])
      invariant forall j :: i <= j < |rs| ==> model.reactions[j] == rs[j]
    {
      var rxn := model.reactions[i];
      var term;
      if StartsWith(rxn.id, "DM_") {
        term := "SBO:0000628";
      } else if StartsWith(rxn.id, "EX_") {
        term := "SBO:0000627";
      } else if Contains(Lower(rxn.subsystem), "transport") {
        term := "SBO:0000185";
      } else if StartsWith(rxn.id, "BIOMASS") {
        term := "SBO:0000629";
      } else {
        term := "SBO:0000176";
      }
      model.reactions := model.reactions[i := rxn.(annotation := rxn.annotation["sbo" := Str(term)])];
      i := i + 1;
    }
  }

  /** The gene SBO loop. */
  method AddGeneSbo(model: Model)
    modifies model`genes
    ensures |model.genes| == |old(model.genes)|
    ensures forall j :: 0 <= j < |model.genes| ==>
      model.genes[j] == old(model.genes)[j].(annotation := old(model.genes)[j].annotation["sbo" := Str(SboGene)])
  {
    ghost var gs := model.genes;
    var i := 0;
    while i < |model.genes|
      invariant 0 <= i <= |model.genes| == |gs|
      invariant forall j :: 0 <= j < i ==> model.genes[j] == gs[j].(annotation := gs[j].annotation["sbo" := Str(SboGene)])
      invariant forall j :: i <= j < |gs| ==> model.genes[j] == gs[j]
    {
      var gene := model.genes[i];
      model.genes := model.genes[i := gene.(annotation := gene.annotation["sbo" := Str(SboGene)])];
      i := i + 1;
    }
  }

  /** The three SBO loops in the order the script runs them. */
  method AddSboTerms(model: Model)
    modifies model
    ensures |model.metabolites| == |old(model.metabolites)| && |model.reactions| == |old(model.reactions)|
    ensures |model.genes| == |old(model.genes)| && model.objective == old(model.objective)
    ensures forall j :: 0 <= j < |model.metabolites| ==>
      "sbo" in model.metabolites[j].annotation && model.metabolites[j].annotation["sbo"] == Str(SboMetabolite)
    ensures forall j :: 0 <= j < |model.genes| ==>
      "sbo" in model.genes[j].annotation && model.genes[j].annotation["sbo"] == Str(SboGene)
    ensures forall j :: 0 <= j < |model.reactions| ==> var r := old(model.reactions)[j];
      model.reactions[j] == r.(annotation := r.annotation["sbo" := Str(ReactionSbo(r.id, r.subsystem))])
  {
    AddMetaboliteSbo(model);
    ghost var ms := model.metabolites;
    AddReactionSbo(model);
    AddGeneSbo(model);
    assert model.metabolites == ms;
  }

  // ---------------------------------------------------------------- imbalance triage

  /** Reactions never triaged: exchanges, biomass and demand reactions. */
  predicate Excluded(id: string)
  {
    StartsWith(id, "EX_") || StartsWith(id, "BIOMASS") || StartsWith(id, "DM")
  }

  /** A row of the imbalance tables (the equation strings are not modelled). The iSG
      id is the reaction's own id when iSG has it, "na" otherwise. */
  datatype ImbalanceRow = ImbalanceRow(icbiId: string, isgId: string, mb: Vec)

  /** An imbalance in hydrogen and charge only, whatever happens to oxygen. */
  predicate IsProtonImbalance(mb: Vec)
  {
    mb.Keys - {"O"} == {"H", "charge"}
  }

  function RowOf(r: Reaction, ms: seq<Metabolite>, isgIds: set<string>): ImbalanceRow
  {
    ImbalanceRow(r.id, if r.id in isgIds then r.id else "na", MassBalance(ms, r.stoich))
  }

  /** The reactions triaged: not excluded, and with a non-empty mass balance. */
  predicate Imbalanced(r: Reaction, ms: seq<Metabolite>)
  {
    !Excluded(r.id) && MassBalance(ms, r.stoich) != map[]
  }

  /** The proton table and the other table, in reaction order. */
  function Triage(ms: seq<Metabolite>, rs: seq<Reaction>, isgIds: set<string>): (seq<ImbalanceRow>, seq<ImbalanceRow>)
  {
    if rs == [] then ([], [])
    else
      var (p, o) := Triage(ms, rs[..|rs| - 1], isgIds);
      var r := rs[|rs| - 1];
      if !Imbalanced(r, ms) then (p, o)
      else if IsProtonImbalance(MassBalance(ms, r.stoich)) then (p + [RowOf(r, ms, isgIds)], o)
      else (p, o + [RowOf(r, ms, isgIds)])
  }

  /** The triage loop, which fills `dicts_p` and `dicts_o`. */
  method TriageImbalances(model: Model, isgIds: set<string>) returns (protons: seq<ImbalanceRow>, other: seq<ImbalanceRow>)
    ensures (protons, other) == Triage(model.metabolites, model.reactions, isgIds)
  {
    var ms := model.metabolites;
    var rs := model.reactions;
    protons, other := [], [];
    var i := 0;
    while i < |rs|
      invariant 0 <= i <= |rs|
      invariant (protons, other) == Triage(ms, rs[..i], isgIds)
    {
      assert rs[..i + 1][..i] == rs[..i];
      var rxn := rs[i];
      if !Excluded(rxn.id) {
        var mb := MassBalance(ms, rxn.stoich);
        if mb != map[] {
          var isgId := if rxn.id in isgIds then rxn.id else "na";
          if mb.Keys - {"O"} == {"H", "charge"} {
            protons := protons + [ImbalanceRow(rxn.id, isgId, mb)];
          } else {
            other := other + [ImbalanceRow(rxn.id, isgId, mb)];
          }
        }
      }
      i := i + 1;
    }
    assert rs[..i] == rs;
  }

  /** A row is in the proton table exactly when it comes from a triaged reaction whose
      imbalance is in hydrogen and charge only, and in the other table exactly when it
      comes from any other triaged reaction; excluded and balanced reactions give none. */
  lemma {:induction false} TriageMeaning(ms: seq<Metabolite>, rs: seq<Reaction>, isgIds: set<string>, row: ImbalanceRow)
    ensures row in Triage(ms, rs, isgIds).0 <==>
      exists i :: 0 <= i < |rs| && Imbalanced(rs[i], ms) && IsProtonImbalance(MassBalance(ms, rs[i].stoich)) && row == RowOf(rs[i], ms, isgIds)
    ensures row in Triage(ms, rs, isgIds).1 <==>
      exists i :: 0 <= i < |rs| && Imbalanced(rs[i], ms) && !IsProtonImbalance(MassBalance(ms, rs[i].stoich)) && row == RowOf(rs[i], ms, isgIds)
  {
    if rs != [] {
      var init := rs[..|rs| - 1];
      TriageMeaning(ms, init, isgIds, row);
      assert forall i :: 0 <= i < |init| ==> init[i] == rs[i];
      var last := |rs| - 1;
      if row in Triage(ms, rs, isgIds).0 && row !in Triage(ms, init, isgIds).0 {
        assert row == RowOf(rs[last], ms, isgIds);
      }
      if row in Triage(ms, rs, isgIds).1 && row !in Triage(ms, init, isgIds).1 {
        assert row == RowOf(rs[last], ms, isgIds);
      }
    }
  }

  /** Every triaged row has a non-empty imbalance and comes from a reaction that is
      not an exchange, biomass or demand reaction. */
  lemma TriageExcludes(ms: seq<Metabolite>, rs: seq<Reaction>, isgIds: set<string>, row: ImbalanceRow)
    requires row in Triage(ms, rs, isgIds).0 || row in Triage(ms, rs, isgIds).1
    ensures !Excluded(row.icbiId) && row.mb != map[]
    ensures row.isgId == row.icbiId || row.isgId == "na"
  {
    TriageMeaning(ms, rs, isgIds, row);
  }

  /** Rows compared by reaction id. */
  predicate IdLe(a: ImbalanceRow, b: ImbalanceRow)
  {
    LexLe(a.icbiId, b.icbiId)
  }

  lemma IdLePreorder()
    ensures TotalPreorder(IdLe)
  {
    forall a: ImbalanceRow, b: ImbalanceRow ensures IdLe(a, b) || IdLe(b, a) {
      LexLeTotal(a.icbiId, b.icbiId);
    }
    forall a: ImbalanceRow, b: ImbalanceRow, c: ImbalanceRow | IdLe(a, b) && IdLe(b, c) ensures IdLe(a, c) {
      LexLeTrans(a.icbiId, b.icbiId, c.icbiId);
    }
  }

  /** `write_dict_table`: the rows sorted ascending by reaction id. A table with no
      rows has no columns, so selecting the columns raises KeyError. */
  function ImbalanceTable(rows: seq<ImbalanceRow>): Result<seq<ImbalanceRow>, string>
  {
    if rows == [] then Err("KeyError") else Ok(SortBy(rows, IdLe))
  }

  /** The written table fails exactly on an empty row list, and otherwise holds the
      same rows, in ascending order of reaction id. */
  lemma ImbalanceTableSorted(rows: seq<ImbalanceRow>)
    ensures ImbalanceTable(rows).Err? <==> rows == []
    ensures ImbalanceTable(rows).Err? ==> ImbalanceTable(rows).error == "KeyError"
    ensures ImbalanceTable(rows).Ok? ==> multiset(ImbalanceTable(rows).value) == multiset(rows)
    ensures ImbalanceTable(rows).Ok? ==> forall i, j :: 0 <= i < j < |ImbalanceTable(rows).value| ==>
      LexLe(ImbalanceTable(rows).value[i].icbiId, ImbalanceTable(rows).value[j].icbiId)
  {
    IdLePreorder();
    SortBySorted(rows, IdLe);
  }

  // ---------------------------------------------------------------- metabolite curation rows

  /** `ignore_mets`: cofactors that are correct and appear often. */
  const IgnoreMets: set<string> := {"h_c", "nadph_c", "nadh_c", "nadp_c", "nad_c", "coa_c",
                                    "pi_c", "ppi_c", "h2o_c", "atp_c", "adp_c", "co2_c"}

  /** `metmap`: iCBI ids whose iSG counterpart has another id. */
  const MetMap: map<string, string> := map["alac__S_c" := "alac_c"]

  /** The iSG metabolite a metabolite is compared with: its own id first, then its
      `metmap` entry; None stands for the three "na" columns. */
  function IsgMatch(id: string, isg: map<string, Metabolite>): (m: Option<Metabolite>)
    ensures id in isg ==> m == Some(isg[id])
    ensures id !in isg && id in MetMap && MetMap[id] in isg ==> m == Some(isg[MetMap[id]])
    ensures m.None? <==> id !in isg && (id !in MetMap || MetMap[id] !in isg)
  {
    if id in isg then Some(isg[id])
    else if id in MetMap && MetMap[id] in isg then Some(isg[MetMap[id]])
    else None
  }

  /** A row of `metabolites.csv`; the curated columns repeat the iCBI formula and charge. */
  datatype MetRow = MetRow(rxnId: string, icbiId: string, icbiFormula: string, icbiCharge: Option<real>,
                           isg: Option<Metabolite>)

  function MetRowOf(rxnId: string, m: Metabolite, isg: map<string, Metabolite>): MetRow
  {
    MetRow(rxnId, m.id, m.formula, m.charge, IsgMatch(m.id, isg))
  }

  /** The rows of one reaction: its metabolites, in model order, minus the cofactors. */
  function RowsFor(r: Reaction, ms: seq<Metabolite>, isg: map<string, Metabolite>): seq<MetRow>
  {
    if ms == [] then []
    else
      var m := ms[|ms| - 1];
      RowsFor(r, ms[..|ms| - 1], isg) + (if m.id in r.stoich && m.id !in IgnoreMets then [MetRowOf(r.id, m, isg)] else [])
  }

  /** The rows of every reaction of the other-imbalances table, in table order. */
  function MetRows(rs: seq<Reaction>, ms: seq<Metabolite>, other: seq<ImbalanceRow>, isg: map<string, Metabolite>): seq<MetRow>
    requires forall k :: 0 <= k < |other| ==> FindReaction(rs, other[k].icbiId).Some?
  {
    if other == [] then []
    else
      var row := other[|other| - 1];
      MetRows(rs, ms, other[..|other| - 1], isg) + RowsFor(rs[FindReaction(rs, row.icbiId).value], ms, isg)
  }

  /** The loop that writes `metabolites.csv`, before its final sort. Every reaction of
      the table is looked up by id, as `get_by_id` does. */
  method WriteMetaboliteRows(model: Model, other: seq<ImbalanceRow>, isg: map<string, Metabolite>) returns (rows: seq<MetRow>)
    requires forall k :: 0 <= k < |other| ==> FindReaction(model.reactions, other[k].icbiId).Some?
    ensures rows == MetRows(model.reactions, model.metabolites, other, isg)
  {
    var rs := model.reactions;
    var ms := model.metabolites;
    rows := [];
    var i := 0;
    while i < |other|
      invariant 0 <= i <= |other|
      invariant rows == MetRows(rs, ms, other[..i], isg)
    {
      assert other[..i + 1][..i] == other[..i];
      var rxn := rs[FindReaction(rs, other[i].icbiId).value];
      var more := ReactionRows(rxn, ms, isg);
      rows := rows + more;
      i := i + 1;
    }
    assert other[..i] == other;
  }

  /** The inner loop over the metabolites of the model for one reaction. */
  method ReactionRows(rxn: Reaction, ms: seq<Metabolite>, isg: map<string, Metabolite>) returns (rows: seq<MetRow>)
    ensures rows == RowsFor(rxn, ms, isg)
  {
    rows := [];
    var k := 0;
    while k < |ms|
      invariant 0 <= k <= |ms|
      invariant rows == RowsFor(rxn, ms[..k], isg)
    {
      assert ms[..k + 1][..k] == ms[..k];
      var met := ms[k];
      if met.id in rxn.stoich && met.id !in IgnoreMets {
        rows := rows + [MetRowOf(rxn.id, met, isg)];
      }
      k := k + 1;
    }
    assert ms[..k] == ms;
  }

  /** A reaction's rows are exactly its non-cofactor metabolites: no cofactor of
      `ignore_mets` ever gets a row. */
  lemma {:induction false} RowsForMeaning(r: Reaction, ms: seq<Metabolite>, isg: map<string, Metabolite>, row: MetRow)
    ensures row in RowsFor(r, ms, isg) <==>
      exists j :: 0 <= j < |ms| && ms[j].id in r.stoich && ms[j].id !in IgnoreMets && row == MetRowOf(r.id, ms[j], isg)
  {
    if ms != [] {
      var init := ms[..|ms| - 1];
      RowsForMeaning(r, init, isg, row);
      assert forall j :: 0 <= j < |init| ==> init[j] == ms[j];
    }
  }

  /** The row of a metabolite of the reaction that is not a cofactor is written. */
  lemma RowsForComplete(r: Reaction, ms: seq<Metabolite>, isg: map<string, Metabolite>, j: nat)
    requires j < |ms| && ms[j].id in r.stoich && ms[j].id !in IgnoreMets
    ensures MetRowOf(r.id, ms[j], isg) in RowsFor(r, ms, isg)
  {
    RowsForMeaning(r, ms, isg, MetRowOf(r.id, ms[j], isg));
  }

  /** Every written row comes from some reaction `k` of the table and some
      non-cofactor metabolite `j` of it. */
  lemma {:induction false} MetRowsSound(rs: seq<Reaction>, ms: seq<Metabolite>, other: seq<ImbalanceRow>, isg: map<string, Metabolite>, row: MetRow)
    returns (k: nat, j: nat)
    requires forall k :: 0 <= k < |other| ==> FindReaction(rs, other[k].icbiId).Some?
    requires row in MetRows(rs, ms, other, isg)
    ensures k < |other| && j < |ms| && ms[j].id in rs[FindReaction(rs, other[k].icbiId).value].stoich
    ensures ms[j].id !in IgnoreMets && row == MetRowOf(other[k].icbiId, ms[j], isg)
  {
    var init := other[..|other| - 1];
    var last := |other| - 1;
    var r := rs[FindReaction(rs, other[last].icbiId).value];
    assert forall k :: 0 <= k < |init| ==> init[k] == other[k];
    if row in MetRows(rs, ms, init, isg) {
      k, j := MetRowsSound(rs, ms, init, isg, row);
      assert init[k] == other[k];
    } else {
      RowsForMeaning(r, ms, isg, row);
      j :| 0 <= j < |ms| && ms[j].id in r.stoich && ms[j].id !in IgnoreMets && row == MetRowOf(r.id, ms[j], isg);
      k := last;
    }
  }

  /** The row of reaction `k` of the table and metabolite `j` is written when the
      metabolite takes part in the reaction and is not a cofactor. */
  lemma {:induction false} MetRowsComplete(rs: seq<Reaction>, ms: seq<Metabolite>, other: seq<ImbalanceRow>, isg: map<string, Metabolite>, k: nat, j: nat)
    requires forall k :: 0 <= k < |other| ==> FindReaction(rs, other[k].icbiId).Some?
    requires k < |other| && j < |ms| && ms[j].id in rs[FindReaction(rs, other[k].icbiId).value].stoich
    requires ms[j].id !in IgnoreMets
    ensures MetRowOf(other[k].icbiId, ms[j], isg) in MetRows(rs, ms, other, isg)
  {
    var init := other[..|other| - 1];
    var last := |other| - 1;
    var r := rs[FindReaction(rs, other[last].icbiId).value];
    var row := MetRowOf(other[k].icbiId, ms[j], isg);
    if k < last {
      assert forall k :: 0 <= k < |init| ==> init[k] == other[k];
      assert init[k] == other[k];
      MetRowsComplete(rs, ms, init, isg, k, j);
    } else {
      assert r.id == other[last].icbiId;
      RowsForComplete(r, ms, isg, j);
    }
  }

  /** Every written row belongs to a reaction of the table and to one of its
      non-cofactor metabolites, and every such pair is written. */
  lemma MetRowsMeaning(rs: seq<Reaction>, ms: seq<Metabolite>, other: seq<ImbalanceRow>, isg: map<string, Metabolite>, row: MetRow)
    requires forall k :: 0 <= k < |other| ==> FindReaction(rs, other[k].icbiId).Some?
    ensures row in MetRows(rs, ms, other, isg) <==>
      exists k, j :: 0 <= k < |other| && 0 <= j < |ms| && ms[j].id in rs[FindReaction(rs, other[k].icbiId).value].stoich
        && ms[j].id !in IgnoreMets && row == MetRowOf(other[k].icbiId, ms[j], isg)
    ensures row in MetRows(rs, ms, other, isg) ==> row.icbiId !in IgnoreMets
  {
    if row in MetRows(rs, ms, other, isg) {
      var k, j := MetRowsSound(rs, ms, other, isg, row);
    }
    if exists k, j :: 0 <= k < |other| && 0 <= j < |ms| && ms[j].id in rs[FindReaction(rs, other[k].icbiId).value].stoich
         && ms[j].id !in IgnoreMets && row == MetRowOf(other[k].icbiId, ms[j], isg)
    {
      var k, j :| 0 <= k < |other| && 0 <= j < |ms| && ms[j].id in rs[FindReaction(rs, other[k].icbiId).value].stoich
        && ms[j].id !in IgnoreMets && row == MetRowOf(other[k].icbiId, ms[j], isg);
      MetRowsComplete(rs, ms, other, isg, k, j);
    }
  }

  /** Rows compared by reaction id, the final sort of `metabolites.csv`. */
  predicate RxnLe(a: MetRow, b: MetRow)
  {
    LexLe(a.rxnId, b.rxnId)
  }

  lemma RxnLePreorder()
    ensures TotalPreorder(RxnLe)
  {
    forall a: MetRow, b: MetRow ensures RxnLe(a, b) || RxnLe(b, a) {
      LexLeTotal(a.rxnId, b.rxnId);
    }
    forall a: MetRow, b: MetRow, c: MetRow | RxnLe(a, b) && RxnLe(b, c) ensures RxnLe(a, c) {
      LexLeTrans(a.rxnId, b.rxnId, c.rxnId);
    }
  }

  function MetaboliteTable(rows: seq<MetRow>): seq<MetRow>
  {
    SortBy(rows, RxnLe)
  }

  /** The sorted file holds the same rows, ascending by reaction id. */
  lemma MetaboliteTableSorted(rows: seq<MetRow>)
    ensures multiset(MetaboliteTable(rows)) == multiset(rows)
    ensures forall i, j :: 0 <= i < j < |MetaboliteTable(rows)| ==> LexLe(MetaboliteTable(rows)[i].rxnId, MetaboliteTable(rows)[j].rxnId)
  {
    RxnLePreorder();
    SortBySorted(rows, RxnLe);
  }
}
