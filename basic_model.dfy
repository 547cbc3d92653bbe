/*
  Building iSG_3 from the curated reaction table (steps/6_basic_model.py): the
  new-metabolite table, the add/delete/update dispatch over curation rows, the
  old_gpr note written with the retired locus tags, the gene names, and the bulk
  additions of generically annotated genes (the cellulosome GPR and the amino-acid
  ABC transporters).
*/
module BasicModel {
  import opened Common
  import opened Text
  import opened Cobra
  import Nomenclature

  /** What the script raises when a step cannot go on. */
  datatype Raised = KeyError(key: string) | IndexError | ValueError | AttributeError(name: string)

  // ---------------------------------------------------------------- new metabolites

  /** A row of basic_model_curation_new_metabolites.csv; the charge column is read as
      a float. */
  datatype NewMetaboliteRow = NewMetaboliteRow(
    isgId: string, isgName: string, isgFormula: string, isgCharge: real, isgKegg: string, notes: string)

  /** The metabolite built from a row. `dict(row['notes'])` turns a string into a dict
      only when it is empty: every element of a non-empty string is one character
      long, not a key/value pair, so it raises ValueError. */
  function NewMetabolite(row: NewMetaboliteRow): (r: Result<Metabolite, Raised>)
    ensures r.Ok? <==> row.notes == ""
    ensures r.Ok? ==>
      (&& r.value.id == row.isgId && r.value.charge == Some(row.isgCharge)
       && r.value.notes == map["KEGG_ID" := Str(row.isgKegg)])
  {
    if row.notes != "" then Err(ValueError)
    else Ok(Metabolite(row.isgId, row.isgName, row.isgFormula, Some(row.isgCharge), "",
                       map["KEGG_ID" := Str(row.isgKegg)], map[]))
  }

  /** The metabolites of the rows, in order, or the error of the first bad row. */
  function NewMetabolites(rows: seq<NewMetaboliteRow>): Result<seq<Metabolite>, Raised>
  {
    if rows == [] then Ok([])
    else match NewMetabolites(rows[..|rows| - 1])
      case Err(e) => Err(e)
      case Ok(ms) =>
        match NewMetabolite(rows[|rows| - 1])
        case Err(e) => Err(e)
        case Ok(m) => Ok(ms + [m])
  }

  /** The new metabolites whose id the model does not have yet (cobra's
      `add_metabolites` skips the others). */
  function Unknown(ms: seq<Metabolite>, news: seq<Metabolite>): (r: seq<Metabolite>)
    ensures forall m :: m in r <==> m in news && FindMetabolite(ms, m.id).None?
  {
    if news == [] then []
    else
      var init := Unknown(ms, news[..|news| - 1]);
      var m := news[|news| - 1];
      if FindMetabolite(ms, m.id).None? then init + [m] else init
  }

  /** No two metabolites share an id. */
  predicate UniqueIds(ms: seq<Metabolite>)
  {
    forall i, j :: 0 <= i < j < |ms| ==> ms[i].id != ms[j].id
  }

  /** `model.add_metabolites(metabolites)`: metabolites already present are skipped; an
      empty id or two new metabolites with one id raise ValueError. */
  function AddNew(ms: seq<Metabolite>, news: seq<Metabolite>): Result<seq<Metabolite>, Raised>
  {
    var unseen := Unknown(ms, news);
    if exists m :: m in unseen && m.id == "" then Err(ValueError)
    else if !UniqueIds(unseen) then Err(ValueError)
    else Ok(ms + unseen)
  }

  /** The new-metabolite block of `main`: the rows are all read before the model is
      touched, so a bad row leaves the model as it was. */
  method AddNewMetabolites(model: Model, rows: seq<NewMetaboliteRow>) returns (failure: Option<Raised>)
    modifies model`metabolites
    ensures match NewMetabolites(rows)
      case Err(e) => failure == Some(e) && model.metabolites == old(model.metabolites)
      case Ok(news) =>
        match AddNew(old(model.metabolites), news)
        case Err(e) => failure == Some(e) && model.metabolites == old(model.metabolites)
        case Ok(ms) => failure.None? && model.metabolites == ms
  {
    var news: seq<Metabolite> := [];
    var i := 0;
    while i < |rows|
      invariant 0 <= i <= |rows|
      invariant NewMetabolites(rows[..i]) == Ok(news)
    {
      assert rows[..i + 1][..i] == rows[..i];
      var m := NewMetabolite(rows[i]);
      if m.Err? {
        NewMetabolitesStops(rows, i + 1);
        return Some(m.error);
      }
      news := news + [m.value];
      i := i + 1;
    }
    assert rows[..i] == rows;
    var added := AddNew(model.metabolites, news);
    if added.Err? {
      return Some(added.error);
    }
    model.metabolites := added.value;
    failure := None;
  }

  /** Once a row is bad, the rows after it do not matter. */
  lemma {:induction false} NewMetabolitesStops(rows: seq<NewMetaboliteRow>, i: nat)
    requires i <= |rows| && NewMetabolites(rows[..i]).Err?
    ensures NewMetabolites(rows) == NewMetabolites(rows[..i])
    decreases |rows| - i
  {
    if i < |rows| {
      assert rows[..i + 1][..i] == rows[..i];
      NewMetabolitesStops(rows, i + 1);
    } else {
      assert rows[..i] == rows;
    }
  }

  /** The table loads exactly when no row has notes, and then in row order. */
  lemma {:induction false} NewMetabolitesMeaning(rows: seq<NewMetaboliteRow>)
    ensures NewMetabolites(rows).Ok? <==> forall i :: 0 <= i < |rows| ==> rows[i].notes == ""
    ensures NewMetabolites(rows).Ok? ==>
      |NewMetabolites(rows).value| == |rows| &&
      forall i :: 0 <= i < |rows| ==> NewMetabolites(rows).value[i] == NewMetabolite(rows[i]).value
  {
    if rows != [] {
      var init := rows[..|rows| - 1];
      NewMetabolitesMeaning(init);
      assert forall i :: 0 <= i < |init| ==> rows[i] == init[i];
    }
  }

  /** After a successful addition every new metabolite's id is found in the model, and
      the metabolites already there are kept, in their places. */
  lemma AddNewMeaning(ms: seq<Metabolite>, news: seq<Metabolite>)
    requires AddNew(ms, news).Ok?
    ensures var r := AddNew(ms, news).value;
      && r[..|ms|] == ms
      && forall m :: m in news ==> FindMetabolite(r, m.id).Some?
  {
    var r := AddNew(ms, news).value;
    var unseen := Unknown(ms, news);
    assert r == ms + unseen;
    forall m | m in news ensures FindMetabolite(r, m.id).Some? {
      match FindMetabolite(ms, m.id)
      case Some(i) => assert r[i].id == m.id;
      case None =>
        assert m in unseen;
        var k :| 0 <= k < |unseen| && unseen[k] == m;
        assert r[|ms| + k].id == m.id;
    }
  }

  // ---------------------------------------------------------------- curation rows

  /** The columns of basic_model_curation_reactions_curated.csv the script reads; the
      bounds are read as floats. */
  datatype CurationRow = CurationRow(
    modification: string,
    reactionId: string,
    reactionName: string,
    newEquation: string,
    gpr: string,
    oldGpr: string,
    subsystem: string,
    confidenceLevel: string,
    lowerBound: real,
    upperBound: real,
    literatureReferences: string,
    curationNotes: string,
    dbLinks: string)

  /** `cb.Reaction(id)`: no name, no metabolites, bounds (0, 1000). */
  function NewReaction(id: string): Reaction
  {
    Reaction(id, "", map[], 0.0, 1000.0, "", "", map[], map[])
  }

  /** The notes dict a row writes, replacing the old one. */
  function RowNotes(row: CurationRow): map<string, Note>
  {
    var base := map["old_gpr" := Str(row.oldGpr), "confidence_level" := Str(row.confidenceLevel),
                    "DB_links" := Str(row.dbLinks)];
    var withRefs := if row.literatureReferences != "" then base["literature_references" := Str(row.literatureReferences)] else base;
    if row.curationNotes != "" then withRefs["curation_notes" := Str(row.curationNotes)] else withRefs
  }

  /** The three notes always present, and the two optional ones exactly when their
      column is not empty. */
  lemma RowNotesMeaning(row: CurationRow)
    ensures var n := RowNotes(row);
      && n.Keys == {"old_gpr", "confidence_level", "DB_links"}
                   + (if row.literatureReferences != "" then {"literature_references"} else {})
                   + (if row.curationNotes != "" then {"curation_notes"} else {})
      && n["old_gpr"] == Str(row.oldGpr) && n["confidence_level"] == Str(row.confidenceLevel)
      && n["DB_links"] == Str(row.dbLinks)
  {
  }

  /** The fields a non-delete row overwrites; the equation is read through `parse`,
      which stands for cobra's equation parser. */
  function Curated(r: Reaction, row: CurationRow, parse: string -> Vec): Reaction
  {
    r.(name := row.reactionName, stoich := parse(row.newEquation), gpr := row.gpr,
       subsystem := row.subsystem, lb := row.lowerBound, ub := row.upperBound, notes := RowNotes(row))
  }

  /** The reactions after some rows, the number of `delete:duplicate` rows among them,
      and what the last one raised, if anything. */
  datatype Curation = Curation(reactions: seq<Reaction>, duplicates: nat, failure: Option<Raised>)

  /** A row whose modification is `delete:duplicate`. */
  predicate DuplicateDelete(row: CurationRow)
  {
    var m := Split(row.modification, ':');
    m[0] == "delete" && |m| >= 2 && m[1] == "duplicate"
  }

  /** One pass of the row loop. 'add' creates the reaction and updates it (cobra's
      `add_reactions` skips a reaction whose id is taken, and the updates then go to a
      reaction outside the model); any other modification looks the reaction up
      (KeyError when missing); 'delete' removes it and then reads the part after ':',
      raising IndexError when there is none; everything else updates it. */
  function ApplyRow(rs: seq<Reaction>, row: CurationRow, parse: string -> Vec): Curation
  {
    var m := Split(row.modification, ':');
    if m[0] == "add" then
      if FindReaction(rs, row.reactionId).Some? then Curation(rs, 0, None)
      else Curation(rs + [Curated(NewReaction(row.reactionId), row, parse)], 0, None)
    else match FindReaction(rs, row.reactionId)
      case None => Curation(rs, 0, Some(KeyError(row.reactionId)))
      case Some(i) =>
        if m[0] == "delete" then
          var rest := rs[..i] + rs[i + 1..];
          if |m| < 2 then Curation(rest, 0, Some(IndexError))
          else Curation(rest, if m[1] == "duplicate" then 1 else 0, None)
        else Curation(rs[i := Curated(rs[i], row, parse)], 0, None)
  }

  /** The row loop of `main`, stopping at the first row that raises. */
  function Curate(rs: seq<Reaction>, rows: seq<CurationRow>, parse: string -> Vec): Curation
  {
    if rows == [] then Curation(rs, 0, None)
    else
      var c := Curate(rs, rows[..|rows| - 1], parse);
      if c.failure.Some? then c
      else
        var s := ApplyRow(c.reactions, rows[|rows| - 1], parse);
        Curation(s.reactions, c.duplicates + s.duplicates, s.failure)
  }

  /** One row on the model. */
  method CurateRow(model: Model, row: CurationRow, parse: string -> Vec) returns (duplicate: nat, failure: Option<Raised>)
    modifies model`reactions
    ensures Curation(model.reactions, duplicate, failure) == ApplyRow(old(model.reactions), row, parse)
  {
    var modification := Split(row.modification, ':');
    duplicate, failure := 0, None;
    if modification[0] == "add" {
      if FindReaction(model.reactions, row.reactionId).None? {
        var reaction := Curated(NewReaction(row.reactionId), row, parse);
        model.reactions := model.reactions + [reaction];
      }
      return;
    }
    var found := FindReaction(model.reactions, row.reactionId);
    if found.None? {
      return 0, Some(KeyError(row.reactionId));
    }
    var i := found.value;
    if modification[0] == "delete" {
      model.reactions := model.reactions[..i] + model.reactions[i + 1..];
      if |modification| < 2 {
        return 0, Some(IndexError);
      }
      if modification[1] == "duplicate" {
        duplicate := 1;
      }
    } else {
      model.reactions := model.reactions[i := Curated(model.reactions[i], row, parse)];
    }
  }

  /** The curation-row loop of `main`; the counter is `duplicate_coutner`. */
  method CurateReactions(model: Model, rows: seq<CurationRow>, parse: string -> Vec)
    returns (duplicates: nat, failure: Option<Raised>)
    modifies model`reactions
    ensures Curation(model.reactions, duplicates, failure) == Curate(old(model.reactions), rows, parse)
  {
    duplicates, failure := 0, None;
    var i := 0;
    while i < |rows|
      invariant 0 <= i <= |rows|
      invariant Curate(old(model.reactions), rows[..i], parse) == Curation(model.reactions, duplicates, None)
    {
      assert rows[..i + 1][..i] == rows[..i];
      var d, f := CurateRow(model, rows[i], parse);
      duplicates := duplicates + d;
      if f.Some? {
        CurateStops(old(model.reactions), rows, parse, i + 1);
        return duplicates, f;
      }
      i := i + 1;
    }
    assert rows[..i] == rows;
  }

  /** Once a row raises, the rows after it do not matter. */
  lemma {:induction false} CurateStops(rs: seq<Reaction>, rows: seq<CurationRow>, parse: string -> Vec, i: nat)
    requires i <= |rows| && Curate(rs, rows[..i], parse).failure.Some?
    ensures Curate(rs, rows, parse) == Curate(rs, rows[..i], parse)
    decreases |rows| - i
  {
    if i < |rows| {
      assert rows[..i + 1][..i] == rows[..i];
      CurateStops(rs, rows, parse, i + 1);
    } else {
      assert rows[..i] == rows;
    }
  }

  /** Number of `delete:duplicate` rows. */
  function DuplicateRows(rows: seq<CurationRow>): nat
  {
    if rows == [] then 0
    else DuplicateRows(rows[..|rows| - 1]) + if DuplicateDelete(rows[|rows| - 1]) then 1 else 0
  }

  /** When the loop runs to the end, the counter is the number of `delete:duplicate`
      rows: such a row can only have succeeded by deleting an existing reaction. */
  lemma {:induction false} CurateCountsDuplicates(rs: seq<Reaction>, rows: seq<CurationRow>, parse: string -> Vec)
    requires Curate(rs, rows, parse).failure.None?
    ensures Curate(rs, rows, parse).duplicates == DuplicateRows(rows)
  {
    if rows != [] {
      CurateCountsDuplicates(rs, rows[..|rows| - 1], parse);
    }
  }

  /** What one successful row leaves in the model: a deleted reaction can no longer
      be found (ids being unique), an 'add' for a taken id changes nothing, an added
      reaction is appended and a curated one is the reaction found under the row's id,
      carrying the row's fields and notes. */
  lemma ApplyRowMeaning(rs: seq<Reaction>, row: CurationRow, parse: string -> Vec)
    requires forall i, j :: 0 <= i < j < |rs| ==> rs[i].id != rs[j].id
    ensures var m := Split(row.modification, ':');
      var c := ApplyRow(rs, row, parse);
      && (c.failure == Some(KeyError(row.reactionId)) <==> m[0] != "add" && FindReaction(rs, row.reactionId).None?)
      && (c.failure == Some(IndexError) <==> m[0] == "delete" && FindReaction(rs, row.reactionId).Some? && |m| == 1)
      && (m[0] == "delete" && FindReaction(rs, row.reactionId).Some? ==>
            |c.reactions| == |rs| - 1 && FindReaction(c.reactions, row.reactionId).None?)
      && (m[0] == "add" && FindReaction(rs, row.reactionId).Some? ==> c == Curation(rs, 0, None))
      && (m[0] != "delete" && c.failure.None? && (m[0] != "add" || FindReaction(rs, row.reactionId).None?) ==>
            |c.reactions| == |rs| + (if m[0] == "add" then 1 else 0)
            && FindReaction(c.reactions, row.reactionId).Some?
            && c.reactions[FindReaction(c.reactions, row.reactionId).value] ==
                 Curated(if m[0] == "add" then NewReaction(row.reactionId) else rs[FindReaction(rs, row.reactionId).value], row, parse))
  {
    var m := Split(row.modification, ':');
    var c := ApplyRow(rs, row, parse);
    var id := row.reactionId;
    if m[0] == "add" {
      if FindReaction(rs, id).None? {
        var r := c.reactions;
        assert r[|rs|].id == id;
        assert FindReaction(r, id).Some?;
        assert FindReaction(r, id).value == |rs|;
      }
    } else if FindReaction(rs, id).Some? {
      var i := FindReaction(rs, id).value;
      if m[0] == "delete" {
        var r := c.reactions;
        assert r == rs[..i] + rs[i + 1..];
        forall j | 0 <= j < |r| ensures r[j].id != id {
          if j < i { assert r[j] == rs[j]; } else { assert r[j] == rs[j + 1]; }
        }
      } else {
        var r := c.reactions;
        assert r[i].id == id;
        assert FindReaction(r, id).Some?;
        assert FindReaction(r, id).value == i;
      }
    }
  }

  // ---------------------------------------------------------------- gene_update.csv columns

  /** The (locus tag, column) pairs of the table, in row order. */
  function ColumnPairs(rows: seq<Nomenclature.GeneUpdateRow>, column: Nomenclature.GeneUpdateRow -> string): (r: seq<(string, string)>)
    ensures |r| == |rows|
    ensures forall i :: 0 <= i < |rows| ==> r[i] == (rows[i].locusTag, column(rows[i]))
  {
    if rows == [] then [] else ColumnPairs(rows[..|rows| - 1], column) + [(rows[|rows| - 1].locusTag, column(rows[|rows| - 1]))]
  }

  /** A dict from locus tag to one column, filled row by row: its keys in insertion
      order and its values. */
  method BuildColumnMap(rows: seq<Nomenclature.GeneUpdateRow>, column: Nomenclature.GeneUpdateRow -> string)
    returns (keys: seq<string>, values: map<string, string>)
    ensures keys == FirstOccurrences(Nomenclature.KeysOf(ColumnPairs(rows, column)))
    ensures values == BuildMap(ColumnPairs(rows, column))
  {
    keys, values := [], map[];
    var i := 0;
    while i < |rows|
      invariant 0 <= i <= |rows|
      invariant keys == FirstOccurrences(Nomenclature.KeysOf(ColumnPairs(rows[..i], column)))
      invariant values == BuildMap(ColumnPairs(rows[..i], column))
    {
      assert rows[..i + 1][..i] == rows[..i];
      var tag := rows[i].locusTag;
      assert ColumnPairs(rows[..i + 1], column) == ColumnPairs(rows[..i], column) + [(tag, column(rows[i]))];
      Nomenclature.PairStep(ColumnPairs(rows[..i], column), (tag, column(rows[i])));
      if tag !in keys {
        keys := keys + [tag];
      }
      values := values[tag := column(rows[i])];
      i := i + 1;
    }
    assert rows[..i] == rows;
  }

  /** The value a locus tag gets is the column of its last row. */
  lemma ColumnMapLastWins(rows: seq<Nomenclature.GeneUpdateRow>, column: Nomenclature.GeneUpdateRow -> string, i: nat)
    requires i < |rows| && forall j :: i < j < |rows| ==> rows[j].locusTag != rows[i].locusTag
    ensures var m := BuildMap(ColumnPairs(rows, column));
      rows[i].locusTag in m && m[rows[i].locusTag] == column(rows[i])
  {
    BuildMapLastWins(ColumnPairs(rows, column), i);
  }

  /** A locus tag is a key exactly when some row carries it. */
  lemma ColumnMapKeys(rows: seq<Nomenclature.GeneUpdateRow>, column: Nomenclature.GeneUpdateRow -> string, tag: string)
    ensures tag in BuildMap(ColumnPairs(rows, column)) <==> exists i :: 0 <= i < |rows| && rows[i].locusTag == tag
  {
    var pairs := ColumnPairs(rows, column);
    BuildMapKeys(pairs, tag);
    if exists i :: 0 <= i < |rows| && rows[i].locusTag == tag {
      var i :| 0 <= i < |rows| && rows[i].locusTag == tag;
      assert pairs[i].0 == tag;
    }
  }

  // ---------------------------------------------------------------- add_old_gene_ids_note

  /** The (locus tag, old locus tag) pairs of the rows that have an old tag. */
  function OldTagPairs(rows: seq<Nomenclature.GeneUpdateRow>): seq<(string, string)>
  {
    if rows == [] then []
    else
      var row := rows[|rows| - 1];
      if row.oldLocusTag != "" then OldTagPairs(rows[..|rows| - 1]) + [(row.locusTag, row.oldLocusTag)]
      else OldTagPairs(rows[..|rows| - 1])
  }

  lemma OldTagPairsStep(rows: seq<Nomenclature.GeneUpdateRow>, i: nat)
    requires i < |rows|
    ensures OldTagPairs(rows[..i + 1]) ==
      if rows[i].oldLocusTag != "" then OldTagPairs(rows[..i]) + [(rows[i].locusTag, rows[i].oldLocusTag)]
      else OldTagPairs(rows[..i])
  {
    assert rows[..i + 1][..i] == rows[..i];
  }

  /** The dict after one more row. */
  lemma OldTagMapStep(rows: seq<Nomenclature.GeneUpdateRow>, i: nat)
    requires i < |rows|
    ensures BuildMap(OldTagPairs(rows[..i + 1])) ==
      if rows[i].oldLocusTag != "" then BuildMap(OldTagPairs(rows[..i]))[rows[i].locusTag := rows[i].oldLocusTag]
      else BuildMap(OldTagPairs(rows[..i]))
  {
    OldTagPairsStep(rows, i);
    if rows[i].oldLocusTag != "" {
      Nomenclature.PairStep(OldTagPairs(rows[..i]), (rows[i].locusTag, rows[i].oldLocusTag));
    }
  }

  /** `repdict` of `add_old_gene_ids_note`. */
  method BuildOldTagMap(rows: seq<Nomenclature.GeneUpdateRow>) returns (repdict: map<string, string>)
    ensures repdict == BuildMap(OldTagPairs(rows))
  {
    repdict := map[];
    var i := 0;
    while i < |rows|
      invariant 0 <= i <= |rows|
      invariant repdict == BuildMap(OldTagPairs(rows[..i]))
    {
      OldTagMapStep(rows, i);
      if rows[i].oldLocusTag != "" {
        repdict := repdict[rows[i].locusTag := rows[i].oldLocusTag];
      }
      i := i + 1;
    }
    assert rows[..i] == rows;
  }

  /** A row with a non-empty old tag gives the pair (locus tag, old tag). */
  predicate GivesPair(row: Nomenclature.GeneUpdateRow, pair: (string, string))
  {
    row.oldLocusTag != "" && pair == (row.locusTag, row.oldLocusTag)
  }

  /** A pair is used exactly when some row with a non-empty old tag gives it. */
  lemma {:induction false} OldTagPairsMeaning(rows: seq<Nomenclature.GeneUpdateRow>, pair: (string, string))
    ensures pair in OldTagPairs(rows) <==> exists i :: 0 <= i < |rows| && GivesPair(rows[i], pair)
  {
    if rows != [] {
      var n := |rows| - 1;
      var init := rows[..n];
      OldTagPairsMeaning(init, pair);
      if pair in OldTagPairs(rows) {
        if pair in OldTagPairs(init) {
          var i :| 0 <= i < |init| && GivesPair(init[i], pair);
          assert rows[i] == init[i];
        } else {
          assert GivesPair(rows[n], pair);
        }
      } else {
        forall i | 0 <= i < |rows| ensures !GivesPair(rows[i], pair) {
          if i < n {
            assert rows[i] == init[i];
          }
        }
      }
    }
  }

  /** Only rows with a non-empty old tag give a key, and every such row does. */
  lemma OldTagMapKeys(rows: seq<Nomenclature.GeneUpdateRow>, tag: string)
    ensures tag in BuildMap(OldTagPairs(rows)) <==>
      exists i :: 0 <= i < |rows| && rows[i].oldLocusTag != "" && rows[i].locusTag == tag
  {
    var pairs := OldTagPairs(rows);
    BuildMapKeys(pairs, tag);
    if exists j :: 0 <= j < |pairs| && pairs[j].0 == tag {
      var j :| 0 <= j < |pairs| && pairs[j].0 == tag;
      OldTagPairsMeaning(rows, pairs[j]);
    }
    if exists i :: 0 <= i < |rows| && rows[i].oldLocusTag != "" && rows[i].locusTag == tag {
      var i :| 0 <= i < |rows| && rows[i].oldLocusTag != "" && rows[i].locusTag == tag;
      OldTagPairsMeaning(rows, (rows[i].locusTag, rows[i].oldLocusTag));
      var j :| 0 <= j < |pairs| && pairs[j] == (rows[i].locusTag, rows[i].oldLocusTag);
    }
  }

  /** A non-empty run of word characters (`\w+`). */
  predicate IsWord(w: string)
  {
    w != [] && forall i :: 0 <= i < |w| ==> IsWordChar(w[i])
  }

  /** Length of the run of word characters at the start of `s`. */
  function WordLen(s: string): (n: nat)
    ensures n <= |s|
    ensures forall i :: 0 <= i < n ==> IsWordChar(s[i])
    ensures n < |s| ==> !IsWordChar(s[n])
    ensures s != [] && IsWordChar(s[0]) ==> n >= 1
  {
    if s == [] || !IsWordChar(s[0]) then 0 else 1 + WordLen(s[1..])
  }

  /** `re.compile(r'\b(k1|k2|...)\b').sub(lambda x: repdict[x.group()], s)` when every key
      is a word: a key can only match a whole word (a maximal run of word characters,
      since the boundaries on both sides leave no word character next to it), so each
      word that is a key is replaced by its value and everything else is kept. */
  function ReplaceWords(s: string, rep: map<string, string>): string
    decreases |s|
  {
    if s == [] then ""
    else if !IsWordChar(s[0]) then [s[0]] + ReplaceWords(s[1..], rep)
    else
      var n := WordLen(s);
      (if s[..n] in rep then rep[s[..n]] else s[..n]) + ReplaceWords(s[n..], rep)
  }

  /** The words of `s`, in order. */
  function Words(s: string): seq<string>
    decreases |s|
  {
    if s == [] then []
    else if !IsWordChar(s[0]) then Words(s[1..])
    else
      var n := WordLen(s);
      [s[..n]] + Words(s[n..])
  }

  /** A word followed by nothing or by a non-word character is read as one word. */
  lemma {:induction false} WordLenPrefix(w: string, rest: string)
    requires IsWord(w) && (rest == [] || !IsWordChar(rest[0]))
    ensures WordLen(w + rest) == |w|
  {
    if |w| > 1 {
      assert (w + rest)[1..] == w[1..] + rest;
      WordLenPrefix(w[1..], rest);
    } else {
      assert (w + rest)[1..] == rest;
    }
  }

  /** Rewriting keeps a leading non-word character in front. */
  lemma ReplaceWordsFirst(s: string, rep: map<string, string>)
    requires s != [] && !IsWordChar(s[0])
    ensures ReplaceWords(s, rep) != [] && ReplaceWords(s, rep)[0] == s[0]
  {
  }

  /** Rewriting a word and what follows it. */
  lemma ReplaceWordsWord(w: string, rest: string, rep: map<string, string>)
    requires IsWord(w) && (rest == [] || !IsWordChar(rest[0]))
    ensures ReplaceWords(w + rest, rep) == (if w in rep then rep[w] else w) + ReplaceWords(rest, rep)
    ensures Words(w + rest) == [w] + Words(rest)
  {
    WordLenPrefix(w, rest);
    assert (w + rest)[..|w|] == w;
    assert (w + rest)[|w|..] == rest;
  }

  /** A string none of whose words is a key is left as it is. */
  lemma {:induction false} ReplaceWordsNoKey(s: string, rep: map<string, string>)
    requires forall w :: w in Words(s) ==> w !in rep
    ensures ReplaceWords(s, rep) == s
    decreases |s|
  {
    if s != [] {
      if !IsWordChar(s[0]) {
        assert Words(s) == Words(s[1..]);
        ReplaceWordsNoKey(s[1..], rep);
        assert ReplaceWords(s, rep) == [s[0]] + s[1..];
        assert [s[0]] + s[1..] == s;
      } else {
        var n := WordLen(s);
        assert Words(s) == [s[..n]] + Words(s[n..]);
        assert s[..n] !in rep;
        assert forall w :: w in Words(s[n..]) ==> w in Words(s);
        ReplaceWordsNoKey(s[n..], rep);
        assert ReplaceWords(s, rep) == s[..n] + s[n..];
        assert s == s[..n] + s[n..];
      }
    }
  }

  /** No information is lost: when the values are words, `inv` maps every value back to
      its key, and no word of `s` outside the keys is a key of `inv`, rewriting with
      `inv` undoes rewriting with `rep` (the old-tag GPR gives the current GPR back
      through the old-to-new map). */
  lemma {:induction false} ReplaceWordsRoundTrip(s: string, rep: map<string, string>, inv: map<string, string>)
    requires forall k :: k in rep ==> IsWord(rep[k]) && rep[k] in inv && inv[rep[k]] == k
    requires forall w :: w in Words(s) ==> w in rep || w !in inv
    ensures ReplaceWords(ReplaceWords(s, rep), inv) == s
    decreases |s|
  {
    if s != [] {
      if !IsWordChar(s[0]) {
        var t := ReplaceWords(s[1..], rep);
        ReplaceWordsRoundTrip(s[1..], rep, inv);
        assert ReplaceWords(s, rep) == [s[0]] + t;
        assert ([s[0]] + t)[1..] == t;
      } else {
        var n := WordLen(s);
        var w, rest := s[..n], s[n..];
        assert s == w + rest;
        assert IsWord(w);
        assert w in Words(s);
        assert forall x :: x in Words(rest) ==> x in Words(s);
        ReplaceWordsRoundTrip(rest, rep, inv);
        var v := if w in rep then rep[w] else w;
        var t := ReplaceWords(rest, rep);
        assert ReplaceWords(s, rep) == v + t;
        if rest != [] { ReplaceWordsFirst(rest, rep); }
        ReplaceWordsWord(v, t, inv);
      }
    }
  }

  /** The old_gpr text of one GPR. With no key at all the pattern is `\b()\b`, whose
      empty match at the first word boundary is looked up as `repdict['']`: KeyError
      as soon as the GPR has a word character. */
  function OldGpr(gpr: string, rep: map<string, string>): (r: Result<string, Raised>)
    ensures r.Err? <==> rep == map[] && exists i :: 0 <= i < |gpr| && IsWordChar(gpr[i])
  {
    if rep == map[] then
      if exists i :: 0 <= i < |gpr| && IsWordChar(gpr[i]) then Err(KeyError("")) else Ok(gpr)
    else Ok(ReplaceWords(gpr, rep))
  }

  /** The reaction with its old_gpr note set. */
  function WithOldGpr(r: Reaction, oldGpr: string): Reaction
  {
    r.(notes := r.notes["old_gpr" := Str(oldGpr)])
  }

  /** Every reaction before position `j` gets its note without raising. */
  predicate OldGprOkBefore(rs: seq<Reaction>, rep: map<string, string>, j: nat)
    requires j <= |rs|
  {
    forall l :: 0 <= l < j ==> OldGpr(rs[l].gpr, rep).Ok?
  }

  /** `add_old_gene_ids_note`: every reaction's old_gpr note becomes its GPR with each
      current locus tag replaced by the old one; the loop stops at the first reaction
      that raises. */
  method AddOldGeneIdsNote(model: Model, rows: seq<Nomenclature.GeneUpdateRow>) returns (failure: Option<Raised>)
    requires forall i :: 0 <= i < |rows| && rows[i].oldLocusTag != "" ==> IsWord(rows[i].locusTag)
    modifies model`reactions
    ensures |model.reactions| == |old(model.reactions)|
    ensures failure.None? <==> OldGprOkBefore(old(model.reactions), BuildMap(OldTagPairs(rows)), |old(model.reactions)|)
    ensures forall j :: 0 <= j < |model.reactions| ==>
      model.reactions[j] ==
        if OldGprOkBefore(old(model.reactions), BuildMap(OldTagPairs(rows)), j + 1)
        then WithOldGpr(old(model.reactions)[j], OldGpr(old(model.reactions)[j].gpr, BuildMap(OldTagPairs(rows))).value)
        else old(model.reactions)[j]
  {
    var repdict := BuildOldTagMap(rows);
    ghost var rs := model.reactions;
    var i := 0;
    while i < |model.reactions|
      invariant 0 <= i <= |model.reactions| == |rs|
      invariant OldGprOkBefore(rs, repdict, i)
      invariant forall j :: 0 <= j < i ==> model.reactions[j] == WithOldGpr(rs[j], OldGpr(rs[j].gpr, repdict).value)
      invariant forall j :: i <= j < |rs| ==> model.reactions[j] == rs[j]
    {
      var note := OldGpr(model.reactions[i].gpr, repdict);
      if note.Err? {
        assert !OldGprOkBefore(rs, repdict, |rs|);
        forall k | i < k <= |rs| ensures !OldGprOkBefore(rs, repdict, k) {
          assert !OldGpr(rs[i].gpr, repdict).Ok?;
        }
        return Some(note.error);
      }
      model.reactions := model.reactions[i := WithOldGpr(model.reactions[i], note.value)];
      i := i + 1;
    }
    failure := None;
  }

  // ---------------------------------------------------------------- update_gene_names

  /** The gene column (the gene's name). */
  function GeneOf(row: Nomenclature.GeneUpdateRow): string
  {
    row.gene
  }

  /** The two gene ids the renaming skips. */
  predicate KeepsName(id: string)
  {
    id == "s0001" || id == "unknown"
  }

  /** What line 124 does: `gene.Name = ...` creates a new attribute `Name` and leaves
      the gene's name as it was. */
  function SetNameAsWritten(g: Gene, name: string): Gene
  {
    g.(attrs := g.attrs["Name" := name])
  }

  /** What the step is meant to do: set the gene's name. */
  function SetName(g: Gene, name: string): Gene
  {
    g.(name := name)
  }

  /** As written, a gene "renamed" to a new name keeps its old one. */
  lemma NameAsWrittenIgnored(g: Gene, name: string)
    requires g.name != name
    ensures SetNameAsWritten(g, name).name == g.name
    ensures SetNameAsWritten(g, name) != SetName(g, name)
  {
    assert SetName(g, name).name == name;
  }

  /** Every gene before position `j` is skipped or has a name in the table. */
  predicate NamedBefore(gs: seq<Gene>, names: map<string, string>, j: nat)
    requires j <= |gs|
  {
    forall l :: 0 <= l < j ==> KeepsName(gs[l].id) || gs[l].id in names
  }

  /** `update_gene_names`, with the name assignment corrected: every gene but s0001 and
      unknown takes its name from the table; a gene missing from the table raises
      KeyError and stops the loop. */
  method UpdateGeneNames(model: Model, rows: seq<Nomenclature.GeneUpdateRow>) returns (failure: Option<Raised>)
    modifies model`genes
    ensures |model.genes| == |old(model.genes)|
    ensures failure.None? <==> NamedBefore(old(model.genes), BuildMap(ColumnPairs(rows, GeneOf)), |old(model.genes)|)
    ensures forall j :: 0 <= j < |model.genes| ==>
      model.genes[j] ==
        var g := old(model.genes)[j];
        var names := BuildMap(ColumnPairs(rows, GeneOf));
        if NamedBefore(old(model.genes), names, j + 1) && !KeepsName(g.id) then SetName(g, names[g.id]) else g
  {
    var _, names := BuildColumnMap(rows, GeneOf);
    ghost var gs := model.genes;
    var i := 0;
    while i < |model.genes|
      invariant 0 <= i <= |model.genes| == |gs|
      invariant NamedBefore(gs, names, i)
      invariant forall j :: 0 <= j < i ==> model.genes[j] == if !KeepsName(gs[j].id) then SetName(gs[j], names[gs[j].id]) else gs[j]
      invariant forall j :: i <= j < |gs| ==> model.genes[j] == gs[j]
    {
      var g := model.genes[i];
      if !KeepsName(g.id) {
        if g.id !in names {
          forall k | i < k <= |gs| ensures !NamedBefore(gs, names, k) {
            assert !(KeepsName(gs[i].id) || gs[i].id in names);
          }
          return Some(KeyError(g.id));
        }
        model.genes := model.genes[i := SetName(g, names[g.id])];
      }
      i := i + 1;
    }
    failure := None;
  }

  // ---------------------------------------------------------------- add_generic_genes

  /** The product column. */
  function ProductOf(row: Nomenclature.GeneUpdateRow): string
  {
    row.product
  }

  /** The products that put a gene on the cellulosome pseudo-reaction. */
  const CellulosomeTerms: seq<string> :=
    ["endoglucanases", "glycoside hydrolase", "dockerin", "type 3a, cellulose-binding protein"]

  /** The genes, in dict order, whose product is exactly one of the terms. */
  function Matching(keys: seq<string>, products: map<string, string>): seq<string>
    requires forall k :: k in keys ==> k in products
  {
    if keys == [] then []
    else
      var init := Matching(keys[..|keys| - 1], products);
      var k := keys[|keys| - 1];
      if products[k] in CellulosomeTerms then init + [k] else init
  }

  /** A gene is listed exactly when it is a key whose product is one of the terms. */
  lemma {:induction false} MatchingMeaning(keys: seq<string>, products: map<string, string>, gene: string)
    requires forall k :: k in keys ==> k in products
    ensures gene in Matching(keys, products) <==> gene in keys && products[gene] in CellulosomeTerms
  {
    if keys != [] {
      var init := keys[..|keys| - 1];
      MatchingMeaning(init, products, gene);
      assert keys == init + [keys[|keys| - 1]];
    }
  }

  /** `gpr_str` after the loop: every listed gene followed by " or ". */
  function OrChain(genes: seq<string>): string
  {
    if genes == [] then "" else OrChain(genes[..|genes| - 1]) + genes[|genes| - 1] + " or "
  }

  /** The loop that builds `gpr_str`. */
  method CellulosomeGprStr(keys: seq<string>, products: map<string, string>) returns (gprStr: string)
    requires forall k :: k in keys ==> k in products
    ensures gprStr == OrChain(Matching(keys, products))
  {
    gprStr := "";
    var i := 0;
    while i < |keys|
      invariant 0 <= i <= |keys|
      invariant gprStr == OrChain(Matching(keys[..i], products))
    {
      assert keys[..i + 1][..i] == keys[..i];
      if products[keys[i]] in CellulosomeTerms {
        assert Matching(keys[..i + 1], products) == Matching(keys[..i], products) + [keys[i]];
        gprStr := gprStr + keys[i] + " or ";
      }
      i := i + 1;
    }
    assert keys[..i] == keys;
  }

  /** Joining one more part. */
  lemma {:induction false} JoinAppend(parts: seq<string>, x: string, sep: string)
    requires parts != []
    ensures Join(parts + [x], sep) == Join(parts, sep) + sep + x
    decreases |parts|
  {
    if |parts| == 1 {
      assert (parts + [x])[1..] == [x];
    } else {
      assert (parts + [x])[1..] == parts[1..] + [x];
      JoinAppend(parts[1..], x, sep);
    }
  }

  /** A non-empty chain is the genes joined by " or ", with one more " or ". */
  lemma {:induction false} OrChainJoin(genes: seq<string>)
    requires genes != []
    ensures OrChain(genes) == Join(genes, " or ") + " or "
    decreases |genes|
  {
    var init := genes[..|genes| - 1];
    var x := genes[|genes| - 1];
    if init != [] {
      OrChainJoin(init);
      JoinAppend(init, x, " or ");
      assert init + [x] == genes;
    }
  }

  /** `gpr_str[:-4]` is the genes joined by " or " (empty when no gene matches). */
  lemma OrChainCut(genes: seq<string>)
    ensures DropLast(OrChain(genes), 4) == Join(genes, " or ")
  {
    if genes != [] {
      OrChainJoin(genes);
      var j := Join(genes, " or ");
      assert (j + " or ")[..|j + " or "| - 4] == j;
    }
  }

  /** The cellulosome genes of the table: the dict keys in first-insertion order whose
      product (the last one given for the tag) is one of the terms. */
  function CellulosomeGenes(rows: seq<Nomenclature.GeneUpdateRow>): seq<string>
  {
    var pairs := ColumnPairs(rows, ProductOf);
    ColumnKeysInMap(pairs);
    Matching(FirstOccurrences(Nomenclature.KeysOf(pairs)), BuildMap(pairs))
  }

  /** Every key of the dict's key order has a value. */
  lemma ColumnKeysInMap(pairs: seq<(string, string)>)
    ensures forall k :: k in FirstOccurrences(Nomenclature.KeysOf(pairs)) ==> k in BuildMap(pairs)
  {
    forall k | k in FirstOccurrences(Nomenclature.KeysOf(pairs)) ensures k in BuildMap(pairs) {
      Nomenclature.KeysOfMeaning(pairs, k);
      BuildMapKeys(pairs, k);
    }
  }

  /** The cellulosome block: CELLULOSOME_TERM's GPR gets " or (" + the matching genes
      joined by " or " + ")" appended; a model without that reaction raises
      AttributeError. */
  method AddCellulosomeGenes(model: Model, rows: seq<Nomenclature.GeneUpdateRow>) returns (failure: Option<Raised>)
    modifies model`reactions
    ensures match FindReaction(old(model.reactions), "CELLULOSOME_TERM")
      case None => failure == Some(AttributeError("CELLULOSOME_TERM")) && model.reactions == old(model.reactions)
      case Some(c) =>
        var r := old(model.reactions)[c];
        failure.None? &&
        model.reactions == old(model.reactions)[c := r.(gpr := r.gpr + " or (" + Join(CellulosomeGenes(rows), " or ") + ")")]
  {
    var keys, products := BuildColumnMap(rows, ProductOf);
    ColumnKeysInMap(ColumnPairs(rows, ProductOf));
    var gprStr := CellulosomeGprStr(keys, products);
    OrChainCut(Matching(keys, products));
    var found := FindReaction(model.reactions, "CELLULOSOME_TERM");
    if found.None? {
      return Some(AttributeError("CELLULOSOME_TERM"));
    }
    var c := found.value;
    var r := model.reactions[c];
    model.reactions := model.reactions[c := r.(gpr := r.gpr + " or (" + DropLast(gprStr, 4) + ")")];
    failure := None;
  }

  /** The amino acids that get an ABC transporter. */
  const AminoAcids: seq<string> :=
    ["ala__L", "arg__L", "asn__L", "asp__L", "cys__L", "glu__L", "gln__L", "gly", "his__L", "ile__L",
     "leu__L", "lys__L", "met__L", "phe__L", "pro__L", "ser__L", "thr__L", "trp__L", "tyr__L"]

  /** The four-gene rule every transporter gets. */
  const TransporterGpr: string := "CLO1313_RS15000 or CLO1313_RS15005 or CLO1313_RS15010 or CLO1313_RS04075"

  /** The transporter's id: the amino acid's id without "__L", uppercased, plus "abc". */
  function TransporterId(aaid: string): string
  {
    Upper(ReplaceAll(aaid, "__L", "")) + "abc"
  }

  /** Removing the "__L" suffix from a stem that holds no "__L" of its own gives back
      the stem: no occurrence can straddle the stem and the suffix. */
  lemma {:induction false} ReplaceLSuffix(stem: string)
    requires !Contains(stem, "__L")
    ensures ReplaceAll(stem + "__L", "__L", "") == stem
  {
    if stem == [] {
      assert "__L" <= stem + "__L";
      assert (stem + "__L")[3..] == [];
    } else {
      assert !("__L" <= stem);
      assert !("__L" <= stem + "__L") by {
        if |stem| < 3 {
          assert (stem + "__L")[2] == '_';
        }
      }
      assert (stem + "__L")[1..] == stem[1..] + "__L";
      ReplaceLSuffix(stem[1..]);
    }
  }

  /** For every amino-acid id: an id ending in the L-suffix loses it and the rest is
      uppercased ("ala__L" gives "ALAabc"); an id without one is only uppercased
      ("gly" gives "GLYabc"). */
  lemma TransporterIdShape(stem: string)
    requires !Contains(stem, "__L")
    ensures TransporterId(stem + "__L") == Upper(stem) + "abc"
    ensures TransporterId(stem) == Upper(stem) + "abc"
  {
    ReplaceLSuffix(stem);
    ReplaceAbsent(stem, "__L", "");
  }

  /** The coefficients of '{0}_e + atp_c + h2o_c --> {0}_c + adp_c + h_c + pi_c'. */
  function TransporterStoich(aaid: string): Vec
  {
    map[aaid + "_e" := -1.0, "atp_c" := -1.0, "h2o_c" := -1.0,
        aaid + "_c" := 1.0, "adp_c" := 1.0, "h_c" := 1.0, "pi_c" := 1.0]
  }

  /** The transporter for an amino acid whose extracellular metabolite is named `aaname`. */
  function Transporter(aaid: string, aaname: string): Reaction
  {
    Reaction(TransporterId(aaid), aaname + " transport via ABC system", TransporterStoich(aaid), 0.0, 1000.0,
             TransporterGpr, "Transport between c and e",
             map["curation_notes" := Str("Aminoacid ATP transporter based on putative and generic annotation"),
                 "confidence_level" := Int(2)],
             map[])
  }

  /** The reactions after some loop passes and what the last pass raised. */
  datatype Additions = Additions(reactions: seq<Reaction>, failure: Option<Raised>)

  /** The transporter loop: looking up `aaid_e` raises KeyError when it is missing; a
      transporter whose id is taken is skipped by `add_reactions` (the later
      assignments then go to a reaction outside the model). */
  function AddTransporters(rs: seq<Reaction>, ms: seq<Metabolite>, aaids: seq<string>): Additions
  {
    if aaids == [] then Additions(rs, None)
    else
      var a := AddTransporters(rs, ms, aaids[..|aaids| - 1]);
      var aaid := aaids[|aaids| - 1];
      if a.failure.Some? then a else AddOne(a.reactions, ms, aaid)
  }

  /** The model has the amino acid's extracellular metabolite. */
  predicate HasExtracellular(ms: seq<Metabolite>, aaid: string)
  {
    FindMetabolite(ms, aaid + "_e").Some?
  }

  /** One pass of the transporter loop on the reactions. */
  function AddOne(rs: seq<Reaction>, ms: seq<Metabolite>, aaid: string): Additions
  {
    match FindMetabolite(ms, aaid + "_e")
    case None => Additions(rs, Some(KeyError(aaid + "_e")))
    case Some(e) =>
      if FindReaction(rs, TransporterId(aaid)).Some? then Additions(rs, None)
      else Additions(rs + [Transporter(aaid, ms[e].name)], None)
  }

  /** One pass fails exactly on a missing metabolite, keeps the reactions, appends at
      most a transporter, and leaves the transporter's id findable. */
  lemma AddOneMeaning(rs: seq<Reaction>, ms: seq<Metabolite>, aaid: string)
    ensures var a := AddOne(rs, ms, aaid);
      && (a.failure.None? <==> HasExtracellular(ms, aaid))
      && Extends(rs, a.reactions)
      && (a.failure.None? ==> FindReaction(a.reactions, TransporterId(aaid)).Some?)
  {
    var a := AddOne(rs, ms, aaid);
    if a.failure.None? && FindReaction(rs, TransporterId(aaid)).None? {
      assert a.reactions[|rs|].id == TransporterId(aaid);
    }
  }

  /** One pass of the transporter loop. */
  method AddTransporter(model: Model, aaid: string) returns (failure: Option<Raised>)
    modifies model`reactions
    ensures match FindMetabolite(model.metabolites, aaid + "_e")
      case None => failure == Some(KeyError(aaid + "_e")) && model.reactions == old(model.reactions)
      case Some(e) =>
        failure.None? &&
        model.reactions == if FindReaction(old(model.reactions), TransporterId(aaid)).Some? then old(model.reactions)
                           else old(model.reactions) + [Transporter(aaid, model.metabolites[e].name)]
  {
    var found := FindMetabolite(model.metabolites, aaid + "_e");
    if found.None? {
      return Some(KeyError(aaid + "_e"));
    }
    var aaname := model.metabolites[found.value].name;
    var rxn := Transporter(aaid, aaname);
    if FindReaction(model.reactions, rxn.id).None? {
      model.reactions := model.reactions + [rxn];
    }
    failure := None;
  }

  /** The amino-acid loop of `add_generic_genes` over the given ids. */
  method AddAminoAcidTransporters(model: Model, aaids: seq<string>) returns (failure: Option<Raised>)
    modifies model`reactions
    ensures Additions(model.reactions, failure) == AddTransporters(old(model.reactions), model.metabolites, aaids)
  {
    var i := 0;
    while i < |aaids|
      invariant 0 <= i <= |aaids|
      invariant Additions(model.reactions, None) == AddTransporters(old(model.reactions), model.metabolites, aaids[..i])
    {
      assert aaids[..i + 1][..i] == aaids[..i];
      var f := AddTransporter(model, aaids[i]);
      if f.Some? {
        AddTransportersStops(old(model.reactions), model.metabolites, aaids, i + 1);
        return f;
      }
      i := i + 1;
    }
    assert aaids[..i] == aaids;
    failure := None;
  }

  /** Once a lookup raises, the amino acids after it do not matter. */
  lemma {:induction false} AddTransportersStops(rs: seq<Reaction>, ms: seq<Metabolite>, aaids: seq<string>, i: nat)
    requires i <= |aaids| && AddTransporters(rs, ms, aaids[..i]).failure.Some?
    ensures AddTransporters(rs, ms, aaids) == AddTransporters(rs, ms, aaids[..i])
    decreases |aaids| - i
  {
    if i < |aaids| {
      assert aaids[..i + 1][..i] == aaids[..i];
      AddTransportersStops(rs, ms, aaids, i + 1);
    } else {
      assert aaids[..i] == aaids;
    }
  }

  /** Every amino acid's extracellular metabolite is in the model. */
  predicate AllExtracellular(ms: seq<Metabolite>, aaids: seq<string>)
  {
    aaids == [] || (AllExtracellular(ms, aaids[..|aaids| - 1]) && HasExtracellular(ms, aaids[|aaids| - 1]))
  }

  lemma {:induction false} AllExtracellularMeaning(ms: seq<Metabolite>, aaids: seq<string>)
    ensures AllExtracellular(ms, aaids) <==> forall k :: 0 <= k < |aaids| ==> HasExtracellular(ms, aaids[k])
  {
    if aaids != [] {
      var init := aaids[..|aaids| - 1];
      AllExtracellularMeaning(ms, init);
      assert forall k :: 0 <= k < |init| ==> init[k] == aaids[k];
    }
  }

  /** The loop runs through exactly when every amino acid's extracellular metabolite
      exists. */
  lemma {:induction false} AddTransportersFails(rs: seq<Reaction>, ms: seq<Metabolite>, aaids: seq<string>)
    ensures AddTransporters(rs, ms, aaids).failure.None? <==>
      forall k :: 0 <= k < |aaids| ==> HasExtracellular(ms, aaids[k])
  {
    AllExtracellularMeaning(ms, aaids);
    AddTransportersComplete(rs, ms, aaids);
  }

  lemma {:induction false} AddTransportersComplete(rs: seq<Reaction>, ms: seq<Metabolite>, aaids: seq<string>)
    ensures AddTransporters(rs, ms, aaids).failure.None? <==> AllExtracellular(ms, aaids)
  {
    if aaids != [] {
      var init := aaids[..|aaids| - 1];
      AddTransportersComplete(rs, ms, init);
      AddOneMeaning(AddTransporters(rs, ms, init).reactions, ms, aaids[|aaids| - 1]);
    }
  }

  /** A reaction shaped like the transporters: bounds (0, 1000), the four-gene rule
      and the transport subsystem. */
  predicate TransporterShaped(r: Reaction)
  {
    r.lb == 0.0 && r.ub == 1000.0 && r.gpr == TransporterGpr && r.subsystem == "Transport between c and e"
  }

  /** `after` is `before` with transporter-shaped reactions appended. */
  predicate Extends(before: seq<Reaction>, after: seq<Reaction>)
  {
    |before| <= |after| && after[..|before|] == before
    && forall j :: |before| <= j < |after| ==> TransporterShaped(after[j])
  }

  lemma ExtendsTransitive(a: seq<Reaction>, b: seq<Reaction>, c: seq<Reaction>)
    requires Extends(a, b) && Extends(b, c)
    ensures Extends(a, c)
  {
    assert c[..|a|] == c[..|b|][..|a|];
    forall j | |a| <= j < |c| ensures TransporterShaped(c[j]) {
      if j < |b| { assert c[j] == c[..|b|][j] == b[j]; }
    }
  }

  /** A reaction found before is still found after more are appended. */
  lemma ExtendsKeepsFound(a: seq<Reaction>, b: seq<Reaction>, id: string)
    requires Extends(a, b) && FindReaction(a, id).Some?
    ensures FindReaction(b, id).Some?
  {
    var j := FindReaction(a, id).value;
    assert b[j] == b[..|a|][j] == a[j];
  }

  /** The existing reactions are kept, and every reaction added is a transporter with
      bounds (0, 1000), the four-gene rule and the transport subsystem. */
  lemma {:induction false} AddTransportersKeeps(rs: seq<Reaction>, ms: seq<Metabolite>, aaids: seq<string>)
    ensures Extends(rs, AddTransporters(rs, ms, aaids).reactions)
  {
    if aaids != [] {
      var init := aaids[..|aaids| - 1];
      AddTransportersKeeps(rs, ms, init);
      var r0 := AddTransporters(rs, ms, init).reactions;
      AddOneMeaning(r0, ms, aaids[|aaids| - 1]);
      if AddTransporters(rs, ms, init).failure.None? {
        ExtendsTransitive(rs, r0, AddOne(r0, ms, aaids[|aaids| - 1]).reactions);
      }
    }
  }

  /** Every transporter id of the list is found. */
  predicate AllFound(r: seq<Reaction>, aaids: seq<string>)
  {
    forall k :: 0 <= k < |aaids| ==> FindReaction(r, TransporterId(aaids[k])).Some?
  }

  lemma FoundAfterAppend(before: seq<Reaction>, after: seq<Reaction>, aaids: seq<string>)
    requires aaids != [] && Extends(before, after) && AllFound(before, aaids[..|aaids| - 1])
    requires FindReaction(after, TransporterId(aaids[|aaids| - 1])).Some?
    ensures AllFound(after, aaids)
  {
    forall k | 0 <= k < |aaids| ensures FindReaction(after, TransporterId(aaids[k])).Some? {
      if k < |aaids| - 1 {
        assert aaids[..|aaids| - 1][k] == aaids[k];
        ExtendsKeepsFound(before, after, TransporterId(aaids[k]));
      }
    }
  }

  /** The last pass of a loop that ran through so far. */
  lemma AddTransportersLast(rs: seq<Reaction>, ms: seq<Metabolite>, aaids: seq<string>)
    requires aaids != [] && AddTransporters(rs, ms, aaids[..|aaids| - 1]).failure.None?
    ensures AddTransporters(rs, ms, aaids)
      == AddOne(AddTransporters(rs, ms, aaids[..|aaids| - 1]).reactions, ms, aaids[|aaids| - 1])
  {
  }

  /** After a complete loop every amino acid's transporter id is found. */
  lemma {:induction false} AddTransportersFinds(rs: seq<Reaction>, ms: seq<Metabolite>, aaids: seq<string>)
    requires AddTransporters(rs, ms, aaids).failure.None?
    ensures AllFound(AddTransporters(rs, ms, aaids).reactions, aaids)
  {
    if aaids != [] {
      var init := aaids[..|aaids| - 1];
      var a0 := AddTransporters(rs, ms, init);
      assert a0.failure.None?;
      AddTransportersFinds(rs, ms, init);
      AddTransportersLast(rs, ms, aaids);
      AddOneMeaning(a0.reactions, ms, aaids[|aaids| - 1]);
      FoundAfterAppend(a0.reactions, AddTransporters(rs, ms, aaids).reactions, aaids);
    }
  }

  /** `add_generic_genes`: the cellulosome GPR, then the transporters. */
  method AddGenericGenes(model: Model, rows: seq<Nomenclature.GeneUpdateRow>) returns (failure: Option<Raised>)
    modifies model`reactions
    ensures FindReaction(old(model.reactions), "CELLULOSOME_TERM").None? ==>
      failure == Some(AttributeError("CELLULOSOME_TERM")) && model.reactions == old(model.reactions)
    ensures FindReaction(old(model.reactions), "CELLULOSOME_TERM").Some? ==>
      var c := FindReaction(old(model.reactions), "CELLULOSOME_TERM").value;
      var r := old(model.reactions)[c];
      var base := old(model.reactions)[c := r.(gpr := r.gpr + " or (" + Join(CellulosomeGenes(rows), " or ") + ")")];
      Additions(model.reactions, failure) == AddTransporters(base, model.metabolites, AminoAcids)
  {
    failure := AddCellulosomeGenes(model, rows);
    if failure.None? {
      failure := AddAminoAcidTransporters(model, AminoAcids);
    }
  }
}
