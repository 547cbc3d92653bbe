/*
  Renaming of the draft model's ModelSEED identifiers to BiGG identifiers
  (tools/ms2bigg.py): two id tables, each read into a dictionary, rename the
  metabolites and the reactions through cobra's id setters (which refuse an id the
  model already has); the genes lose the "_CDS_1" suffix of the draft through cobra's
  `rename_genes`, which also rewrites the gene rules.
*/
module Ms2Bigg {
  import opened Common
  import opened Text
  import opened Cobra
  import BasicModel

  /** A row of `bigg2ms_met.csv` or `bigg2ms_rxn.csv`. */
  datatype IdRow = IdRow(ms: string, bigg: string)

  function IdPairs(rows: seq<IdRow>): (ps: seq<(string, string)>)
    ensures |ps| == |rows|
    ensures forall i :: 0 <= i < |rows| ==> ps[i] == (rows[i].ms, rows[i].bigg)
  {
    if rows == [] then [] else IdPairs(rows[..|rows| - 1]) + [(rows[|rows| - 1].ms, rows[|rows| - 1].bigg)]
  }

  /** `get_ms2bigg_met` and `get_ms2bigg_rxn`: `ms2bigg[row['ms']] = row['bigg']`
      for every row, in order. */
  method ReadIdMap(rows: seq<IdRow>) returns (ms2bigg: map<string, string>)
    ensures ms2bigg == BuildMap(IdPairs(rows))
  {
    ms2bigg := map[];
    var i := 0;
    while i < |rows|
      invariant 0 <= i <= |rows|
      invariant ms2bigg == BuildMap(IdPairs(rows[..i]))
    {
      assert rows[..i + 1][..i] == rows[..i];
      ms2bigg := ms2bigg[rows[i].ms := rows[i].bigg];
      i := i + 1;
    }
    assert rows[..i] == rows;
  }

  /** The keys are the 'ms' column, and a key holds the 'bigg' value of the last row
      carrying it. */
  lemma IdMapContents(rows: seq<IdRow>, i: nat, k: string)
    requires i < |rows|
    requires forall j :: i < j < |rows| ==> rows[j].ms != rows[i].ms
    ensures rows[i].ms in BuildMap(IdPairs(rows)) && BuildMap(IdPairs(rows))[rows[i].ms] == rows[i].bigg
    ensures k in BuildMap(IdPairs(rows)) <==> exists j :: 0 <= j < |rows| && rows[j].ms == k
  {
    var ps := IdPairs(rows);
    BuildMapLastWins(ps, i);
    BuildMapKeys(ps, k);
    if exists j :: 0 <= j < |rows| && rows[j].ms == k {
      var j :| 0 <= j < |rows| && rows[j].ms == k;
      assert ps[j].0 == k;
    }
  }

  // ---------------------------------------------------------------- metabolites

  /** A metabolite's id once renamed: the id without its 3-character compartment
      suffix ("_c0") is looked up, and the BiGG id gets the compartment without its
      trailing "0". */
  function MetaboliteId(m: Metabolite, metMap: map<string, string>): string
  {
    var idNc := DropLast(m.id, 3);
    if idNc in metMap then metMap[idNc] + "_" + DropLast(m.compartment, 1) else m.id
  }

  /** A renamed id is the BiGG id, '_', and the compartment letter, so dropping the
      suffix recovers the BiGG id; an id whose stem is not in the table is kept. */
  lemma MetaboliteIdParts(m: Metabolite, metMap: map<string, string>)
    ensures var idNc := DropLast(m.id, 3);
      var comp := DropLast(m.compartment, 1);
      var r := MetaboliteId(m, metMap);
      && (idNc in metMap ==> EndsWith(r, "_" + comp) && DropLast(r, |comp| + 1) == metMap[idNc])
      && (idNc !in metMap ==> r == m.id)
  {
    var idNc := DropLast(m.id, 3);
    var comp := DropLast(m.compartment, 1);
    if idNc in metMap {
      var r := MetaboliteId(m, metMap);
      assert r == metMap[idNc] + ("_" + comp);
      assert r[..|r| - (|comp| + 1)] == metMap[idNc];
    }
  }

  function RenameMetabolites(ms: seq<Metabolite>, metMap: map<string, string>): (r: seq<Metabolite>)
    ensures |r| == |ms|
    ensures forall j :: 0 <= j < |ms| ==> r[j] == ms[j].(id := MetaboliteId(ms[j], metMap))
  {
    seq(|ms|, j requires 0 <= j < |ms| => ms[j].(id := MetaboliteId(ms[j], metMap)))
  }

  // ---------------------------------------------------------------- reactions

  function ReactionId(r: Reaction, rxnMap: map<string, string>): string
  {
    if r.id in rxnMap then rxnMap[r.id] else r.id
  }

  function RenameReactions(rs: seq<Reaction>, rxnMap: map<string, string>): (r: seq<Reaction>)
    ensures |r| == |rs|
    ensures forall j :: 0 <= j < |rs| ==> r[j] == rs[j].(id := ReactionId(rs[j], rxnMap))
  {
    seq(|rs|, j requires 0 <= j < |rs| => rs[j].(id := ReactionId(rs[j], rxnMap)))
  }

  /** A reaction changes exactly when its whole id is a key, and then takes the
      table's value; nothing but the id changes. */
  lemma RenameReactionsAt(rs: seq<Reaction>, rxnMap: map<string, string>, j: nat)
    requires j < |rs|
    ensures var r := RenameReactions(rs, rxnMap)[j];
      && r == rs[j].(id := r.id)
      && (rs[j].id in rxnMap ==> r.id == rxnMap[rs[j].id])
      && (r != rs[j] ==> rs[j].id in rxnMap)
  {
  }

  // ---------------------------------------------------------------- genes

  const UnknownGene := "Unknown"

  /** The entry of `rename_dict` for a gene as the script writes it: the test
      `gene.id is 'Unknown'` compares object identity, and an id built while reading
      the model is never the interned literal, so every id loses its last 6
      characters, "Unknown" included. */
  function GeneIdAsWritten(id: string): string
  {
    DropLast(id, 6)
  }

  lemma UnknownGeneTruncated()
    ensures GeneIdAsWritten(UnknownGene) == "U"
    ensures GeneIdAsWritten(UnknownGene) != UnknownGene
  {
  }

  /** The intended entry: "Unknown" keeps its name, every other id drops the
      "_CDS_1" suffix (its last 6 characters). */
  function GeneId(id: string): string
  {
    if id == UnknownGene then id else DropLast(id, 6)
  }

  lemma GeneIdProperties(id: string)
    ensures GeneId(UnknownGene) == UnknownGene
    ensures id != UnknownGene && |id| >= 6 ==> GeneId(id) + TakeLast(id, 6) == id
    ensures id != UnknownGene && |id| < 6 ==> GeneId(id) == ""
  {
    if id != UnknownGene && |id| >= 6 {
      assert id[..|id| - 6] + id[|id| - 6..] == id;
    }
  }

  /** The ids that differ between the two versions are exactly "Unknown". */
  lemma GeneIdAsWrittenDiffers(id: string)
    ensures GeneIdAsWritten(id) != GeneId(id) <==> id == UnknownGene
  {
  }

  /** `rename_dict`: every gene id of the model, sent to its new id. */
  function RenameDictOf(gs: seq<Gene>): (d: map<string, string>)
    ensures forall g :: g in gs ==> g.id in d
    ensures forall k :: k in d ==> d[k] == GeneId(k)
  {
    if gs == [] then map[]
    else
      var last := gs[|gs| - 1];
      RenameDictOf(gs[..|gs| - 1])[last.id := GeneId(last.id)]
  }

  /** The ids of a gene list, in order: the keys of `rename_dict` in the order they
      were inserted (a DictList holds each id once). */
  function GeneIds(gs: seq<Gene>): (ids: seq<string>)
    ensures |ids| == |gs| && forall j :: 0 <= j < |gs| ==> ids[j] == gs[j].id
  {
    seq(|gs|, j requires 0 <= j < |gs| => gs[j].id)
  }

  /** One `(old_name, new_name)` item of cobra's `rename_genes`, over the current gene
      list and the positions marked for removal: with both names present on different
      genes, the old gene is marked (the two are merged); with only the old name
      present, that gene takes the new name; otherwise nothing happens. */
  function GeneStep(gs: seq<Gene>, removed: set<nat>, oldName: string, newName: string): (r: (seq<Gene>, set<nat>))
    ensures |r.0| == |gs|
  {
    match FindGene(gs, oldName)
    case None => (gs, removed)
    case Some(p) =>
      match FindGene(gs, newName)
      case Some(q) => if q != p then (gs, removed + {p}) else (gs, removed)
      case None => (gs[p := gs[p].(id := newName)], removed)
  }

  /** The items of `rename_dict` from the `i`-th key on. */
  function GeneLoop(gs: seq<Gene>, removed: set<nat>, keys: seq<string>, d: map<string, string>, i: nat): (r: (seq<Gene>, set<nat>))
    requires i <= |keys| && forall k :: k in keys ==> k in d
    ensures |r.0| == |gs|
    decreases |keys| - i
  {
    if i == |keys| then (gs, removed)
    else
      var next := GeneStep(gs, removed, keys[i], d[keys[i]]);
      GeneLoop(next.0, next.1, keys, d, i + 1)
  }

  /** The genes at positions not marked for removal, in order. */
  function Kept(gs: seq<Gene>, removed: set<nat>): (r: seq<Gene>)
    ensures |r| <= |gs|
    ensures forall g :: g in r ==> g in gs
    ensures (forall j :: 0 <= j < |gs| ==> j !in removed) ==> r == gs
  {
    if gs == [] then []
    else Kept(gs[..|gs| - 1], removed) + (if |gs| - 1 in removed then [] else [gs[|gs| - 1]])
  }

  /** cobra's `rename_genes(model, rename_dict)`: the items are processed in the order
      of the model's genes, merged genes are removed, and every gene rule has each
      name that is a key replaced by its value. */
  function RenameGenes(gs: seq<Gene>, rs: seq<Reaction>, d: map<string, string>): (r: (seq<Gene>, seq<Reaction>))
    requires forall g :: g in gs ==> g.id in d
    ensures |r.1| == |rs| && |r.0| <= |gs|
  {
    var keys := GeneIds(gs);
    var after := GeneLoop(gs, {}, keys, d, 0);
    (Kept(after.0, after.1), RewriteRules(rs, d))
  }

  function RewriteRules(rs: seq<Reaction>, d: map<string, string>): (r: seq<Reaction>)
    ensures |r| == |rs|
    ensures forall j :: 0 <= j < |rs| ==> r[j] == rs[j].(gpr := BasicModel.ReplaceWords(rs[j].gpr, d))
  {
    seq(|rs|, j requires 0 <= j < |rs| => rs[j].(gpr := BasicModel.ReplaceWords(rs[j].gpr, d)))
  }

  /** The step of `GeneLoopFresh`: the `i`-th item renames the `i`-th gene. */
  lemma GeneStepFresh(gs0: seq<Gene>, gs: seq<Gene>, d: map<string, string>, i: nat)
    requires i < |gs0| == |gs| && forall j :: 0 <= j < |gs0| ==> gs0[j].id in d
    requires forall j :: 0 <= j < |gs| ==> gs[j] == if j < i then gs0[j].(id := d[gs0[j].id]) else gs0[j]
    requires forall j, l :: 0 <= j < |gs0| && 0 <= l < |gs0| && l != j ==> d[gs0[j].id] != gs0[l].id
    requires forall j, l :: 0 <= j < |gs0| && 0 <= l < |gs0| && l != j ==> d[gs0[j].id] != d[gs0[l].id]
    ensures GeneStep(gs, {}, gs0[i].id, d[gs0[i].id]) == (gs[i := gs0[i].(id := d[gs0[i].id])], {})
  {
    var oldId := gs0[i].id;
    var newId := d[oldId];
    assert FindGene(gs, oldId) == Some(i) by {
      assert gs[i].id == oldId;
      forall l | 0 <= l < i ensures gs[l].id != oldId {
      }
    }
    if newId == oldId {
      assert FindGene(gs, newId) == Some(i);
      assert gs[i := gs0[i].(id := newId)] == gs;
    } else {
      forall l | 0 <= l < |gs| ensures gs[l].id != newId {
      }
    }
  }

  /** When no new name is taken, neither by another gene's id nor by another gene's new
      name, the items rename the genes one by one and mark none: from key `i` on, the
      genes before `i` already carry their new names. */
  lemma {:induction false} GeneLoopFresh(gs0: seq<Gene>, gs: seq<Gene>, d: map<string, string>, i: nat)
    requires i <= |gs0| == |gs| && forall j :: 0 <= j < |gs0| ==> gs0[j].id in d
    requires forall j :: 0 <= j < |gs| ==> gs[j] == if j < i then gs0[j].(id := d[gs0[j].id]) else gs0[j]
    requires forall j, l :: 0 <= j < |gs0| && 0 <= l < |gs0| && l != j ==> d[gs0[j].id] != gs0[l].id
    requires forall j, l :: 0 <= j < |gs0| && 0 <= l < |gs0| && l != j ==> d[gs0[j].id] != d[gs0[l].id]
    requires forall k :: k in GeneIds(gs0) ==> k in d
    ensures var r := GeneLoop(gs, {}, GeneIds(gs0), d, i);
      r.1 == {} && forall j :: 0 <= j < |gs| ==> r.0[j] == gs0[j].(id := d[gs0[j].id])
    decreases |gs| - i
  {
    if i < |gs| {
      GeneStepFresh(gs0, gs, d, i);
      var next := gs[i := gs0[i].(id := d[gs0[i].id])];
      GeneLoopFresh(gs0, next, d, i + 1);
    }
  }

  /** With distinct gene ids and fresh new names, `rename_genes` with the intended
      dictionary gives every gene its new id, removes none, and changes only ids. */
  lemma GenesRenamed(gs: seq<Gene>, rs: seq<Reaction>)
    requires forall j, l :: 0 <= j < |gs| && 0 <= l < |gs| && l != j ==> GeneId(gs[j].id) != gs[l].id
    requires forall j, l :: 0 <= j < |gs| && 0 <= l < |gs| && l != j ==> GeneId(gs[j].id) != GeneId(gs[l].id)
    ensures var r := RenameGenes(gs, rs, RenameDictOf(gs)).0;
      |r| == |gs| && forall j :: 0 <= j < |gs| ==> r[j] == gs[j].(id := GeneId(gs[j].id))
  {
    var d := RenameDictOf(gs);
    assert forall j :: 0 <= j < |gs| ==> gs[j] in gs;
    assert forall k :: k in GeneIds(gs) ==> k in d;
    GeneLoopFresh(gs, gs, d, 0);
  }

  /** Two genes "ab_CDS_1" and "ab", in that order: the first one's new name is the
      second one's id, so the first is merged away and only the second, renamed "",
      remains. */
  lemma GenesMerged(g1: Gene, g2: Gene)
    requires g1.id == "ab_CDS_1" && g2.id == "ab"
    ensures RenameGenes([g1, g2], [], RenameDictOf([g1, g2])).0 == [g2.(id := "")]
  {
    var gs := [g1, g2];
    var d := RenameDictOf(gs);
    assert GeneId("ab_CDS_1") == "ab" by { assert "ab_CDS_1"[..2] == "ab"; }
    assert GeneId("ab") == "";
    assert gs[..1] == [g1] && [g1][..0] == [];
    assert RenameDictOf([g1]) == map["ab_CDS_1" := "ab"];
    assert d == map["ab_CDS_1" := "ab", "ab" := ""];
    var keys := GeneIds(gs);
    assert keys == ["ab_CDS_1", "ab"];
    assert FindGene(gs, "ab_CDS_1") == Some(0);
    assert FindGene(gs, "ab") == Some(1) by {
      assert gs[1..] == [g2];
    }
    var s1 := GeneStep(gs, {}, "ab_CDS_1", "ab");
    var none: set<nat> := {};
    assert none + {0} == {0};
    assert s1 == (gs, {0});
    var gs2 := [g1, g2.(id := "")];
    assert FindGene(gs, "") == None;
    var s2 := GeneStep(gs, {0}, "ab", "");
    assert gs[1 := g2.(id := "")] == gs2;
    assert s2 == (gs2, {0});
    assert GeneLoop(gs2, {0}, keys, d, 2) == s2;
    assert GeneLoop(gs, {0}, keys, d, 1) == s2;
    assert GeneLoop(gs, {}, keys, d, 0) == s2;
    assert Kept(gs2, {0}) == [g2.(id := "")] by {
      assert gs2[..1] == [g1] && [g1][..0] == [];
    }
  }

  /** Every gene rule has each key replaced by its value; with distinct word-shaped new
      names, replacing them back by their old names restores the rule. */
  lemma RulesRewritten(rs: seq<Reaction>, d: map<string, string>, inv: map<string, string>, j: nat)
    requires j < |rs|
    requires forall k :: k in d ==> BasicModel.IsWord(d[k]) && d[k] in inv && inv[d[k]] == k
    requires forall w :: w in BasicModel.Words(rs[j].gpr) ==> w in d || w !in inv
    ensures BasicModel.ReplaceWords(RewriteRules(rs, d)[j].gpr, inv) == rs[j].gpr
  {
    BasicModel.ReplaceWordsRoundTrip(rs[j].gpr, d, inv);
  }

  // ---------------------------------------------------------------- main

  /** The metabolite loop of `main` from the `i`-th metabolite on: a metabolite whose
      stem is in the table is given its BiGG id through cobra's id setter; a ValueError
      ends the script (`r.2`) in the state reached. */
  function MetaboliteLoop(ms: seq<Metabolite>, rs: seq<Reaction>, metMap: map<string, string>, i: nat): (r: (seq<Metabolite>, seq<Reaction>, bool))
    requires i <= |ms|
    ensures |r.0| == |ms| && |r.1| == |rs|
    decreases |ms| - i
  {
    if i == |ms| then (ms, rs, false)
    else if DropLast(ms[i].id, 3) !in metMap then MetaboliteLoop(ms, rs, metMap, i + 1)
    else match SetMetaboliteId(ms, rs, i, MetaboliteId(ms[i], metMap))
      case None => (ms, rs, true)
      case Some(next) => MetaboliteLoop(next.0, next.1, metMap, i + 1)
  }

  /** A loop that completes has renamed every metabolite from `i` on as the table says,
      changing only ids. */
  lemma {:induction false} MetaboliteLoopRenames(ms: seq<Metabolite>, rs: seq<Reaction>, metMap: map<string, string>, i: nat)
    requires i <= |ms| && !MetaboliteLoop(ms, rs, metMap, i).2
    ensures var r := MetaboliteLoop(ms, rs, metMap, i).0;
      forall j :: 0 <= j < |ms| ==> r[j] == if j < i then ms[j] else ms[j].(id := MetaboliteId(ms[j], metMap))
    decreases |ms| - i
  {
    if i < |ms| {
      if DropLast(ms[i].id, 3) !in metMap {
        MetaboliteLoopRenames(ms, rs, metMap, i + 1);
      } else {
        var to := MetaboliteId(ms[i], metMap);
        var next := SetMetaboliteId(ms, rs, i, to).value;
        SetMetaboliteIdOthers(ms, rs, i, to);
        MetaboliteLoopRenames(next.0, next.1, metMap, i + 1);
        var r := MetaboliteLoop(ms, rs, metMap, i).0;
        forall j | 0 <= j < |ms|
          ensures r[j] == if j < i then ms[j] else ms[j].(id := MetaboliteId(ms[j], metMap))
        {
          if j != i {
            assert next.0[j] == ms[j];
          }
        }
      }
    }
  }

  /** Completed or stopped by a ValueError, the loop leaves a well-formed model well
      formed and changes no reaction's mass balance: the reactions follow the renamed
      metabolites. */
  lemma {:induction false} MetaboliteLoopKeepsBalance(ms: seq<Metabolite>, rs: seq<Reaction>, metMap: map<string, string>, i: nat, j: nat)
    requires i <= |ms| && j < |rs| && WellFormed(ms, rs)
    ensures var r := MetaboliteLoop(ms, rs, metMap, i);
      WellFormed(r.0, r.1) && MassBalance(r.0, r.1[j].stoich) == MassBalance(ms, rs[j].stoich)
    decreases |ms| - i
  {
    if i < |ms| {
      if DropLast(ms[i].id, 3) !in metMap {
        MetaboliteLoopKeepsBalance(ms, rs, metMap, i + 1, j);
      } else if SetMetaboliteId(ms, rs, i, MetaboliteId(ms[i], metMap)).Some? {
        var next := SetMetaboliteId(ms, rs, i, MetaboliteId(ms[i], metMap)).value;
        SetMetaboliteIdKeepsBalance(ms, rs, i, MetaboliteId(ms[i], metMap), j);
        MetaboliteLoopKeepsBalance(next.0, next.1, metMap, i + 1, j);
      }
    }
  }

  /** The loop changes the reactions' coefficients only. */
  lemma {:induction false} MetaboliteLoopReactions(ms: seq<Metabolite>, rs: seq<Reaction>, metMap: map<string, string>, i: nat)
    requires i <= |ms|
    ensures var r := MetaboliteLoop(ms, rs, metMap, i).1;
      forall a :: 0 <= a < |rs| ==> r[a] == rs[a].(stoich := r[a].stoich)
    decreases |ms| - i
  {
    if i < |ms| {
      if DropLast(ms[i].id, 3) !in metMap {
        MetaboliteLoopReactions(ms, rs, metMap, i + 1);
      } else if SetMetaboliteId(ms, rs, i, MetaboliteId(ms[i], metMap)).Some? {
        var next := SetMetaboliteId(ms, rs, i, MetaboliteId(ms[i], metMap)).value;
        MetaboliteLoopReactions(next.0, next.1, metMap, i + 1);
      }
    }
  }

  /** The step of `MetaboliteLoopFresh`: the setter accepts the `i`-th new id. */
  lemma MetaboliteStepFresh(ms0: seq<Metabolite>, ms: seq<Metabolite>, rs: seq<Reaction>, metMap: map<string, string>, i: nat)
    requires i < |ms0| == |ms|
    requires forall j :: 0 <= j < |ms| ==> ms[j] == if j < i then ms0[j].(id := MetaboliteId(ms0[j], metMap)) else ms0[j]
    requires forall j, l :: 0 <= j < |ms0| && 0 <= l < |ms0| && l != j ==> MetaboliteId(ms0[j], metMap) != ms0[l].id
    requires forall j, l :: 0 <= j < |ms0| && 0 <= l < |ms0| && l != j ==> MetaboliteId(ms0[j], metMap) != MetaboliteId(ms0[l], metMap)
    ensures var newId := MetaboliteId(ms0[i], metMap);
      SetMetaboliteId(ms, rs, i, newId).Some? && SetMetaboliteId(ms, rs, i, newId).value.0 == ms[i := ms0[i].(id := newId)]
  {
    var newId := MetaboliteId(ms0[i], metMap);
    forall m | m in ms && m.id == newId ensures newId == ms[i].id {
      var l :| 0 <= l < |ms| && ms[l] == m;
    }
  }

  /** No ValueError is raised when each new id differs from every other metabolite's
      id and from every other new id. */
  lemma {:induction false} MetaboliteLoopFresh(ms0: seq<Metabolite>, ms: seq<Metabolite>, rs: seq<Reaction>, metMap: map<string, string>, i: nat)
    requires i <= |ms0| == |ms|
    requires forall j :: 0 <= j < |ms| ==> ms[j] == if j < i then ms0[j].(id := MetaboliteId(ms0[j], metMap)) else ms0[j]
    requires forall j, l :: 0 <= j < |ms0| && 0 <= l < |ms0| && l != j ==> MetaboliteId(ms0[j], metMap) != ms0[l].id
    requires forall j, l :: 0 <= j < |ms0| && 0 <= l < |ms0| && l != j ==> MetaboliteId(ms0[j], metMap) != MetaboliteId(ms0[l], metMap)
    ensures !MetaboliteLoop(ms, rs, metMap, i).2
    decreases |ms| - i
  {
    if i < |ms| {
      if DropLast(ms[i].id, 3) !in metMap {
        assert ms[i := ms0[i].(id := MetaboliteId(ms0[i], metMap))] == ms;
        MetaboliteLoopFresh(ms0, ms, rs, metMap, i + 1);
      } else {
        MetaboliteStepFresh(ms0, ms, rs, metMap, i);
        var next := SetMetaboliteId(ms, rs, i, MetaboliteId(ms0[i], metMap)).value;
        MetaboliteLoopFresh(ms0, next.0, next.1, metMap, i + 1);
      }
    }
  }

  /** The metabolite loop of `main`. */
  method RenameMetaboliteIds(model: Model, metMap: map<string, string>) returns (raised: bool)
    modifies model`metabolites, model`reactions
    ensures (model.metabolites, model.reactions, raised) == MetaboliteLoop(old(model.metabolites), old(model.reactions), metMap, 0)
  {
    var i := 0;
    while i < |model.metabolites|
      invariant 0 <= i <= |model.metabolites|
      invariant MetaboliteLoop(model.metabolites, model.reactions, metMap, i) == MetaboliteLoop(old(model.metabolites), old(model.reactions), metMap, 0)
    {
      var met := model.metabolites[i];
      var idNc := DropLast(met.id, 3);
      var comp := DropLast(met.compartment, 1);
      if idNc in metMap {
        var setter := SetMetaboliteId(model.metabolites, model.reactions, i, metMap[idNc] + "_" + comp);
        if setter.None? {
          return true;
        }
        model.metabolites, model.reactions := setter.value.0, setter.value.1;
      }
      i := i + 1;
    }
    return false;
  }

  /** The reaction loop of `main` from the `i`-th reaction on, through cobra's id
      setter, which carries the objective along. */
  function ReactionLoop(rs: seq<Reaction>, objective: string, rxnMap: map<string, string>, i: nat): (r: (seq<Reaction>, string, bool))
    requires i <= |rs|
    ensures |r.0| == |rs|
    decreases |rs| - i
  {
    if i == |rs| then (rs, objective, false)
    else if rs[i].id !in rxnMap then ReactionLoop(rs, objective, rxnMap, i + 1)
    else match SetReactionId(rs, objective, i, rxnMap[rs[i].id])
      case None => (rs, objective, true)
      case Some(next) => ReactionLoop(next.0, next.1, rxnMap, i + 1)
  }

  /** A loop that completes has renamed every reaction from `i` on as the table says. */
  lemma {:induction false} ReactionLoopRenames(rs: seq<Reaction>, objective: string, rxnMap: map<string, string>, i: nat)
    requires i <= |rs| && !ReactionLoop(rs, objective, rxnMap, i).2
    ensures var r := ReactionLoop(rs, objective, rxnMap, i).0;
      forall j :: 0 <= j < |rs| ==> r[j] == if j < i then rs[j] else rs[j].(id := ReactionId(rs[j], rxnMap))
    decreases |rs| - i
  {
    if i < |rs| {
      if rs[i].id !in rxnMap {
        ReactionLoopRenames(rs, objective, rxnMap, i + 1);
      } else {
        var next := SetReactionId(rs, objective, i, rxnMap[rs[i].id]).value;
        ReactionLoopRenames(next.0, next.1, rxnMap, i + 1);
      }
    }
  }

  /** With distinct reaction ids, completed or stopped, the objective is still the id
      of the same reaction. */
  lemma {:induction false} ReactionLoopObjective(rs: seq<Reaction>, objective: string, rxnMap: map<string, string>, i: nat, p: nat)
    requires i <= |rs| && p < |rs| && rs[p].id == objective
    requires forall a, b :: 0 <= a < b < |rs| ==> rs[a].id != rs[b].id
    ensures var r := ReactionLoop(rs, objective, rxnMap, i);
      r.1 == r.0[p].id
    decreases |rs| - i
  {
    if i < |rs| {
      if rs[i].id !in rxnMap {
        ReactionLoopObjective(rs, objective, rxnMap, i + 1, p);
      } else if SetReactionId(rs, objective, i, rxnMap[rs[i].id]).Some? {
        var next := SetReactionId(rs, objective, i, rxnMap[rs[i].id]).value;
        assert forall a, b :: 0 <= a < b < |rs| ==> next.0[a].id != next.0[b].id;
        ReactionLoopObjective(next.0, next.1, rxnMap, i + 1, p);
      }
    }
  }

  /** No ValueError is raised when each new id differs from every other reaction's id
      and from every other new id. */
  lemma {:induction false} ReactionLoopFresh(rs0: seq<Reaction>, rs: seq<Reaction>, objective: string, rxnMap: map<string, string>, i: nat)
    requires i <= |rs0| == |rs|
    requires forall j :: 0 <= j < |rs| ==> rs[j] == if j < i then rs0[j].(id := ReactionId(rs0[j], rxnMap)) else rs0[j]
    requires forall j, l :: 0 <= j < |rs0| && 0 <= l < |rs0| && l != j ==> ReactionId(rs0[j], rxnMap) != rs0[l].id
    requires forall j, l :: 0 <= j < |rs0| && 0 <= l < |rs0| && l != j ==> ReactionId(rs0[j], rxnMap) != ReactionId(rs0[l], rxnMap)
    ensures !ReactionLoop(rs, objective, rxnMap, i).2
    decreases |rs| - i
  {
    if i < |rs| {
      if rs[i].id !in rxnMap {
        ReactionLoopFresh(rs0, rs, objective, rxnMap, i + 1);
      } else {
        var newId := ReactionId(rs0[i], rxnMap);
        forall l | 0 <= l < |rs| && l != i ensures rs[l].id != newId {
        }
        var next := SetReactionId(rs, objective, i, newId).value;
        ReactionLoopFresh(rs0, next.0, next.1, rxnMap, i + 1);
      }
    }
  }

  /** The reaction loop of `main`. */
  method RenameReactionIds(model: Model, rxnMap: map<string, string>) returns (raised: bool)
    modifies model`reactions, model`objective
    ensures (model.reactions, model.objective, raised) == ReactionLoop(old(model.reactions), old(model.objective), rxnMap, 0)
  {
    var i := 0;
    while i < |model.reactions|
      invariant 0 <= i <= |model.reactions|
      invariant ReactionLoop(model.reactions, model.objective, rxnMap, i) == ReactionLoop(old(model.reactions), old(model.objective), rxnMap, 0)
    {
      var rxn := model.reactions[i];
      if rxn.id in rxnMap {
        var setter := SetReactionId(model.reactions, model.objective, i, rxnMap[rxn.id]);
        if setter.None? {
          return true;
        }
        model.reactions, model.objective := setter.value.0, setter.value.1;
      }
      i := i + 1;
    }
    return false;
  }

  /** The dict after one more gene. */
  lemma RenameDictStep(gs: seq<Gene>, i: nat)
    requires i < |gs|
    ensures RenameDictOf(gs[..i + 1]) == RenameDictOf(gs[..i])[gs[i].id := GeneId(gs[i].id)]
  {
    assert gs[..i + 1][..i] == gs[..i];
  }

  /** The `rename_dict` loop of `main`, with the intended comparison. */
  method BuildRenameDict(gs: seq<Gene>) returns (renameDict: map<string, string>)
    ensures renameDict == RenameDictOf(gs)
  {
    renameDict := map[];
    var i := 0;
    while i < |gs|
      invariant 0 <= i <= |gs|
      invariant renameDict == RenameDictOf(gs[..i])
    {
      var gene := gs[i];
      RenameDictStep(gs, i);
      if gene.id == UnknownGene {
        renameDict := renameDict[gene.id := UnknownGene];
      } else {
        renameDict := renameDict[gene.id := DropLast(gene.id, 6)];
      }
      i := i + 1;
    }
    assert gs[..i] == gs;
  }

  /** What `main` leaves in the model: metabolites, reactions, genes and objective,
      and whether a ValueError ended it (the later steps are then not run). */
  datatype Converted = Converted(metabolites: seq<Metabolite>, reactions: seq<Reaction>, genes: seq<Gene>,
                                 objective: string, raised: bool)

  function Convert(ms: seq<Metabolite>, rs: seq<Reaction>, gs: seq<Gene>, objective: string,
                   metMap: map<string, string>, rxnMap: map<string, string>): Converted
  {
    var m := MetaboliteLoop(ms, rs, metMap, 0);
    if m.2 then Converted(m.0, m.1, gs, objective, true)
    else
      var r := ReactionLoop(m.1, objective, rxnMap, 0);
      if r.2 then Converted(m.0, r.0, gs, r.1, true)
      else
        var g := RenameGenes(gs, r.0, RenameDictOf(gs));
        Converted(m.0, g.1, g.0, r.1, false)
  }

  /** When every new metabolite and reaction id is fresh, `main` completes: the
      metabolites and reactions carry their BiGG ids, the reactions' gene rules use the
      new gene names, and no reaction's mass balance changes in a well-formed model. */
  lemma ConvertFresh(ms: seq<Metabolite>, rs: seq<Reaction>, gs: seq<Gene>, objective: string,
                     metMap: map<string, string>, rxnMap: map<string, string>, j: nat)
    requires forall a, l :: 0 <= a < |ms| && 0 <= l < |ms| && l != a ==> MetaboliteId(ms[a], metMap) != ms[l].id
    requires forall a, l :: 0 <= a < |ms| && 0 <= l < |ms| && l != a ==> MetaboliteId(ms[a], metMap) != MetaboliteId(ms[l], metMap)
    requires forall a, l :: 0 <= a < |rs| && 0 <= l < |rs| && l != a ==> ReactionId(rs[a], rxnMap) != rs[l].id
    requires forall a, l :: 0 <= a < |rs| && 0 <= l < |rs| && l != a ==> ReactionId(rs[a], rxnMap) != ReactionId(rs[l], rxnMap)
    requires j < |rs| && WellFormed(ms, rs)
    ensures var c := Convert(ms, rs, gs, objective, metMap, rxnMap);
      && !c.raised
      && c.metabolites == RenameMetabolites(ms, metMap)
      && |c.reactions| == |rs|
      && c.reactions[j].id == ReactionId(rs[j], rxnMap)
      && c.reactions[j].gpr == BasicModel.ReplaceWords(rs[j].gpr, RenameDictOf(gs))
      && MassBalance(c.metabolites, c.reactions[j].stoich) == MassBalance(ms, rs[j].stoich)
  {
    MetaboliteLoopFresh(ms, ms, rs, metMap, 0);
    MetaboliteLoopRenames(ms, rs, metMap, 0);
    MetaboliteLoopKeepsBalance(ms, rs, metMap, 0, j);
    var m := MetaboliteLoop(ms, rs, metMap, 0);
    MetaboliteLoopReactions(ms, rs, metMap, 0);
    ReactionLoopFresh(m.1, m.1, objective, rxnMap, 0);
    ReactionLoopRenames(m.1, objective, rxnMap, 0);
    var r := ReactionLoop(m.1, objective, rxnMap, 0);
    assert r.0[j].stoich == m.1[j].stoich;
  }

  /** `main`: renames in place and hands back the very model it was given; a ValueError
      from an id setter ends it (`raised`). */
  method ConvertModel(model: Model, metMap: map<string, string>, rxnMap: map<string, string>) returns (modelBigg: Model, raised: bool)
    modifies model`metabolites, model`reactions, model`genes, model`objective
    ensures modelBigg == model
    ensures Converted(model.metabolites, model.reactions, model.genes, model.objective, raised) ==
      Convert(old(model.metabolites), old(model.reactions), old(model.genes), old(model.objective), metMap, rxnMap)
  {
    modelBigg := model;
    raised := RenameMetaboliteIds(model, metMap);
    if raised {
      return;
    }
    raised := RenameReactionIds(model, rxnMap);
    if raised {
      return;
    }
    var renameDict := BuildRenameDict(model.genes);
    var renamed := RenameGenes(model.genes, model.reactions, renameDict);
    model.genes, model.reactions := renamed.0, renamed.1;
  }
}
