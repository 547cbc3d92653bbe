/*
  Collecting the proteins detected in the proteomics data sets
  (steps/find_active_proteins.py): the ids read from each sheet, the number of data
  sets each id appears in, the old-to-new locus-tag maps, the generic-product flag,
  the genes of iSG_2 they belong to, and the table sorted by detection count.
*/
module Proteomics {
  import opened Common
  import opened Text
  import opened Cobra
  import opened Sorting
  import Nomenclature
  import BasicModel

  // ---------------------------------------------------------------- parse_sheet

  /** `ord(id_col) - 64 - 1`: the zero-based index of a column letter ('A' is 0). */
  function ColumnIndex(idCol: char): (k: int)
    ensures 'A' <= idCol <= 'Z' ==> 0 <= k < 26 && ('A' as int + k) as char == idCol
  {
    idCol as int - 64 - 1
  }

  /** `row_start - 1`: the zero-based index of a one-based row number. */
  function RowIndex(rowStart: int): int
  {
    rowStart - 1
  }

  /** The ids kept from a cell: those starting with "Clo1313". */
  predicate IsCloId(value: string)
  {
    StartsWith(value, "Clo1313")
  }

  /** `parse_sheet` on a sheet given as its rows of cell texts (every row as wide as
      the sheet): the set of cells of column `id_col` from row `row_start` on that
      start with "Clo1313"; a column beyond the sheet raises IndexError. */
  function ParseSheet(rows: seq<seq<string>>, width: nat, rowStart: nat, idCol: char): (r: Result<set<string>, string>)
    requires rowStart >= 1 && 'A' <= idCol <= 'Z'
    requires forall i :: 0 <= i < |rows| ==> |rows[i]| == width
    ensures r.Err? <==> ColumnIndex(idCol) >= width && RowIndex(rowStart) < |rows|
    ensures r.Ok? ==> forall id :: id in r.value <==>
      exists i :: RowIndex(rowStart) <= i < |rows| && rows[i][ColumnIndex(idCol)] == id && IsCloId(id)
  {
    var colx := ColumnIndex(idCol);
    var start := RowIndex(rowStart);
    if start >= |rows| then Ok({})
    else if colx >= width then Err("IndexError")
    else Ok(set i | start <= i < |rows| && IsCloId(rows[i][colx]) :: rows[i][colx])
  }

  // ---------------------------------------------------------------- counting

  /** `unique_genes` after the data sets: every id read from some sheet. */
  function AllIds(datasets: seq<set<string>>): set<string>
  {
    if datasets == [] then {} else AllIds(datasets[..|datasets| - 1]) + datasets[|datasets| - 1]
  }

  /** `all_gene_ids` as the multiset Counter makes of it: each data set contributes
      every one of its ids once. */
  function AllOccurrences(datasets: seq<set<string>>): multiset<string>
  {
    if datasets == [] then multiset{} else AllOccurrences(datasets[..|datasets| - 1]) + multiset(datasets[|datasets| - 1])
  }

  /** The number of data sets holding `id`. */
  function DatasetsWith(datasets: seq<set<string>>, id: string): (n: nat)
    ensures n <= |datasets|
  {
    if datasets == [] then 0
    else DatasetsWith(datasets[..|datasets| - 1], id) + if id in datasets[|datasets| - 1] then 1 else 0
  }

  /** The data-set loop of `main`. */
  method CollectIds(datasets: seq<set<string>>) returns (allGeneIds: multiset<string>, uniqueGenes: set<string>)
    ensures allGeneIds == AllOccurrences(datasets)
    ensures uniqueGenes == AllIds(datasets)
  {
    allGeneIds, uniqueGenes := multiset{}, {};
    var i := 0;
    while i < |datasets|
      invariant 0 <= i <= |datasets|
      invariant allGeneIds == AllOccurrences(datasets[..i])
      invariant uniqueGenes == AllIds(datasets[..i])
    {
      assert datasets[..i + 1][..i] == datasets[..i];
      uniqueGenes := uniqueGenes + datasets[i];
      allGeneIds := allGeneIds + multiset(datasets[i]);
      i := i + 1;
    }
    assert datasets[..i] == datasets;
  }

  /** `detected_count` of an id is the number of data sets it was read from: at least
      one for every collected id, at most the number of data sets, and zero for an id
      never read. */
  lemma {:induction false} DetectedCount(datasets: seq<set<string>>, id: string)
    ensures AllOccurrences(datasets)[id] == DatasetsWith(datasets, id)
    ensures id in AllIds(datasets) <==> DatasetsWith(datasets, id) >= 1
  {
    if datasets != [] {
      DetectedCount(datasets[..|datasets| - 1], id);
    }
  }

  // ---------------------------------------------------------------- gene_update.csv

  /** (old locus tag, product) of the rows that have an old tag. */
  function ProductPairs(rows: seq<Nomenclature.GeneUpdateRow>): seq<(string, string)>
  {
    if rows == [] then []
    else
      var row := rows[|rows| - 1];
      if row.oldLocusTag != "" then ProductPairs(rows[..|rows| - 1]) + [(row.oldLocusTag, row.product)]
      else ProductPairs(rows[..|rows| - 1])
  }

  /** One row's effect on both dictionaries. */
  lemma GeneDictsStep(rows: seq<Nomenclature.GeneUpdateRow>, i: nat)
    requires i < |rows|
    ensures BuildMap(Nomenclature.GenePairs(rows[..i + 1])) ==
      if rows[i].oldLocusTag != "" then BuildMap(Nomenclature.GenePairs(rows[..i]))[rows[i].oldLocusTag := rows[i].locusTag]
      else BuildMap(Nomenclature.GenePairs(rows[..i]))
    ensures BuildMap(ProductPairs(rows[..i + 1])) ==
      if rows[i].oldLocusTag != "" then BuildMap(ProductPairs(rows[..i]))[rows[i].oldLocusTag := rows[i].product]
      else BuildMap(ProductPairs(rows[..i]))
  {
    Nomenclature.GenePairsStep(rows, i);
    assert rows[..i + 1][..i] == rows[..i];
    if rows[i].oldLocusTag != "" {
      Nomenclature.PairStep(Nomenclature.GenePairs(rows[..i]), (rows[i].oldLocusTag, rows[i].locusTag));
      Nomenclature.PairStep(ProductPairs(rows[..i]), (rows[i].oldLocusTag, rows[i].product));
    }
  }

  /** `genedict_id` and `genedict_product`: both keyed by old locus tag, filled only
      from rows with an old tag. */
  method BuildGeneDicts(rows: seq<Nomenclature.GeneUpdateRow>)
    returns (genedictId: map<string, string>, genedictProduct: map<string, string>)
    ensures genedictId == BuildMap(Nomenclature.GenePairs(rows))
    ensures genedictProduct == BuildMap(ProductPairs(rows))
  {
    genedictId, genedictProduct := map[], map[];
    var i := 0;
    while i < |rows|
      invariant 0 <= i <= |rows|
      invariant genedictId == BuildMap(Nomenclature.GenePairs(rows[..i]))
      invariant genedictProduct == BuildMap(ProductPairs(rows[..i]))
    {
      GeneDictsStep(rows, i);
      if rows[i].oldLocusTag != "" {
        genedictId := genedictId[rows[i].oldLocusTag := rows[i].locusTag];
        genedictProduct := genedictProduct[rows[i].oldLocusTag := rows[i].product];
      }
      i := i + 1;
    }
    assert rows[..i] == rows;
  }

  /** An old tag gets a new id exactly when some row with that (non-empty) old tag
      exists; the empty tag never does. */
  lemma OldTagKeys(rows: seq<Nomenclature.GeneUpdateRow>, oldTag: string)
    ensures oldTag in BuildMap(Nomenclature.GenePairs(rows)) <==>
      exists i :: 0 <= i < |rows| && rows[i].oldLocusTag != "" && rows[i].oldLocusTag == oldTag
    ensures "" !in BuildMap(Nomenclature.GenePairs(rows))
  {
    var pairs := Nomenclature.GenePairs(rows);
    forall tag ensures tag in BuildMap(pairs) <==>
      exists i :: 0 <= i < |rows| && rows[i].oldLocusTag != "" && rows[i].oldLocusTag == tag
    {
      BuildMapKeys(pairs, tag);
      if exists j :: 0 <= j < |pairs| && pairs[j].0 == tag {
        var j :| 0 <= j < |pairs| && pairs[j].0 == tag;
        Nomenclature.GenePairsMeaning(rows, pairs[j]);
      }
      if exists i :: 0 <= i < |rows| && rows[i].oldLocusTag != "" && rows[i].oldLocusTag == tag {
        var i :| 0 <= i < |rows| && rows[i].oldLocusTag != "" && rows[i].oldLocusTag == tag;
        Nomenclature.GenePairsMeaning(rows, (rows[i].oldLocusTag, rows[i].locusTag));
        var j :| 0 <= j < |pairs| && pairs[j] == (rows[i].oldLocusTag, rows[i].locusTag);
      }
    }
  }

  // ---------------------------------------------------------------- is_gen

  /** The substrings that mark a product as generic or non-metabolic, as corrected:
      line 60 spells the seventh one 'trasncription'. */
  const GenericStrings: seq<string> :=
    ["ribosome", "hypothetical", "nuclease", "chemotaxis", "signal", "translation", "transcription",
     "factor", "initiation", "regulator", "translational", "division"]

  /** The list as written on line 60. */
  const GenericStringsAsWritten: seq<string> :=
    ["ribosome", "hypothetical", "nuclease", "chemotaxis", "signal", "translation", "trasncription",
     "factor", "initiation", "regulator", "translational", "division"]

  /** `str(prod)`: a missing product (NaN) prints as "nan". */
  function ProductText(prod: Option<string>): string
  {
    match prod
    case None => "nan"
    case Some(p) => p
  }

  /** `is_gen` over a list of markers: 'y' when one of them occurs in the lowercased
      product, None otherwise. */
  function IsGenWith(markers: seq<string>, prod: Option<string>): Option<string>
  {
    if exists k :: 0 <= k < |markers| && Contains(Lower(ProductText(prod)), markers[k]) then Some("y") else None
  }

  /** `is_gen` with the corrected list. */
  function IsGen(prod: Option<string>): Option<string>
  {
    IsGenWith(GenericStrings, prod)
  }

  /** `is_gen` as written. */
  function IsGenAsWritten(prod: Option<string>): Option<string>
  {
    IsGenWith(GenericStringsAsWritten, prod)
  }

  /** A substring is no longer than the string. */
  lemma {:induction false} ContainsLength(s: string, sub: string)
    requires Contains(s, sub)
    ensures |sub| <= |s|
    decreases |s|
  {
    if !(sub <= s) {
      ContainsLength(s[1..], sub);
    }
  }

  /** The flag ignores letter case. */
  lemma IsGenIgnoresCase(markers: seq<string>, p: string)
    ensures IsGenWith(markers, Some(p)) == IsGenWith(markers, Some(Lower(p)))
  {
    LowerIdempotent(p);
  }

  /** A missing product is never flagged: every marker is longer than "nan". */
  lemma IsGenMissing()
    ensures IsGen(None) == None
    ensures IsGenAsWritten(None) == None
  {
    assert Lower("nan") == "nan";
    forall k | 0 <= k < |GenericStrings| ensures !Contains("nan", GenericStrings[k]) {
      if Contains("nan", GenericStrings[k]) { ContainsLength("nan", GenericStrings[k]); }
    }
    forall k | 0 <= k < |GenericStringsAsWritten| ensures !Contains("nan", GenericStringsAsWritten[k]) {
      if Contains("nan", GenericStringsAsWritten[k]) { ContainsLength("nan", GenericStringsAsWritten[k]); }
    }
  }

  /** A product is flagged whenever a marker occurs in it in any letter case. */
  lemma IsGenFlags(markers: seq<string>, p: string, k: nat)
    requires k < |markers| && Contains(Lower(p), markers[k])
    ensures IsGenWith(markers, Some(p)) == Some("y")
  {
  }

  /** The misspelt marker misses a transcription product that no other marker catches,
      which the corrected list flags. */
  lemma IsGenMisspelt()
    ensures IsGenAsWritten(Some("transcription")) == None
    ensures IsGen(Some("transcription")) == Some("y")
  {
    TranscriptionLowercase();
    TranscriptionMarked();
    MarkersAsWrittenAbsent();
  }

  /** The corrected seventh marker occurs in "transcription". */
  lemma TranscriptionMarked()
    ensures Contains("transcription", GenericStrings[6])
  {
    var m := GenericStrings[6];
    assert m == "transcription";
    assert m <= "transcription";
  }

  lemma TranscriptionLowercase()
    ensures Lower("transcription") == "transcription"
  {
    assert NoUpper("transcription");
    LowerNoUpper("transcription");
  }

  /** None of the markers as written occurs in "transcription". */
  lemma MarkersAsWrittenAbsent()
    ensures forall k :: 0 <= k < |GenericStringsAsWritten| ==> !Contains("transcription", GenericStringsAsWritten[k])
  {
    forall k | 0 <= k < |GenericStringsAsWritten|
      ensures !Contains("transcription", GenericStringsAsWritten[k])
    {
      MarkerAsWrittenAbsent(k);
    }
  }

  lemma MarkerAsWrittenAbsent(k: nat)
    requires k < |GenericStringsAsWritten|
    ensures !Contains("transcription", GenericStringsAsWritten[k])
  {
    var p, m := "transcription", GenericStringsAsWritten[k];
    if k == 6 {
      MisspeltAbsent();
    } else if k == 8 {
      InitiationAbsent();
    } else {
      var c := MarkerLetter(k);
      LetterOutside(c);
      LetterMissing(p, m, c);
    }
  }

  /** A letter of marker `k` (other than the two that need their own argument)
      that "transcription" lacks. */
  lemma MarkerLetter(k: nat) returns (c: char)
    requires k < |GenericStringsAsWritten| && k != 6 && k != 8
    ensures c in GenericStringsAsWritten[k] && c !in TranscriptionLetters
  {
    c := ['b', 'h', 'u', 'h', 'g', 'l', ' ', 'f', ' ', 'g', 'l', 'd'][k];
    var m := GenericStringsAsWritten[k];
    var at := [2, 0, 1, 1, 2, 5, 0, 0, 0, 2, 5, 0][k];
    assert m[at] == c;
  }

  /** The letters of "transcription". */
  const TranscriptionLetters: set<char> := {'t', 'r', 'a', 'n', 's', 'c', 'i', 'p', 'o'}

  /** A letter outside that set does not occur in "transcription". */
  lemma LetterOutside(c: char)
    requires c !in TranscriptionLetters
    ensures c !in "transcription"
  {
    var p := "transcription";
    forall i | 0 <= i < |p| ensures p[i] in TranscriptionLetters { }
  }

  lemma MisspeltAbsent()
    ensures !Contains("transcription", "trasncription")
  {
    var p, m := "transcription", "trasncription";
    assert m[3] != p[3];
    if Contains(p[1..], m) {
      ContainsLength(p[1..], m);
    }
  }

  lemma InitiationAbsent()
    ensures !Contains("transcription", "initiation")
  {
    var p, m := "transcription", "initiation";
    assert m[1] != p[1] && m[0] != p[1] && m[0] != p[2] && m[0] != p[3];
    assert !(m <= p[1..]) && !(m <= p[2..]) && !(m <= p[3..]);
    assert p[1..][1..] == p[2..] && p[2..][1..] == p[3..] && p[3..][1..] == p[4..];
    if Contains(p[4..], m) {
      ContainsLength(p[4..], m);
    }
  }

  /** A string with a letter that `s` lacks does not occur in `s`. */
  lemma {:induction false} LetterMissing(s: string, sub: string, c: char)
    requires c in sub && c !in s
    ensures !Contains(s, sub)
    decreases |s|
  {
    if s != [] {
      LetterMissing(s[1..], sub, c);
    }
  }

  /** `sub` occurs nowhere in `s` when it starts at no position. */
  lemma {:induction false} NotContainedAnywhere(s: string, sub: string)
    requires sub != [] && forall i :: 0 <= i < |s| ==> !(sub <= s[i..])
    ensures !Contains(s, sub)
    decreases |s|
  {
    if s != [] {
      assert s[0..] == s;
      forall i | 0 <= i < |s[1..]| ensures !(sub <= s[1..][i..]) {
        assert s[1..][i..] == s[i + 1..];
      }
      NotContainedAnywhere(s[1..], sub);
    }
  }

  // ---------------------------------------------------------------- the table

  /** A row of proteomics_detected_genes.csv; absent map entries are NaN (None). */
  datatype ProteinRow = ProteinRow(
    oldId: string,
    newId: Option<string>,
    detectedCount: nat,
    product: Option<string>,
    generic: Option<string>,
    inIsg2: Option<set<string>>)

  /** `Series.map(d)`: the value, or NaN when the key is missing. */
  function Lookup<V>(d: map<string, V>, k: string): Option<V>
  {
    if k in d then Some(d[k]) else None
  }

  /** `gene.reactions`: the ids of the reactions whose rule names the gene. */
  function GeneReactions(rs: seq<Reaction>, geneId: string): set<string>
  {
    set r | r in rs && geneId in BasicModel.Words(r.gpr) :: r.id
  }

  /** `insg2`: for every gene of iSG_2 whose id is one of the new ids, its reactions. */
  function InIsg2(gs: seq<Gene>, rs: seq<Reaction>, newIds: set<string>): map<string, set<string>>
  {
    map id | id in (set g | g in gs && g.id in newIds :: g.id) :: GeneReactions(rs, id)
  }

  /** The row of one old id. */
  function RowFor(oldTag: string, counts: multiset<string>, genedictId: map<string, string>,
                  genedictProduct: map<string, string>, insg2: map<string, set<string>>): ProteinRow
  {
    var newId := Lookup(genedictId, oldTag);
    var product := Lookup(genedictProduct, oldTag);
    ProteinRow(oldTag, newId, counts[oldTag], product, IsGen(product),
               match newId case None => None case Some(n) => Lookup(insg2, n))
  }

  /** The output table sorts by detected count, largest first. */
  predicate CountGe(a: ProteinRow, b: ProteinRow)
  {
    a.detectedCount >= b.detectedCount
  }

  lemma CountGePreorder()
    ensures TotalPreorder(CountGe)
  {
  }

  /** The rows, one per old id in the given order, sorted by count descending. */
  function Table(olds: seq<string>, counts: multiset<string>, genedictId: map<string, string>,
                 genedictProduct: map<string, string>, insg2: map<string, set<string>>): seq<ProteinRow>
  {
    SortBy(seq(|olds|, i requires 0 <= i < |olds| => RowFor(olds[i], counts, genedictId, genedictProduct, insg2)), CountGe)
  }

  /** `main` after the sheets are read: the ids, the maps, the flags and the sorted
      table. */
  method DetectedGenes(datasets: seq<set<string>>, rows: seq<Nomenclature.GeneUpdateRow>, model: Model)
    returns (table: seq<ProteinRow>)
    ensures exists olds: seq<string> ::
      && |olds| == |AllIds(datasets)| && (forall x :: x in olds <==> x in AllIds(datasets))
      && var ids := BuildMap(Nomenclature.GenePairs(rows));
         table == Table(olds, AllOccurrences(datasets), ids, BuildMap(ProductPairs(rows)),
                        InIsg2(model.genes, model.reactions, set k | k in ids :: ids[k]))
  {
    var allGeneIds, uniqueGenes := CollectIds(datasets);
    var genedictId, genedictProduct := BuildGeneDicts(rows);
    var olds := ListOf(uniqueGenes);
    var newIds := set k | k in genedictId :: genedictId[k];
    var insg2 := InIsg2(model.genes, model.reactions, newIds);
    table := Table(olds, allGeneIds, genedictId, genedictProduct, insg2);
  }

  /** The table has one row per collected id, its count between 1 and the number of
      data sets, and is in descending order of count. */
  lemma TableMeaning(datasets: seq<set<string>>, olds: seq<string>, genedictId: map<string, string>,
                     genedictProduct: map<string, string>, insg2: map<string, set<string>>)
    requires forall x :: x in olds <==> x in AllIds(datasets)
    ensures var t := Table(olds, AllOccurrences(datasets), genedictId, genedictProduct, insg2);
      && |t| == |olds|
      && (forall i :: 0 <= i < |t| ==> t[i].oldId in AllIds(datasets) && 1 <= t[i].detectedCount <= |datasets|)
      && (forall x :: x in AllIds(datasets) ==> exists i :: 0 <= i < |t| && t[i].oldId == x)
      && forall i, j :: 0 <= i < j < |t| ==> t[i].detectedCount >= t[j].detectedCount
  {
    var rows := seq(|olds|, i requires 0 <= i < |olds| => RowFor(olds[i], AllOccurrences(datasets), genedictId, genedictProduct, insg2));
    var t := SortBy(rows, CountGe);
    CountGePreorder();
    SortBySorted(rows, CountGe);
    TableRows(datasets, olds, rows, t);
    TableCovers(datasets, olds, rows, t);
  }

  /** Every row of a reordering of the rows is the row of a collected id. */
  lemma TableRows(datasets: seq<set<string>>, olds: seq<string>, rows: seq<ProteinRow>, t: seq<ProteinRow>)
    requires forall x :: x in olds <==> x in AllIds(datasets)
    requires |rows| == |olds| && forall k :: 0 <= k < |rows| ==> rows[k].oldId == olds[k] && rows[k].detectedCount == AllOccurrences(datasets)[olds[k]]
    requires multiset(t) == multiset(rows)
    ensures forall i :: 0 <= i < |t| ==> t[i].oldId in AllIds(datasets) && 1 <= t[i].detectedCount <= |datasets|
  {
    forall i | 0 <= i < |t| ensures t[i].oldId in AllIds(datasets) && 1 <= t[i].detectedCount <= |datasets| {
      assert t[i] in multiset(rows);
      var k :| 0 <= k < |rows| && rows[k] == t[i];
      assert olds[k] in olds;
      DetectedCount(datasets, olds[k]);
    }
  }

  /** Every collected id has a row in a reordering of the rows. */
  lemma TableCovers(datasets: seq<set<string>>, olds: seq<string>, rows: seq<ProteinRow>, t: seq<ProteinRow>)
    requires forall x :: x in olds <==> x in AllIds(datasets)
    requires |rows| == |olds| && forall k :: 0 <= k < |rows| ==> rows[k].oldId == olds[k]
    requires multiset(t) == multiset(rows)
    ensures forall x :: x in AllIds(datasets) ==> exists i :: 0 <= i < |t| && t[i].oldId == x
  {
    forall x | x in AllIds(datasets) ensures exists i :: 0 <= i < |t| && t[i].oldId == x {
      var k :| 0 <= k < |olds| && olds[k] == x;
      assert rows[k] in multiset(t);
      var i :| 0 <= i < |t| && t[i] == rows[k];
    }
  }
}
