/** The gene-identifier map read from the genome's gene-update table, which pairs
    each current locus tag with the tag it had before re-annotation. */
module Settings {
  import opened Common

  /** One row of the gene-update table. */
  datatype GeneUpdateRow = GeneUpdateRow(locusTag: string, oldLocusTag: string)

  const OldToNew := "old_to_new"
  const NewToOld := "new_to_old"

  /** The (key, value) pair a row contributes under the given order. */
  function GenePair(row: GeneUpdateRow, order: string): (string, string)
  {
    if order == OldToNew then (row.oldLocusTag, row.locusTag) else (row.locusTag, row.oldLocusTag)
  }

  function GenePairs(rows: seq<GeneUpdateRow>, order: string): (ps: seq<(string, string)>)
    ensures |ps| == |rows|
    ensures forall i :: 0 <= i < |rows| ==> ps[i] == GenePair(rows[i], order)
  {
    if rows == [] then [] else GenePairs(rows[..|rows| - 1], order) + [GenePair(rows[|rows| - 1], order)]
  }

  /** The map the table yields: every row assigned in order, for a recognised order. */
  function GeneMap(rows: seq<GeneUpdateRow>, order: string): map<string, string>
  {
    if order == OldToNew || order == NewToOld then BuildMap(GenePairs(rows, order)) else map[]
  }

  /** `get_gene_map`: fills the dictionary row by row. */
  method GetGeneMap(rows: seq<GeneUpdateRow>, order: string) returns (geneMap: map<string, string>)
    ensures geneMap == GeneMap(rows, order)
  {
    geneMap := map[];
    var i := 0;
    while i < |rows|
      invariant 0 <= i <= |rows|
      invariant order == OldToNew || order == NewToOld ==> geneMap == BuildMap(GenePairs(rows[..i], order))
      invariant order != OldToNew && order != NewToOld ==> geneMap == map[]
    {
      assert rows[..i + 1][..i] == rows[..i];
      if order == OldToNew {
        geneMap := geneMap[rows[i].oldLocusTag := rows[i].locusTag];
      } else if order == NewToOld {
        geneMap := geneMap[rows[i].locusTag := rows[i].oldLocusTag];
      }
      i := i + 1;
    }
    assert rows[..i] == rows;
  }

  /** With "old_to_new" the keys are exactly the old tags of the rows (the empty tag
      included), each sent to the locus tag of the last row carrying it. */
  lemma OldToNewMap(rows: seq<GeneUpdateRow>, i: nat)
    requires i < |rows|
    requires forall j :: i < j < |rows| ==> rows[j].oldLocusTag != rows[i].oldLocusTag
    ensures rows[i].oldLocusTag in GeneMap(rows, OldToNew)
    ensures GeneMap(rows, OldToNew)[rows[i].oldLocusTag] == rows[i].locusTag
  {
    BuildMapLastWins(GenePairs(rows, OldToNew), i);
  }

  lemma OldToNewKeys(rows: seq<GeneUpdateRow>, k: string)
    ensures k in GeneMap(rows, OldToNew) <==> exists i :: 0 <= i < |rows| && rows[i].oldLocusTag == k
  {
    var ps := GenePairs(rows, OldToNew);
    BuildMapKeys(ps, k);
    if exists i :: 0 <= i < |ps| && ps[i].0 == k {
      var i :| 0 <= i < |ps| && ps[i].0 == k;
      assert rows[i].oldLocusTag == k;
    }
    if exists i :: 0 <= i < |rows| && rows[i].oldLocusTag == k {
      var i :| 0 <= i < |rows| && rows[i].oldLocusTag == k;
      assert ps[i].0 == k;
    }
  }

  /** With "new_to_old" each locus tag goes to the old tag of the last row carrying it. */
  lemma NewToOldMap(rows: seq<GeneUpdateRow>, i: nat)
    requires i < |rows|
    requires forall j :: i < j < |rows| ==> rows[j].locusTag != rows[i].locusTag
    ensures rows[i].locusTag in GeneMap(rows, NewToOld)
    ensures GeneMap(rows, NewToOld)[rows[i].locusTag] == rows[i].oldLocusTag
  {
    BuildMapLastWins(GenePairs(rows, NewToOld), i);
  }

  lemma NewToOldKeys(rows: seq<GeneUpdateRow>, k: string)
    ensures k in GeneMap(rows, NewToOld) <==> exists i :: 0 <= i < |rows| && rows[i].locusTag == k
  {
    var ps := GenePairs(rows, NewToOld);
    BuildMapKeys(ps, k);
    if exists i :: 0 <= i < |ps| && ps[i].0 == k {
      var i :| 0 <= i < |ps| && ps[i].0 == k;
      assert rows[i].locusTag == k;
    }
    if exists i :: 0 <= i < |rows| && rows[i].locusTag == k {
      var i :| 0 <= i < |rows| && rows[i].locusTag == k;
      assert ps[i].0 == k;
    }
  }
}
