/*
  Putative isomer groups (steps/identify_isomers.py): metabolites that share an
  empirical formula. The considered metabolites are counted per formula, each
  considered metabolite becomes one table row carrying its group index (the position
  of its formula in first-occurrence order) and its formula count, the table is
  sorted in descending order and only the rows of formulas seen more than once are
  kept.
*/
module Isomers {
  import opened Common
  import opened Text
  import opened Cobra
  import opened Sorting

  /** The filter applied in both loops of `main`: not extracellular, not the
      placeholder "R", a non-empty id, not marked IS_GENERIC, and a formula. */
  predicate IsConsidered(m: Metabolite)
  {
    TakeLast(m.id, 2) != "_e" && m.id != "R" && m.id != "" && "IS_GENERIC" !in m.notes && m.formula != ""
  }

  /** The considered metabolites, in model order. */
  function Considered(ms: seq<Metabolite>): seq<Metabolite>
  {
    if ms == [] then []
    else
      var last := ms[|ms| - 1];
      Considered(ms[..|ms| - 1]) + (if IsConsidered(last) then [last] else [])
  }

  /** A metabolite is listed exactly when it is in the model and passes the filter. */
  lemma {:induction false} ConsideredMembers(ms: seq<Metabolite>, m: Metabolite)
    ensures m in Considered(ms) <==> m in ms && IsConsidered(m)
  {
    if ms != [] {
      var init := ms[..|ms| - 1];
      ConsideredMembers(init, m);
      assert ms == init + [ms[|ms| - 1]];
    }
  }

  /** Their formulas, in the same order. */
  function Formulas(ms: seq<Metabolite>): seq<string>
  {
    if ms == [] then []
    else
      var last := ms[|ms| - 1];
      Formulas(ms[..|ms| - 1]) + (if IsConsidered(last) then [last.formula] else [])
  }

  /** The j-th formula is the j-th considered metabolite's. */
  lemma {:induction false} FormulasAligned(ms: seq<Metabolite>)
    ensures |Formulas(ms)| == |Considered(ms)|
    ensures forall j :: 0 <= j < |Formulas(ms)| ==> Formulas(ms)[j] == Considered(ms)[j].formula
  {
    if ms != [] {
      FormulasAligned(ms[..|ms| - 1]);
    }
  }

  /** Every considered metabolite contributes its formula. */
  lemma FormulaOfConsidered(ms: seq<Metabolite>, m: Metabolite)
    requires m in ms && IsConsidered(m)
    ensures m.formula in Formulas(ms)
  {
    var cs := Considered(ms);
    ConsideredMembers(ms, m);
    FormulasAligned(ms);
    var j :| 0 <= j < |cs| && cs[j] == m;
    assert Formulas(ms)[j] == m.formula;
  }

  // ---------------------------------------------------------------- counting

  /** `keys` and `counts` are the OrderedDict built from the formulas `fs`. */
  ghost predicate Tallied(fs: seq<string>, keys: seq<string>, counts: map<string, nat>)
  {
    && keys == FirstOccurrences(fs)
    && (forall f :: f in counts <==> f in fs)
    && (forall f :: f in counts ==> counts[f] == Count(fs, f))
  }

  lemma ConsideredStep(ms: seq<Metabolite>, i: nat)
    requires i < |ms|
    ensures IsConsidered(ms[i]) ==> Considered(ms[..i + 1]) == Considered(ms[..i]) + [ms[i]]
    ensures !IsConsidered(ms[i]) ==> Considered(ms[..i + 1]) == Considered(ms[..i])
    ensures IsConsidered(ms[i]) ==> Formulas(ms[..i + 1]) == Formulas(ms[..i]) + [ms[i].formula]
    ensures !IsConsidered(ms[i]) ==> Formulas(ms[..i + 1]) == Formulas(ms[..i])
  {
    assert ms[..i + 1][..i] == ms[..i];
    assert Formulas(ms[..i]) + [] == Formulas(ms[..i]);
    assert Considered(ms[..i]) + [] == Considered(ms[..i]);
  }

  /** One increment `met_for_count[f] = met_for_count.get(f, 0) + 1`. */
  lemma TallyStep(fs: seq<string>, f: string, keys: seq<string>, counts: map<string, nat>,
                  keys': seq<string>, counts': map<string, nat>)
    requires Tallied(fs, keys, counts)
    requires f in counts ==> keys' == keys && counts' == counts[f := counts[f] + 1]
    requires f !in counts ==> keys' == keys + [f] && counts' == counts[f := 1]
    ensures Tallied(fs + [f], keys', counts')
  {
    assert (fs + [f])[..|fs|] == fs;
    CountPositive(fs, f);
  }

  /** The first loop of `main`: `met_for_count[met.formula] += 1` on an OrderedDict,
      modelled as its key order and its contents. */
  method CountFormulas(ms: seq<Metabolite>) returns (keys: seq<string>, counts: map<string, nat>)
    ensures keys == FirstOccurrences(Formulas(ms))
    ensures forall f :: f in counts <==> f in Formulas(ms)
    ensures forall f :: f in counts ==> counts[f] == Count(Formulas(ms), f)
  {
    keys := [];
    counts := map[];
    ghost var fs: seq<string> := [];
    var i := 0;
    while i < |ms|
      invariant 0 <= i <= |ms|
      invariant fs == Formulas(ms[..i])
      invariant Tallied(fs, keys, counts)
    {
      var met := ms[i];
      ConsideredStep(ms, i);
      if IsConsidered(met) {
        var f := met.formula;
        if f !in counts {
          TallyStep(fs, f, keys, counts, keys + [f], counts[f := 1]);
          keys, counts := keys + [f], counts[f := 1];
        } else {
          TallyStep(fs, f, keys, counts, keys, counts[f := counts[f] + 1]);
          counts := counts[f := counts[f] + 1];
        }
        fs := fs + [f];
      }
      i := i + 1;
    }
    assert ms[..i] == ms;
  }

  /** The OrderedDict's keys are the distinct formulas; a formula's count is at least
      one and is the number of considered metabolites that carry it. */
  lemma CountsMeaning(ms: seq<Metabolite>, f: string)
    ensures f in FirstOccurrences(Formulas(ms)) <==> exists m :: m in ms && IsConsidered(m) && m.formula == f
    ensures Count(Formulas(ms), f) > 0 <==> f in FirstOccurrences(Formulas(ms))
  {
    var fs := Formulas(ms);
    CountPositive(fs, f);
    FormulasAligned(ms);
    if f in fs {
      var j :| 0 <= j < |fs| && fs[j] == f;
      ConsideredMembers(ms, Considered(ms)[j]);
    }
    if exists m :: m in ms && IsConsidered(m) && m.formula == f {
      var m :| m in ms && IsConsidered(m) && m.formula == f;
      FormulaOfConsidered(ms, m);
    }
  }

  // ---------------------------------------------------------------- the table

  datatype IsomerRow = IsomerRow(groupIndex: nat, formula: string, formulaCount: nat, id: string, name: string)

  /** The row appended for a considered metabolite, given the formulas of all of them. */
  function RowFor(m: Metabolite, fs: seq<string>): (r: IsomerRow)
    requires m.formula in fs
    ensures r.groupIndex < |FirstOccurrences(fs)| && FirstOccurrences(fs)[r.groupIndex] == m.formula
    ensures r.formulaCount >= 1
  {
    CountPositive(fs, m.formula);
    IsomerRow(IndexOf(FirstOccurrences(fs), m.formula), m.formula, Count(fs, m.formula), m.id, m.name)
  }

  /** Every considered metabolite of `ms` has its formula in `fs`. */
  ghost predicate FormulasIn(ms: seq<Metabolite>, fs: seq<string>)
  {
    forall j :: 0 <= j < |ms| && IsConsidered(ms[j]) ==> ms[j].formula in fs
  }

  /** The rows appended by the second loop, given the formulas of all considered
      metabolites. */
  function RowsOver(ms: seq<Metabolite>, fs: seq<string>): seq<IsomerRow>
    requires FormulasIn(ms, fs)
  {
    if ms == [] then []
    else
      var last := ms[|ms| - 1];
      RowsOver(ms[..|ms| - 1], fs) + (if IsConsidered(last) then [RowFor(last, fs)] else [])
  }

  lemma FormulasCover(ms: seq<Metabolite>)
    ensures FormulasIn(ms, Formulas(ms))
  {
    forall j | 0 <= j < |ms| && IsConsidered(ms[j]) ensures ms[j].formula in Formulas(ms) {
      FormulaOfConsidered(ms, ms[j]);
    }
  }

  /** The unsorted table: one row per considered metabolite. */
  function Rows(ms: seq<Metabolite>): seq<IsomerRow>
  {
    FormulasCover(ms);
    RowsOver(ms, Formulas(ms))
  }

  lemma RowsOverStep(ms: seq<Metabolite>, i: nat, fs: seq<string>)
    requires i < |ms| && FormulasIn(ms, fs)
    ensures FormulasIn(ms[..i], fs) && FormulasIn(ms[..i + 1], fs)
    ensures RowsOver(ms[..i + 1], fs)
      == RowsOver(ms[..i], fs) + (if IsConsidered(ms[i]) then [RowFor(ms[i], fs)] else [])
  {
    assert ms[..i + 1][..i] == ms[..i];
  }

  /** The second loop of `main`, appending a row per considered metabolite. */
  method BuildRows(ms: seq<Metabolite>, keys: seq<string>, counts: map<string, nat>) returns (rows: seq<IsomerRow>)
    requires keys == FirstOccurrences(Formulas(ms))
    requires forall f :: f in counts <==> f in Formulas(ms)
    requires forall f :: f in counts ==> counts[f] == Count(Formulas(ms), f)
    ensures rows == Rows(ms)
  {
    var fs := Formulas(ms);
    FormulasCover(ms);
    rows := [];
    var i := 0;
    while i < |ms|
      invariant 0 <= i <= |ms|
      invariant FormulasIn(ms[..i], fs)
      invariant rows == RowsOver(ms[..i], fs)
    {
      var met := ms[i];
      RowsOverStep(ms, i, fs);
      if IsConsidered(met) {
        var groupIndex := IndexOf(keys, met.formula);
        rows := rows + [IsomerRow(groupIndex, met.formula, counts[met.formula], met.id, met.name)];
      }
      i := i + 1;
    }
    assert ms[..i] == ms;
  }

  /** The rows line up with the considered metabolites. */
  lemma {:induction false} RowsOverAligned(ms: seq<Metabolite>, fs: seq<string>)
    requires FormulasIn(ms, fs)
    ensures |RowsOver(ms, fs)| == |Considered(ms)|
    ensures forall j :: 0 <= j < |Considered(ms)| ==>
      Considered(ms)[j].formula in fs && RowsOver(ms, fs)[j] == RowFor(Considered(ms)[j], fs)
  {
    if ms != [] {
      var init := ms[..|ms| - 1];
      assert FormulasIn(init, fs);
      RowsOverAligned(init, fs);
    }
  }

  /** Row j of the table belongs to the j-th considered metabolite: its formula count
      is the number of considered metabolites with that formula, and two rows share a
      group index exactly when they share a formula. */
  lemma RowsMeaning(ms: seq<Metabolite>, i: nat, j: nat)
    requires i < |Rows(ms)| && j < |Rows(ms)|
    ensures |Rows(ms)| == |Considered(ms)|
    ensures var r := Rows(ms)[i]; var c := Considered(ms)[i];
      r.id == c.id && r.name == c.name && r.formula == c.formula && r.formulaCount == Count(Formulas(ms), c.formula)
    ensures Rows(ms)[i].groupIndex == Rows(ms)[j].groupIndex <==> Rows(ms)[i].formula == Rows(ms)[j].formula
  {
    FormulasCover(ms);
    RowsOverAligned(ms, Formulas(ms));
  }

  // ---------------------------------------------------------------- sort and filter

  /** `sort_values(by=['group_index', 'formula_count'], ascending=False)`: `a` may
      precede `b`. */
  predicate Before(a: IsomerRow, b: IsomerRow)
  {
    a.groupIndex > b.groupIndex || (a.groupIndex == b.groupIndex && a.formulaCount >= b.formulaCount)
  }

  lemma BeforePreorder()
    ensures TotalPreorder(Before)
  {
  }

  /** `df[df.formula_count > 1]`: the rows of repeated formulas, order kept. */
  function KeepRepeated(rows: seq<IsomerRow>): (r: seq<IsomerRow>)
    ensures forall x :: x in r <==> x in rows && x.formulaCount > 1
  {
    if rows == [] then []
    else
      var last := rows[|rows| - 1];
      KeepRepeated(rows[..|rows| - 1]) + (if last.formulaCount > 1 then [last] else [])
  }

  /** Dropping rows keeps a sorted table sorted. */
  lemma {:induction false} KeepRepeatedSorted(rows: seq<IsomerRow>)
    requires SortedBy(rows, Before)
    ensures SortedBy(KeepRepeated(rows), Before)
  {
    if rows != [] {
      var init := rows[..|rows| - 1];
      assert SortedBy(init, Before);
      KeepRepeatedSorted(init);
      var last := rows[|rows| - 1];
      forall x | x in KeepRepeated(init) ensures Before(x, last) {
        var k :| 0 <= k < |init| && init[k] == x;
      }
    }
  }

  /** The table written to `isomers_iSG_2.csv`. */
  function IsomerTable(ms: seq<Metabolite>): seq<IsomerRow>
  {
    KeepRepeated(SortBy(Rows(ms), Before))
  }

  /** `main` after loading the model. */
  method IdentifyIsomers(ms: seq<Metabolite>) returns (table: seq<IsomerRow>)
    ensures table == IsomerTable(ms)
  {
    var keys, counts := CountFormulas(ms);
    var rows := BuildRows(ms, keys, counts);
    table := KeepRepeated(SortBy(rows, Before));
  }

  /** What the written table holds: exactly the rows of repeated formulas, sorted in
      descending group order so that every group is contiguous. */
  lemma IsomerTableProperties(ms: seq<Metabolite>, x: IsomerRow, i: nat, j: nat, k: nat)
    ensures x in IsomerTable(ms) <==> x in Rows(ms) && x.formulaCount > 1
    ensures SortedBy(IsomerTable(ms), Before)
    ensures i < j < k < |IsomerTable(ms)| && IsomerTable(ms)[i].groupIndex == IsomerTable(ms)[k].groupIndex
      ==> IsomerTable(ms)[j].groupIndex == IsomerTable(ms)[i].groupIndex
  {
    var sorted := SortBy(Rows(ms), Before);
    BeforePreorder();
    SortBySorted(Rows(ms), Before);
    assert x in sorted <==> x in multiset(sorted);
    KeepRepeatedSorted(sorted);
  }
}
