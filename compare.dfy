/** The model-comparison table of analysis/compare_gems/compare.py: one column per
    model with its gene, metabolite and reaction counts, the fractions of blocked
    reactions and of lethal gene and reaction deletions, and how many reactions carry
    each confidence level in their notes. The flux-analysis results (blocked reactions
    and the growth rate of every single deletion) come from the solver library and are
    parameters here. */
module Compare {
  import opened Common
  import opened Cobra
  import opened Text

  /** The exceptions the column computation can raise. */
  datatype Raised = IndexError | ZeroDivisionError

  // ---------------------------------------------------------------- get_first_elem

  /** `get_first_elem`: element 0 of a list, anything else unchanged; an empty list
      raises IndexError. */
  function FirstElem(v: Note): (r: Result<Note, Raised>)
    ensures r.Err? <==> v == Items([])
    ensures r.Ok? && !v.Items? ==> r.value == v
    ensures r.Ok? && v.Items? ==> r.value == v.items[0] && r.value < v
  {
    match v
    case Items(xs) => if xs == [] then Err(IndexError) else Ok(xs[0])
    case _ => Ok(v)
  }

  /** A note stored as a one-element list reads like the bare value. */
  lemma FirstElemSingleton(v: Note)
    requires !v.Items?
    ensures FirstElem(Items([v])) == FirstElem(v) == Ok(v)
  {
  }

  /** `str(...)` of a note value, as far as the tally can tell it apart: a string is
      itself and an int its decimal digits (so the int 2 is counted under "2"); a
      float prints with a '.' or an exponent and a list with brackets, so neither
      ever equals a confidence label ("0".."4" or ""). */
  function Shown(v: Note): (r: Option<string>)
    ensures v.Str? ==> r == Some(v.s)
    ensures v.Int? && 0 <= v.n < 10 ==> r == Some([('0' as int + v.n) as char])
    ensures !v.Str? && !v.Int? ==> r == None
  {
    match v
    case Str(s) => Some(s)
    case Int(n) => Some(IntToString(n))
    case _ => None
  }

  // ---------------------------------------------------------------- the key

  /** `note_keys`: the notes keys of every reaction, one reaction after the other,
      each reaction's keys in the dict's own order. */
  method CollectNoteKeys(rs: seq<Reaction>) returns (keys: seq<string>)
    ensures forall k :: k in keys <==> exists i :: 0 <= i < |rs| && k in rs[i].notes
  {
    keys := [];
    for n := 0 to |rs|
      invariant forall k :: k in keys <==> exists i :: 0 <= i < n && k in rs[i].notes
    {
      var ks := ListOf(rs[n].notes.Keys);
      keys := keys + ks;
    }
  }

  const UpperKey := "CONFIDENCE LEVEL"
  const LowerKey := "confidence_level"

  /** The notes key that holds the confidence level: the upper-case spelling wins over
      the lower-case one, and there is none when neither occurs. */
  function ChooseKey(keys: seq<string>): (r: Option<string>)
    ensures r == Some(UpperKey) <==> UpperKey in keys
    ensures r == Some(LowerKey) <==> UpperKey !in keys && LowerKey in keys
    ensures r == None <==> UpperKey !in keys && LowerKey !in keys
  {
    if UpperKey in keys then Some(UpperKey)
    else if LowerKey in keys then Some(LowerKey)
    else None
  }

  /** The choice depends only on which keys occur, not on their order or repetition
      (so not on the order in which dicts list their keys). */
  lemma ChooseKeyOrderFree(a: seq<string>, b: seq<string>)
    requires forall k :: k in a <==> k in b
    ensures ChooseKey(a) == ChooseKey(b)
  {
  }

  // ---------------------------------------------------------------- the tally

  /** The label one reaction is counted under: `str(get_first_elem(notes.get(key, [''])))`. */
  function LabelOf(r: Reaction, key: string): Result<Option<string>, Raised>
  {
    var v := if key in r.notes then r.notes[key] else Items([Str("")]);
    match FirstElem(v)
    case Err(e) => Err(e)
    case Ok(first) => Ok(Shown(first))
  }

  /** `Counter([...])` over the reactions: the multiset of their labels, or the error
      of a reaction whose note under the key is an empty list. */
  function Labels(rs: seq<Reaction>, key: string): (r: Result<multiset<Option<string>>, Raised>)
    ensures r.Err? ==> r.error == IndexError
  {
    if rs == [] then Ok(multiset{})
    else
      match Labels(rs[..|rs| - 1], key)
      case Err(e) => Err(e)
      case Ok(m) =>
        match LabelOf(rs[|rs| - 1], key)
        case Err(e) => Err(e)
        case Ok(l) => Ok(m + multiset{l})
  }

  /** The six confidence cells, for the labels "0" .. "4" and "" in that order: the count of each label (0 for a label nobody has),
      or -1 in every cell when the model has no confidence key. */
  function LevelCounts(rs: seq<Reaction>, key: Option<string>): Result<seq<int>, Raised>
  {
    match key
    case None =>
      var unknown: seq<int> := [-1, -1, -1, -1, -1, -1];
      Ok(unknown)
    case Some(k) =>
      match Labels(rs, k)
      case Err(e) => Err(e)
      case Ok(m) => Ok([m[Some("0")], m[Some("1")], m[Some("2")], m[Some("3")], m[Some("4")], m[Some("")]])
  }

  /** The note a reaction holds under `key` is an empty list. */
  predicate EmptyNote(r: Reaction, key: string)
  {
    key in r.notes && r.notes[key] == Items([])
  }

  /** The tally fails exactly when some reaction's note under the key is an empty list,
      and otherwise counts every reaction once. */
  lemma {:induction false} LabelsOk(rs: seq<Reaction>, key: string)
    ensures Labels(rs, key).Err? <==> exists i :: 0 <= i < |rs| && EmptyNote(rs[i], key)
    ensures Labels(rs, key).Ok? ==> |Labels(rs, key).value| == |rs|
  {
    if rs != [] {
      var init := rs[..|rs| - 1];
      LabelsOk(init, key);
      if exists i :: 0 <= i < |init| && EmptyNote(init[i], key) {
        var i :| 0 <= i < |init| && EmptyNote(init[i], key);
        assert EmptyNote(rs[i], key);
      }
      if exists i :: 0 <= i < |rs| && EmptyNote(rs[i], key) {
        var i :| 0 <= i < |rs| && EmptyNote(rs[i], key);
        if i < |init| {
          assert EmptyNote(init[i], key);
        }
      }
    }
  }

  /** How many reactions have no note under the key. */
  function MissingCount(rs: seq<Reaction>, key: string): nat
  {
    if rs == [] then 0
    else MissingCount(rs[..|rs| - 1], key) + (if key in rs[|rs| - 1].notes then 0 else 1)
  }

  /** Reactions without the key are counted under 'cl none'. */
  lemma {:induction false} MissingCountedAsNone(rs: seq<Reaction>, key: string)
    requires Labels(rs, key).Ok?
    ensures MissingCount(rs, key) <= Labels(rs, key).value[Some("")]
  {
    if rs != [] {
      MissingCountedAsNone(rs[..|rs| - 1], key);
    }
  }

  /** The six counted labels together. */
  function LevelSum(m: multiset<Option<string>>): nat
  {
    m[Some("0")] + m[Some("1")] + m[Some("2")] + m[Some("3")] + m[Some("4")] + m[Some("")]
  }

  /** Adding one label raises the sum of the six counts by at most one. */
  lemma LevelSumStep(m: multiset<Option<string>>, l: Option<string>)
    ensures LevelSum(m + multiset{l}) <= LevelSum(m) + 1
  {
  }

  /** The six confidence cells never count more reactions than the model has. */
  lemma {:induction false} LevelsWithinReactions(rs: seq<Reaction>, key: string)
    requires Labels(rs, key).Ok?
    ensures LevelSum(Labels(rs, key).value) <= |rs|
  {
    if rs != [] {
      var init := rs[..|rs| - 1];
      LevelsWithinReactions(init, key);
      var l := LabelOf(rs[|rs| - 1], key).value;
      LevelSumStep(Labels(init, key).value, l);
    }
  }

  // ---------------------------------------------------------------- lethality

  /** `len(del[del['growth'] < minimum_viable_growth_rate])`: the deletions whose growth
      falls below the viability threshold. */
  function Lethal(growth: seq<real>, minimum: real): (n: nat)
    ensures n <= |growth|
  {
    if growth == [] then 0
    else Lethal(growth[..|growth| - 1], minimum) + (if growth[|growth| - 1] < minimum then 1 else 0)
  }

  /** A deletion counts as lethal exactly when it grows below the threshold: every
      deletion is lethal when all are, none when none is. */
  lemma {:induction false} LethalExtremes(growth: seq<real>, minimum: real)
    ensures (forall i :: 0 <= i < |growth| ==> growth[i] < minimum) ==> Lethal(growth, minimum) == |growth|
    ensures (forall i :: 0 <= i < |growth| ==> growth[i] >= minimum) ==> Lethal(growth, minimum) == 0
  {
    if growth != [] {
      LethalExtremes(growth[..|growth| - 1], minimum);
    }
  }

  /** A higher viability threshold never makes fewer deletions lethal. */
  lemma {:induction false} LethalMonotone(growth: seq<real>, low: real, high: real)
    requires low <= high
    ensures Lethal(growth, low) <= Lethal(growth, high)
  {
    if growth != [] {
      LethalMonotone(growth[..|growth| - 1], low, high);
    }
  }

  // ---------------------------------------------------------------- the column

  /** The solver's results for one model: the blocked reactions and the growth rate of
      every single-gene and single-reaction deletion. */
  datatype Deletions = Deletions(blocked: seq<string>, geneGrowth: seq<real>, reactionGrowth: seq<real>)

  /** One column of the table, a field per row: 'Genes', 'Metabolites', 'Reactions',
      'Fraction of blocked reactions', 'Fraction of lethal genes', 'Fraction of lethal
      reactions', 'cl 0' .. 'cl 4' and 'cl none'. */
  datatype Column = Column(
    genes: nat, metabolites: nat, reactions: nat,
    blocked: real, lethalGenes: real, lethalReactions: real,
    cl0: int, cl1: int, cl2: int, cl3: int, cl4: int, clNone: int)

  /** The lethal-gene fraction; -1 when the model has no genes (the caught
      ZeroDivisionError). */
  function GeneFraction(genes: nat, lethal: nat): real
  {
    if genes == 0 then -1.0 else lethal as real / genes as real
  }

  /** `get_col` as a value: the column of a model with `genes` genes, `metabolites`
      metabolites and reactions `rs`. With no reactions the blocked fraction divides by
      zero and nothing is returned. */
  function ColumnOf(genes: nat, metabolites: nat, rs: seq<Reaction>, d: Deletions, minimum: real): Result<Column, Raised>
  {
    if |rs| == 0 then Err(ZeroDivisionError)
    else
      match LevelCounts(rs, ConfidenceKey(rs))
      case Err(e) => Err(e)
      case Ok(cl) =>
        Ok(Column(genes, metabolites, |rs|,
                  |d.blocked| as real / |rs| as real,
                  GeneFraction(genes, Lethal(d.geneGrowth, minimum)),
                  Lethal(d.reactionGrowth, minimum) as real / |rs| as real,
                  cl[0], cl[1], cl[2], cl[3], cl[4], cl[5]))
  }

  /** The confidence key of a model, decided on the set of its notes keys. */
  function ConfidenceKey(rs: seq<Reaction>): Option<string>
  {
    if UpperKey in UnionOf(rs) then Some(UpperKey)
    else if LowerKey in UnionOf(rs) then Some(LowerKey)
    else None
  }

  /** Every notes key of every reaction. */
  function UnionOf(rs: seq<Reaction>): (u: set<string>)
    ensures forall k :: k in u <==> exists i :: 0 <= i < |rs| && k in rs[i].notes
  {
    if rs == [] then {}
    else UnionOf(rs[..|rs| - 1]) + rs[|rs| - 1].notes.Keys
  }

  /** `get_col`: computes the cells in the table's row order. The exchanges are
      opened only inside the model's context, which the library undoes on exit, so the
      model is read and not changed; the solver's results computed there are `d`. */
  method GetCol(model: Model, d: Deletions, minimum: real) returns (res: Result<Column, Raised>)
    ensures res == ColumnOf(|model.genes|, |model.metabolites|, model.reactions, d, minimum)
  {
    var rs := model.reactions;
    var genes, metabolites := |model.genes|, |model.metabolites|;
    if |rs| == 0 {
      return Err(ZeroDivisionError);
    }
    var blocked := |d.blocked| as real / |rs| as real;
    var lethalGenes;
    if genes == 0 {
      lethalGenes := -1.0;
    } else {
      lethalGenes := Lethal(d.geneGrowth, minimum) as real / genes as real;
    }
    var lethalReactions := Lethal(d.reactionGrowth, minimum) as real / |rs| as real;
    var keys := CollectNoteKeys(rs);
    var key := ChooseKey(keys);
    assert key == ConfidenceKey(rs);
    var counts := LevelCounts(rs, key);
    if counts.Err? {
      return Err(counts.error);
    }
    var cl := counts.value;
    res := Ok(Column(genes, metabolites, |rs|, blocked, lethalGenes, lethalReactions,
                     cl[0], cl[1], cl[2], cl[3], cl[4], cl[5]));
  }

  /** A column fails on a model without reactions, and otherwise only on a confidence
      note that is an empty list. */
  lemma ColumnFails(genes: nat, metabolites: nat, rs: seq<Reaction>, d: Deletions, minimum: real)
    ensures var c := ColumnOf(genes, metabolites, rs, d, minimum);
      && (|rs| == 0 ==> c == Err(ZeroDivisionError))
      && (|rs| > 0 ==>
            (c.Err? <==> (&& ConfidenceKey(rs).Some?
                          && exists i :: 0 <= i < |rs| && EmptyNote(rs[i], ConfidenceKey(rs).value))))
      && (|rs| > 0 && c.Err? ==> c.error == IndexError)
  {
    if |rs| > 0 && ConfidenceKey(rs).Some? {
      LabelsOk(rs, ConfidenceKey(rs).value);
    }
  }

  /** The counts in a column are the model's own sizes, and the blocked fraction is in
      [0, 1] when the blocked reactions are distinct reactions of the model. */
  lemma ColumnSizes(genes: nat, metabolites: nat, rs: seq<Reaction>, d: Deletions, minimum: real)
    requires ColumnOf(genes, metabolites, rs, d, minimum).Ok?
    ensures var c := ColumnOf(genes, metabolites, rs, d, minimum).value;
      && c.genes == genes && c.metabolites == metabolites && c.reactions == |rs| > 0
      && (|d.blocked| <= |rs| ==> 0.0 <= c.blocked <= 1.0)
  {
  }

  /** A count over a total it cannot exceed is a fraction in [0, 1]. */
  lemma FractionInUnit(n: nat, total: nat)
    requires 0 < total && n <= total
    ensures 0.0 <= n as real / total as real <= 1.0
  {
  }

  /** The fraction cells of a column that was computed. */
  lemma ColumnFractionCells(genes: nat, metabolites: nat, rs: seq<Reaction>, d: Deletions, minimum: real)
    requires ColumnOf(genes, metabolites, rs, d, minimum).Ok?
    ensures |rs| > 0
    ensures ColumnOf(genes, metabolites, rs, d, minimum).value.lethalGenes == GeneFraction(genes, Lethal(d.geneGrowth, minimum))
    ensures ColumnOf(genes, metabolites, rs, d, minimum).value.lethalReactions == Lethal(d.reactionGrowth, minimum) as real / |rs| as real
  {
  }

  /** The lethal-gene fraction is -1 exactly when there are no genes, and in [0, 1]
      when there is one deletion result per gene; the lethal-reaction fraction is in
      [0, 1] when there is one per reaction. */
  lemma ColumnFractions(genes: nat, metabolites: nat, rs: seq<Reaction>, d: Deletions, minimum: real)
    requires ColumnOf(genes, metabolites, rs, d, minimum).Ok?
    ensures var c := ColumnOf(genes, metabolites, rs, d, minimum).value;
      && (c.lethalGenes == -1.0 <==> genes == 0)
      && (genes > 0 && |d.geneGrowth| == genes ==> 0.0 <= c.lethalGenes <= 1.0)
      && (|d.reactionGrowth| == |rs| ==> 0.0 <= c.lethalReactions <= 1.0)
  {
    ColumnFractionCells(genes, metabolites, rs, d, minimum);
    var lethalGenes := Lethal(d.geneGrowth, minimum);
    if genes > 0 {
      assert 0.0 <= lethalGenes as real / genes as real;
      if |d.geneGrowth| == genes {
        FractionInUnit(lethalGenes, genes);
      }
    }
    if |d.reactionGrowth| == |rs| {
      FractionInUnit(Lethal(d.reactionGrowth, minimum), |rs|);
    }
  }

  /** The confidence cells are all -1 when no reaction has a confidence key. */
  lemma ColumnNoConfidence(genes: nat, metabolites: nat, rs: seq<Reaction>, d: Deletions, minimum: real)
    requires ColumnOf(genes, metabolites, rs, d, minimum).Ok? && ConfidenceKey(rs) == None
    ensures var c := ColumnOf(genes, metabolites, rs, d, minimum).value;
      c.cl0 == c.cl1 == c.cl2 == c.cl3 == c.cl4 == c.clNone == -1
  {
  }

  /** The confidence cells of a column computed with a confidence key: the counts of
      the labels "0" .. "4" and "". */
  lemma ColumnLevelCells(genes: nat, metabolites: nat, rs: seq<Reaction>, d: Deletions, minimum: real, key: string)
    requires ColumnOf(genes, metabolites, rs, d, minimum).Ok? && ConfidenceKey(rs) == Some(key)
    ensures Labels(rs, key).Ok?
    ensures var c := ColumnOf(genes, metabolites, rs, d, minimum).value;
      var m := Labels(rs, key).value;
      && c.cl0 == m[Some("0")] && c.cl1 == m[Some("1")] && c.cl2 == m[Some("2")]
      && c.cl3 == m[Some("3")] && c.cl4 == m[Some("4")] && c.clNone == m[Some("")]
  {
  }

  /** With a confidence key, the confidence cells count reactions without counting any
      twice, and the reactions lacking the key are among those under 'cl none'. */
  lemma ColumnConfidence(genes: nat, metabolites: nat, rs: seq<Reaction>, d: Deletions, minimum: real)
    requires ColumnOf(genes, metabolites, rs, d, minimum).Ok? && ConfidenceKey(rs).Some?
    ensures var c := ColumnOf(genes, metabolites, rs, d, minimum).value;
      && 0 <= c.cl0 && 0 <= c.cl1 && 0 <= c.cl2 && 0 <= c.cl3 && 0 <= c.cl4 && 0 <= c.clNone
      && c.cl0 + c.cl1 + c.cl2 + c.cl3 + c.cl4 + c.clNone <= |rs|
      && MissingCount(rs, ConfidenceKey(rs).value) <= c.clNone
  {
    var key := ConfidenceKey(rs).value;
    ColumnLevelCells(genes, metabolites, rs, d, minimum, key);
    LevelsWithinReactions(rs, key);
    MissingCountedAsNone(rs, key);
  }

  /** `get_table`: one column per model, side by side; the first failing model stops it. */
  method GetTable(models: seq<Model>, ds: seq<Deletions>, minimum: real) returns (res: Result<seq<Column>, Raised>)
    requires |ds| == |models|
    ensures res.Ok? ==> |res.value| == |models| && forall i :: 0 <= i < |models| ==>
      ColumnOf(|models[i].genes|, |models[i].metabolites|, models[i].reactions, ds[i], minimum) == Ok(res.value[i])
    ensures res.Err? ==> exists i :: (&& 0 <= i < |models|
      && ColumnOf(|models[i].genes|, |models[i].metabolites|, models[i].reactions, ds[i], minimum) == Err(res.error))
  {
    var cols: seq<Column> := [];
    for n := 0 to |models|
      invariant |cols| == n
      invariant forall i :: 0 <= i < n ==>
        ColumnOf(|models[i].genes|, |models[i].metabolites|, models[i].reactions, ds[i], minimum) == Ok(cols[i])
    {
      var col := GetCol(models[n], ds[n], minimum);
      if col.Err? {
        return Err(col.error);
      }
      cols := cols + [col.value];
    }
    res := Ok(cols);
  }
}
