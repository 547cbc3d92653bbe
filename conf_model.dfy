/** Configuring the model for an experimental condition: exchange and biomass bounds,
    the medium and secretion tables, measured fluxes under a constraint mode, the
    growth- and non-growth-associated ATP maintenance, and gene knock-outs given as
    ranges of locus tags. Reading the CSV tables is left to the caller: their rows are
    parameters here. */
module ConfModel {
  import opened Common
  import opened Text
  import opened Cobra

  // ================================================================ bound edits

  /** One assignment to a reaction's bounds: `lower_bound = x`, `upper_bound = x`,
      or `bounds = (x, y)`. */
  datatype BoundEdit = SetLower(lo: real) | SetUpper(hi: real) | SetBoth(lo: real, hi: real)

  function ApplyEdit(r: Reaction, e: BoundEdit): (r': Reaction)
    ensures r' == r.(lb := r'.lb, ub := r'.ub)
    ensures r'.lb == (if e.SetUpper? then r.lb else e.lo)
    ensures r'.ub == (if e.SetLower? then r.ub else e.hi)
  {
    match e
    case SetLower(lo) => r.(lb := lo)
    case SetUpper(hi) => r.(ub := hi)
    case SetBoth(lo, hi) => r.(lb := lo, ub := hi)
  }

  function ApplyAll(r: Reaction, es: seq<BoundEdit>): Reaction
    decreases |es|
  {
    if es == [] then r else ApplyAll(ApplyEdit(r, es[0]), es[1..])
  }

  /** A list of edits that ends by setting both bounds leaves exactly those bounds. */
  lemma {:induction false} ApplyAllEndsWithBoth(r: Reaction, es: seq<BoundEdit>, lo: real, hi: real)
    ensures ApplyAll(r, es + [SetBoth(lo, hi)]) == r.(lb := lo, ub := hi)
    decreases |es|
  {
    if es != [] {
      assert (es + [SetBoth(lo, hi)])[1..] == es[1..] + [SetBoth(lo, hi)];
      ApplyAllEndsWithBoth(ApplyEdit(r, es[0]), es[1..], lo, hi);
    }
  }

  /** Edits leave everything but the bounds alone. */
  lemma {:induction false} ApplyAllKeeps(r: Reaction, es: seq<BoundEdit>)
    ensures ApplyAll(r, es) == r.(lb := ApplyAll(r, es).lb, ub := ApplyAll(r, es).ub)
    decreases |es|
  {
    if es != [] {
      ApplyAllKeeps(ApplyEdit(r, es[0]), es[1..]);
    }
  }

  /** Edits applied one after another, each to the reaction `get_by_id` finds; the
      first id with no reaction stops the sequence with a KeyError for that id. */
  function ApplyEdits(rs: seq<Reaction>, edits: seq<(string, BoundEdit)>): (r: (seq<Reaction>, Option<string>))
    ensures |r.0| == |rs|
    decreases |edits|
  {
    if edits == [] then (rs, None)
    else match FindReaction(rs, edits[0].0)
      case None => (rs, Some(edits[0].0))
      case Some(j) => ApplyEdits(rs[j := ApplyEdit(rs[j], edits[0].1)], edits[1..])
  }

  /** Index of the first edit naming no reaction, |edits| when there is none. */
  function FirstMissing(rs: seq<Reaction>, edits: seq<(string, BoundEdit)>): (n: nat)
    ensures n <= |edits|
    ensures forall i :: 0 <= i < n ==> FindReaction(rs, edits[i].0).Some?
    ensures n < |edits| ==> FindReaction(rs, edits[n].0).None?
  {
    if edits == [] || FindReaction(rs, edits[0].0).None? then 0
    else 1 + FirstMissing(rs, edits[1..])
  }

  /** The edits that land on reaction `k`, in order. */
  function EditsAt(rs: seq<Reaction>, edits: seq<(string, BoundEdit)>, k: nat): seq<BoundEdit>
  {
    if edits == [] then []
    else (if FindReaction(rs, edits[0].0) == Some(k) then [edits[0].1] else []) + EditsAt(rs, edits[1..], k)
  }

  lemma {:induction false} EditsAtSameIds(rs: seq<Reaction>, rs': seq<Reaction>, edits: seq<(string, BoundEdit)>, k: nat)
    requires |rs| == |rs'| && forall j :: 0 <= j < |rs| ==> rs[j].id == rs'[j].id
    ensures EditsAt(rs, edits, k) == EditsAt(rs', edits, k)
    ensures FirstMissing(rs, edits) == FirstMissing(rs', edits)
  {
    if edits != [] {
      FindReactionSameIds(rs, rs', edits[0].0);
      EditsAtSameIds(rs, rs', edits[1..], k);
    }
  }

  /** The outcome of a sequence of bound edits is the KeyError of the first id that
      names no reaction, if there is one. */
  lemma {:induction false} ApplyEditsError(rs: seq<Reaction>, edits: seq<(string, BoundEdit)>)
    ensures ApplyEdits(rs, edits).1 ==
      if FirstMissing(rs, edits) < |edits| then Some(edits[FirstMissing(rs, edits)].0) else None
    decreases |edits|
  {
    if edits != [] && FindReaction(rs, edits[0].0).Some? {
      var j := FindReaction(rs, edits[0].0).value;
      var rs1 := rs[j := ApplyEdit(rs[j], edits[0].1)];
      ApplyEditsError(rs1, edits[1..]);
      EditsAtSameIds(rs, rs1, edits[1..], 0);
    }
  }

  /** What a sequence of bound edits does to each reaction: it ends with the edits
      that name it applied in order, up to the first id missing from the model. */
  lemma {:induction false} ApplyEditsAt(rs: seq<Reaction>, edits: seq<(string, BoundEdit)>, k: nat)
    requires k < |rs|
    ensures ApplyEdits(rs, edits).0[k] == ApplyAll(rs[k], EditsAt(rs, edits[..FirstMissing(rs, edits)], k))
    decreases |edits|
  {
    var n := FirstMissing(rs, edits);
    if edits == [] || FindReaction(rs, edits[0].0).None? {
      assert edits[..n] == [];
    } else {
      var j := FindReaction(rs, edits[0].0).value;
      var rs1 := rs[j := ApplyEdit(rs[j], edits[0].1)];
      var e := edits[0].1;
      var m := FirstMissing(rs1, edits[1..]);
      EditsAtSameIds(rs, rs1, edits[1..], k);
      assert n == 1 + m;
      var tail := edits[1..][..m];
      ApplyEditsAt(rs1, edits[1..], k);
      EditsAtSameIds(rs, rs1, tail, k);
      var later := EditsAt(rs, tail, k);
      assert ApplyEdits(rs, edits).0[k] == ApplyAll(rs1[k], later);
      var first := if k == j then [e] else [];
      EditsAtStep(rs, edits, n, k);
      assert EditsAt(rs, edits[..n], k) == first + later;
      ApplyAllStep(rs[k], first, later);
    }
  }

  lemma EditsAtStep(rs: seq<Reaction>, edits: seq<(string, BoundEdit)>, n: nat, k: nat)
    requires 0 < n <= |edits|
    ensures EditsAt(rs, edits[..n], k)
         == (if FindReaction(rs, edits[0].0) == Some(k) then [edits[0].1] else []) + EditsAt(rs, edits[1..][..n - 1], k)
  {
    assert edits[..n][1..] == edits[1..][..n - 1];
  }

  lemma ApplyAllStep(r: Reaction, first: seq<BoundEdit>, rest: seq<BoundEdit>)
    requires |first| <= 1
    ensures ApplyAll(r, first + rest) == ApplyAll(if first == [] then r else ApplyEdit(r, first[0]), rest)
  {
    if first != [] {
      assert (first + rest)[1..] == rest;
    } else {
      assert first + rest == rest;
    }
  }

  /** Applying edits never renames a reaction, and a reaction no edit names keeps
      its bounds. */
  lemma ApplyEditsFrame(rs: seq<Reaction>, edits: seq<(string, BoundEdit)>, k: nat)
    requires k < |rs|
    ensures var r := ApplyEdits(rs, edits).0[k];
      r == rs[k].(lb := r.lb, ub := r.ub)
    ensures EditsAt(rs, edits, k) == [] ==> ApplyEdits(rs, edits).0[k] == rs[k]
  {
    ApplyEditsAt(rs, edits, k);
    var n := FirstMissing(rs, edits);
    ApplyAllKeeps(rs[k], EditsAt(rs, edits[..n], k));
    if EditsAt(rs, edits, k) == [] {
      EditsAtPrefixEmpty(rs, edits, n, k);
    }
  }

  lemma {:induction false} EditsAtPrefixEmpty(rs: seq<Reaction>, edits: seq<(string, BoundEdit)>, n: nat, k: nat)
    requires n <= |edits| && EditsAt(rs, edits, k) == []
    ensures EditsAt(rs, edits[..n], k) == []
    decreases n
  {
    if n > 0 {
      assert edits[..n][1..] == edits[1..][..n - 1];
      EditsAtPrefixEmpty(rs, edits[1..], n - 1, k);
    }
  }

  /** The loop over table rows behind `set_medium` and `set_secretion` (and the
      single assignments of `set_bof` and `set_ngam`): look each reaction up by id and
      assign its bounds, stopping with a KeyError at the first unknown id. */
  method ApplyBoundEdits(model: Model, edits: seq<(string, BoundEdit)>) returns (err: Option<string>)
    modifies model`reactions
    ensures (model.reactions, err) == ApplyEdits(old(model.reactions), edits)
  {
    var i := 0;
    err := None;
    while i < |edits|
      invariant 0 <= i <= |edits|
      invariant ApplyEdits(model.reactions, edits[i..]) == ApplyEdits(old(model.reactions), edits)
    {
      assert edits[i..][1..] == edits[i + 1..];
      var found := FindReaction(model.reactions, edits[i].0);
      if found.None? {
        err := Some(edits[i].0);
        return;
      }
      var j := found.value;
      model.reactions := model.reactions[j := ApplyEdit(model.reactions[j], edits[i].1)];
      i := i + 1;
    }
  }

  /** A row of a medium file (reaction_id, lower_bound) or of a secretion file
      (reaction_id, upper_bound). */
  datatype BoundRow = BoundRow(reactionId: string, value: real)

  function LowerEdits(rows: seq<BoundRow>): (es: seq<(string, BoundEdit)>)
    ensures |es| == |rows|
    ensures forall i :: 0 <= i < |rows| ==> es[i] == (rows[i].reactionId, SetLower(rows[i].value))
  {
    if rows == [] then [] else [(rows[0].reactionId, SetLower(rows[0].value))] + LowerEdits(rows[1..])
  }

  function UpperEdits(rows: seq<BoundRow>): (es: seq<(string, BoundEdit)>)
    ensures |es| == |rows|
    ensures forall i :: 0 <= i < |rows| ==> es[i] == (rows[i].reactionId, SetUpper(rows[i].value))
  {
    if rows == [] then [] else [(rows[0].reactionId, SetUpper(rows[0].value))] + UpperEdits(rows[1..])
  }

  /** The effect of `set_medium` on the reactions, and its error if any; `files`
      maps a file name to its rows, and a missing file is an error. */
  function MediumEffect(rs: seq<Reaction>, mediumFileId: string, files: map<string, seq<BoundRow>>)
    : (seq<Reaction>, Option<string>)
  {
    if mediumFileId + ".csv" !in files then (rs, Some(mediumFileId + ".csv"))
    else ApplyEdits(rs, LowerEdits(files[mediumFileId + ".csv"]))
  }

  /** `set_medium`: each row of the medium file sets that reaction's lower bound. */
  method SetMedium(model: Model, mediumFileId: string, files: map<string, seq<BoundRow>>)
    returns (err: Option<string>)
    modifies model`reactions
    ensures (model.reactions, err) == MediumEffect(old(model.reactions), mediumFileId, files)
  {
    if mediumFileId + ".csv" !in files {
      return Some(mediumFileId + ".csv");
    }
    err := ApplyBoundEdits(model, LowerEdits(files[mediumFileId + ".csv"]));
  }

  /** A medium file sets lower bounds only: upper bounds, ids and stoichiometry of
      every reaction are kept, and a reaction no row names is untouched. */
  lemma MediumKeepsUpperBounds(rs: seq<Reaction>, rows: seq<BoundRow>, k: nat)
    requires k < |rs|
    ensures ApplyEdits(rs, LowerEdits(rows)).0[k] == rs[k].(lb := ApplyEdits(rs, LowerEdits(rows)).0[k].lb)
  {
    var edits := LowerEdits(rows);
    ApplyEditsAt(rs, edits, k);
    EditsAtAllLower(rs, edits[..FirstMissing(rs, edits)], k);
    OnlyLowerKeepsUpper(rs[k], EditsAt(rs, edits[..FirstMissing(rs, edits)], k));
  }

  lemma {:induction false} OnlyLowerKeepsUpper(r: Reaction, es: seq<BoundEdit>)
    requires forall i :: 0 <= i < |es| ==> es[i].SetLower?
    ensures ApplyAll(r, es) == r.(lb := ApplyAll(r, es).lb)
    decreases |es|
  {
    if es != [] {
      OnlyLowerKeepsUpper(ApplyEdit(r, es[0]), es[1..]);
    }
  }

  lemma {:induction false} EditsAtAllLower(rs: seq<Reaction>, edits: seq<(string, BoundEdit)>, k: nat)
    requires forall i :: 0 <= i < |edits| ==> edits[i].1.SetLower?
    ensures forall i :: 0 <= i < |EditsAt(rs, edits, k)| ==> EditsAt(rs, edits, k)[i].SetLower?
    decreases |edits|
  {
    if edits != [] {
      EditsAtAllLower(rs, edits[1..], k);
    }
  }

  // ================================================================ exchanges

  const ExchangePrefix := "EX_"

  /** Every reaction whose id starts with "EX_" receives the edit; the others keep
      their bounds. */
  function EditExchanges(rs: seq<Reaction>, e: BoundEdit): (rs': seq<Reaction>)
    ensures |rs'| == |rs|
    ensures forall i :: 0 <= i < |rs| ==>
      rs'[i] == if StartsWith(rs[i].id, ExchangePrefix) then ApplyEdit(rs[i], e) else rs[i]
  {
    seq(|rs|, i requires 0 <= i < |rs| =>
      if StartsWith(rs[i].id, ExchangePrefix) then ApplyEdit(rs[i], e) else rs[i])
  }

  /** The loop shared by `block_all_exchanges`, `open_all_exchanges` and
      `set_secretion('all')`. */
  method EditAllExchanges(model: Model, e: BoundEdit)
    modifies model`reactions
    ensures model.reactions == EditExchanges(old(model.reactions), e)
  {
    var i := 0;
    while i < |model.reactions|
      invariant 0 <= i <= |model.reactions| && |model.reactions| == |old(model.reactions)|
      invariant forall k :: 0 <= k < i ==> model.reactions[k] == EditExchanges(old(model.reactions), e)[k]
      invariant forall k :: i <= k < |model.reactions| ==> model.reactions[k] == old(model.reactions)[k]
    {
      if StartsWith(model.reactions[i].id, ExchangePrefix) {
        model.reactions := model.reactions[i := ApplyEdit(model.reactions[i], e)];
      }
      i := i + 1;
    }
  }

  /** `block_all_exchanges`: every exchange reaction gets bounds (0, 0). */
  method BlockAllExchanges(model: Model)
    modifies model`reactions
    ensures model.reactions == EditExchanges(old(model.reactions), SetBoth(0.0, 0.0))
  {
    EditAllExchanges(model, SetBoth(0.0, 0.0));
  }

  /** `open_all_exchanges`: every exchange reaction gets bounds (-1000, 1000). */
  method OpenAllExchanges(model: Model)
    modifies model`reactions
    ensures model.reactions == EditExchanges(old(model.reactions), SetBoth(-1000.0, 1000.0))
  {
    EditAllExchanges(model, SetBoth(-1000.0, 1000.0));
  }

  /** After opening, every exchange is (-1000, 1000) whether or not it was blocked
      first, and every other reaction is untouched by both. */
  lemma {:induction false} OpenOverridesBlock(rs: seq<Reaction>)
    ensures EditExchanges(EditExchanges(rs, SetBoth(0.0, 0.0)), SetBoth(-1000.0, 1000.0))
         == EditExchanges(rs, SetBoth(-1000.0, 1000.0))
  {
    var a := EditExchanges(EditExchanges(rs, SetBoth(0.0, 0.0)), SetBoth(-1000.0, 1000.0));
    var b := EditExchanges(rs, SetBoth(-1000.0, 1000.0));
    assert |a| == |b|;
    forall i | 0 <= i < |a| ensures a[i] == b[i] {
      assert EditExchanges(rs, SetBoth(0.0, 0.0))[i].id == rs[i].id;
    }
  }

  /** Blocking leaves no exchange able to carry flux and no other reaction changed. */
  lemma BlockedExchangesAreClosed(rs: seq<Reaction>, i: nat)
    requires i < |rs|
    ensures var r := EditExchanges(rs, SetBoth(0.0, 0.0))[i];
      if StartsWith(rs[i].id, ExchangePrefix) then r.lb == 0.0 && r.ub == 0.0 else r == rs[i]
  {
  }

  /** The effect of `set_secretion` on the reactions, and its error if any. */
  function SecretionEffect(rs: seq<Reaction>, secretionFileId: string, files: map<string, seq<BoundRow>>)
    : (seq<Reaction>, Option<string>)
  {
    if secretionFileId == "all" then (EditExchanges(rs, SetUpper(1000.0)), None)
    else if secretionFileId + ".csv" !in files then (rs, Some(secretionFileId + ".csv"))
    else ApplyEdits(rs, UpperEdits(files[secretionFileId + ".csv"]))
  }

  /** `set_secretion`: 'all' sets the upper bound of every exchange to 1000;
      otherwise the named secretion file's rows set upper bounds. */
  method SetSecretion(model: Model, secretionFileId: string, files: map<string, seq<BoundRow>>)
    returns (err: Option<string>)
    modifies model`reactions
    ensures (model.reactions, err) == SecretionEffect(old(model.reactions), secretionFileId, files)
  {
    if secretionFileId == "all" {
      EditAllExchanges(model, SetUpper(1000.0));
      return None;
    }
    if secretionFileId + ".csv" !in files {
      return Some(secretionFileId + ".csv");
    }
    err := ApplyBoundEdits(model, UpperEdits(files[secretionFileId + ".csv"]));
  }

  /** Sequencing: edits `a` then `b` is `a`, and `b` on its result unless `a` failed. */
  lemma {:induction false} ApplyEditsAppend(rs: seq<Reaction>, a: seq<(string, BoundEdit)>, b: seq<(string, BoundEdit)>)
    ensures ApplyEdits(rs, a + b) ==
      if ApplyEdits(rs, a).1.Some? then ApplyEdits(rs, a) else ApplyEdits(ApplyEdits(rs, a).0, b)
    decreases |a|
  {
    if a == [] {
      assert a + b == b;
    } else {
      assert (a + b)[0] == a[0] && (a + b)[1..] == a[1..] + b;
      match FindReaction(rs, a[0].0)
      case None =>
      case Some(j) =>
        ApplyEditsAppend(rs[j := ApplyEdit(rs[j], a[0].1)], a[1..], b);
    }
  }

  // ================================================================ biomass and ATP

  const BiomassCellobiose := "BIOMASS_CELLOBIOSE"
  const BiomassNoCellulosome := "BIOMASS_NO_CELLULOSOME"
  const BiomassCellulose := "BIOMASS_CELLULOSE"

  function BlockBiomassEdits(): seq<(string, BoundEdit)>
  {
    [(BiomassCellobiose, SetBoth(0.0, 0.0)),
     (BiomassNoCellulosome, SetBoth(0.0, 0.0)),
     (BiomassCellulose, SetBoth(0.0, 0.0))]
  }

  /** The bound assignments of `set_bof`: block the three biomass reactions, then
      open the target. */
  function BofEdits(bofId: string): seq<(string, BoundEdit)>
  {
    BlockBiomassEdits() + [(bofId, SetBoth(0.0, 1000.0))]
  }

  /** `set_bof`: blocks every biomass reaction, makes the target the objective and
      gives it bounds (0, 1000). A missing reaction raises, leaving the assignments
      made before it; the objective changes only when every reaction exists. */
  method SetBof(model: Model, bofId: string) returns (err: Option<string>)
    modifies model`reactions, model`objective
    ensures (model.reactions, err) == ApplyEdits(old(model.reactions), BofEdits(bofId))
    ensures model.objective == if err.None? then bofId else old(model.objective)
  {
    ApplyEditsAppend(model.reactions, BlockBiomassEdits(), [(bofId, SetBoth(0.0, 1000.0))]);
    err := ApplyBoundEdits(model, BlockBiomassEdits());
    if err.Some? {
      return;
    }
    var found := FindReaction(model.reactions, bofId);
    if found.None? {
      return Some(bofId);
    }
    model.objective := bofId;
    var j := found.value;
    model.reactions := model.reactions[j := ApplyEdit(model.reactions[j], SetBoth(0.0, 1000.0))];
    assert ApplyEdits(model.reactions, []) == (model.reactions, None);
  }

  lemma {:induction false} ApplyAllSame(r: Reaction, es: seq<BoundEdit>, lo: real, hi: real)
    requires |es| > 0 && forall i :: 0 <= i < |es| ==> es[i] == SetBoth(lo, hi)
    ensures ApplyAll(r, es) == r.(lb := lo, ub := hi)
    decreases |es|
  {
    if |es| > 1 {
      ApplyAllSame(ApplyEdit(r, es[0]), es[1..], lo, hi);
    }
  }

  /** The edit of one `(id, edit)` pair that lands on reaction `k`, if any. */
  function Hit(rs: seq<Reaction>, id: string, e: BoundEdit, k: nat): seq<BoundEdit>
  {
    if FindReaction(rs, id) == Some(k) then [e] else []
  }

  lemma EditsAtBof(rs: seq<Reaction>, bofId: string, k: nat)
    ensures EditsAt(rs, BofEdits(bofId), k) ==
      Hit(rs, BiomassCellobiose, SetBoth(0.0, 0.0), k) + Hit(rs, BiomassNoCellulosome, SetBoth(0.0, 0.0), k) +
      Hit(rs, BiomassCellulose, SetBoth(0.0, 0.0), k) + Hit(rs, bofId, SetBoth(0.0, 1000.0), k)
  {
    var block := BlockBiomassEdits();
    var last := [(bofId, SetBoth(0.0, 1000.0))];
    EditsAtAppend(rs, block, last, k);
    assert last[1..] == [];
    assert block[1..][1..][1..] == [];
    var h1, h2, h3 := Hit(rs, BiomassCellobiose, SetBoth(0.0, 0.0), k),
      Hit(rs, BiomassNoCellulosome, SetBoth(0.0, 0.0), k), Hit(rs, BiomassCellulose, SetBoth(0.0, 0.0), k);
    assert EditsAt(rs, block[1..][1..], k) == h3 + [];
    assert EditsAt(rs, block[1..], k) == h2 + (h3 + []);
    assert EditsAt(rs, block, k) == h1 + (h2 + (h3 + []));
    assert h1 + (h2 + (h3 + [])) == h1 + h2 + h3;
  }

  /** The edits that reach reaction `k` from two lists are those of the first, then those of the second. */
  lemma {:induction false} EditsAtAppend(rs: seq<Reaction>, a: seq<(string, BoundEdit)>, b: seq<(string, BoundEdit)>, k: nat)
    ensures EditsAt(rs, a + b, k) == EditsAt(rs, a, k) + EditsAt(rs, b, k)
    decreases |a|
  {
    if a != [] {
      assert (a + b)[1..] == a[1..] + b;
      EditsAtAppend(rs, a[1..], b, k);
    } else {
      assert a + b == b;
    }
  }

  /** After a successful `set_bof` the target reaction is (0, 1000), every other
      biomass reaction is (0, 0), and no other reaction changed. */
  lemma SetBofEffect(rs: seq<Reaction>, bofId: string, k: nat)
    requires ApplyEdits(rs, BofEdits(bofId)).1.None? && k < |rs|
    ensures FindReaction(rs, bofId) == Some(k) ==>
      ApplyEdits(rs, BofEdits(bofId)).0[k] == rs[k].(lb := 0.0, ub := 1000.0)
    ensures (FindReaction(rs, bofId) != Some(k) &&
             (FindReaction(rs, BiomassCellobiose) == Some(k) || FindReaction(rs, BiomassNoCellulosome) == Some(k) ||
              FindReaction(rs, BiomassCellulose) == Some(k))) ==>
      ApplyEdits(rs, BofEdits(bofId)).0[k] == rs[k].(lb := 0.0, ub := 0.0)
    ensures (FindReaction(rs, bofId) != Some(k) && FindReaction(rs, BiomassCellobiose) != Some(k) &&
             FindReaction(rs, BiomassNoCellulosome) != Some(k) && FindReaction(rs, BiomassCellulose) != Some(k)) ==>
      ApplyEdits(rs, BofEdits(bofId)).0[k] == rs[k]
  {
    var edits := BofEdits(bofId);
    ApplyEditsError(rs, edits);
    ApplyEditsAt(rs, edits, k);
    assert FirstMissing(rs, edits) == 4;
    assert edits[..4] == edits;
    EditsAtBof(rs, bofId, k);
    var head := Hit(rs, BiomassCellobiose, SetBoth(0.0, 0.0), k) + Hit(rs, BiomassNoCellulosome, SetBoth(0.0, 0.0), k) +
      Hit(rs, BiomassCellulose, SetBoth(0.0, 0.0), k);
    var last := Hit(rs, bofId, SetBoth(0.0, 1000.0), k);
    if last != [] {
      ApplyAllEndsWithBoth(rs[k], head, 0.0, 1000.0);
    } else if head != [] {
      assert head + last == head;
      ApplyAllSame(rs[k], head, 0.0, 0.0);
    } else {
      assert head + last == [];
    }
  }

  /** `set_ngam`: the ATP maintenance reaction gets bounds (ngam, 1000). */
  method SetNgam(model: Model, ngam: real) returns (err: Option<string>)
    modifies model`reactions
    ensures (model.reactions, err) == ApplyEdits(old(model.reactions), [("ATPM", SetBoth(ngam, 1000.0))])
  {
    err := ApplyBoundEdits(model, [("ATPM", SetBoth(ngam, 1000.0))]);
  }

  /** Metabolites whose coefficient becomes -|GAM| (consumed with ATP hydrolysis). */
  const HydrolysisInputs: set<string> := {"atp_c", "h2o_c"}
  /** Metabolites whose coefficient becomes +|GAM| (products of ATP hydrolysis). */
  const HydrolysisOutputs: set<string> := {"adp_c", "h_c", "pi_c"}

  /** The coefficient `set_reaction_gam` gives a hydrolysis metabolite. */
  function GamCoefficient(k: string, gam: real): real
  {
    if k in HydrolysisInputs then -Abs(gam) else Abs(gam)
  }

  /** The stoichiometry after `set_reaction_gam`. */
  function GamStoich(st: Vec, gam: real): (r: Vec)
    ensures NoZeros(r)
    ensures forall k :: k !in st ==> k !in r
    ensures forall k :: k in st && k !in HydrolysisInputs + HydrolysisOutputs ==> Get(r, k) == st[k]
    ensures forall k :: k in st && k in HydrolysisInputs ==> Get(r, k) == -Abs(gam)
    ensures forall k :: k in st && k in HydrolysisOutputs ==> Get(r, k) == Abs(gam)
  {
    Prune(map k | k in st :: if k in HydrolysisInputs + HydrolysisOutputs then GamCoefficient(k, gam) else st[k])
  }

  /** Setting GAM again overrides the previous value; in particular the rewrite is
      idempotent. A GAM of 0 removes the hydrolysis metabolites, so a later value
      cannot bring them back. */
  lemma GamLastWins(st: Vec, g1: real, g2: real)
    requires g1 != 0.0
    ensures GamStoich(GamStoich(st, g1), g2) == GamStoich(st, g2)
  {
    var g := GamStoich(st, g1);
    var a := GamStoich(g, g2);
    var b := GamStoich(st, g2);
    forall k ensures Get(a, k) == Get(b, k) {
      if k in st {
        if k in HydrolysisInputs + HydrolysisOutputs {
          assert Get(g, k) != 0.0;
        } else if k !in g {
          assert st[k] == Get(g, k) == 0.0;
        }
      }
    }
    NoZerosExtensional(a, b);
  }

  /** `set_reaction_gam` on reaction `i`: subtract the hydrolysis metabolites it
      has, then add each back at plus or minus |GAM|. */
  method SetReactionGam(model: Model, i: nat, gam: real)
    requires i < |model.reactions|
    modifies model`reactions
    ensures model.reactions ==
      old(model.reactions)[i := old(model.reactions)[i].(stoich := GamStoich(old(model.reactions)[i].stoich, gam))]
  {
    var st := GamRewrite(model.reactions[i].stoich, gam);
    model.reactions := model.reactions[i := model.reactions[i].(stoich := st)];
  }

  /** The subtract-then-add-back loop of `set_reaction_gam` on one stoichiometry. */
  method GamRewrite(st0: Vec, gam: real) returns (st: Vec)
    ensures st == GamStoich(st0, gam)
  {
    var targets := map k | k in st0 && k in HydrolysisInputs + HydrolysisOutputs :: st0[k];
    st := SubtractMetabolites(st0, targets);
    var todo := targets.Keys;
    GamStart(st0, gam, targets);
    while todo != {}
      invariant todo <= targets.Keys
      invariant GamSoFar(st, st0, gam, targets, todo)
      decreases |todo|
    {
      var k :| k in todo;
      GamAdd(st, st0, gam, targets, todo, k);
      st := AddMetabolites(st, map[k := GamCoefficient(k, gam)]);
      todo := todo - {k};
    }
    GamDone(st, st0, gam, targets);
  }

  /** The loop's stoichiometry: the hydrolysis metabolites already added back hold
      their new coefficient, those still to do are absent, the rest is as before. */
  ghost predicate GamSoFar(st: Vec, st0: Vec, gam: real, targets: Vec, todo: set<string>)
  {
    && NoZeros(st)
    && forall k :: Get(st, k) == (if k in targets.Keys - todo then GamCoefficient(k, gam) else if k in targets then 0.0 else Get(st0, k))
  }

  lemma GamStart(st0: Vec, gam: real, targets: Vec)
    requires targets == map k | k in st0 && k in HydrolysisInputs + HydrolysisOutputs :: st0[k]
    ensures GamSoFar(SubtractMetabolites(st0, targets), st0, gam, targets, targets.Keys)
  {
    var st := SubtractMetabolites(st0, targets);
    forall k ensures Get(st, k) == (if k in targets then 0.0 else Get(st0, k)) {
      assert Get(st, k) == Get(st0, k) - Get(targets, k);
    }
  }

  lemma GamAdd(st: Vec, st0: Vec, gam: real, targets: Vec, todo: set<string>, k: string)
    requires GamSoFar(st, st0, gam, targets, todo) && k in todo && todo <= targets.Keys
    ensures GamSoFar(AddMetabolites(st, map[k := GamCoefficient(k, gam)]), st0, gam, targets, todo - {k})
  {
    var st' := AddMetabolites(st, map[k := GamCoefficient(k, gam)]);
    forall x ensures Get(st', x) == (if x in targets.Keys - (todo - {k}) then GamCoefficient(x, gam) else if x in targets then 0.0 else Get(st0, x)) {
      assert Get(st', x) == Get(st, x) + Get(map[k := GamCoefficient(k, gam)], x);
    }
  }

  lemma GamDone(st: Vec, st0: Vec, gam: real, targets: Vec)
    requires targets == map k | k in st0 && k in HydrolysisInputs + HydrolysisOutputs :: st0[k]
    requires GamSoFar(st, st0, gam, targets, {})
    ensures st == GamStoich(st0, gam)
  {
    forall k ensures Get(st, k) == Get(GamStoich(st0, gam), k) {
      assert Get(st, k) == (if k in targets.Keys then GamCoefficient(k, gam) else Get(st0, k));
    }
    NoZerosExtensional(st, GamStoich(st0, gam));
  }

  /** Which parameter column `set_atp_param` reads. */
  function AtpColumn(reactorType: string, mediumId: string): (r: Result<string, string>)
    ensures reactorType == "batch" ==> r == Ok("batch")
    ensures r.Ok? ==> r.value in {"batch", "cellulose_chemostat", "cellobiose_chemostat", "cellobiose"}
    ensures r.Err? <==> (reactorType != "batch" &&
      (reactorType != "chemostat" ||
       !(Contains(mediumId, "cellulose") || Contains(mediumId, "cellobiose") || Contains(mediumId, "MTC-cell"))))
  {
    if reactorType == "batch" then Ok("batch")
    else if reactorType == "chemostat" then
      if Contains(mediumId, "cellulose") then Ok("cellulose_chemostat")
      else if Contains(mediumId, "cellobiose") then Ok("cellobiose_chemostat")
      else if Contains(mediumId, "MTC-cell") then Ok("cellobiose")
      else Err("GAM/NGAM parameters could not be determined for medium: " + mediumId)
    else Err("Invalid reactor type: " + reactorType)
  }

  /** GAM and NGAM of one column of the ATP parameter table. */
  datatype AtpParams = AtpParams(gam: real, ngam: real)

  /** The effect of `set_atp_param` on the reactions, and its error if any. */
  function AtpParamEffect(rs: seq<Reaction>, mediumId: string, bofId: string, reactorType: string,
                          table: map<string, AtpParams>): (seq<Reaction>, Option<string>)
  {
    match AtpColumn(reactorType, mediumId)
    case Err(e) => (rs, Some(e))
    case Ok(col) =>
      if col !in table then (rs, Some(col))
      else match FindReaction(rs, bofId)
        case None => (rs, Some(bofId))
        case Some(j) =>
          ApplyEdits(rs[j := rs[j].(stoich := GamStoich(rs[j].stoich, table[col].gam))],
                     [("ATPM", SetBoth(table[col].ngam, 1000.0))])
  }

  /** `set_atp_param`: picks the parameter column, rewrites the biomass reaction's
      GAM and sets NGAM. */
  method SetAtpParam(model: Model, mediumId: string, bofId: string, reactorType: string,
                     table: map<string, AtpParams>) returns (err: Option<string>)
    modifies model`reactions
    ensures (model.reactions, err) == AtpParamEffect(old(model.reactions), mediumId, bofId, reactorType, table)
  {
    var col := AtpColumn(reactorType, mediumId);
    if col.Err? {
      return Some(col.error);
    }
    if col.value !in table {
      return Some(col.value);
    }
    var p := table[col.value];
    var found := FindReaction(model.reactions, bofId);
    if found.None? {
      return Some(bofId);
    }
    SetReactionGam(model, found.value, p.gam);
    err := SetNgam(model, p.ngam);
  }

  // ================================================================ conditions

  /** The biomass reaction and medium file a medium string selects. */
  datatype Selection = Selection(bofId: string, mediumId: string)

  /** The medium files available: directory entries whose name contains ".csv". */
  function MediumFiles(listing: seq<string>): (r: seq<string>)
    ensures forall f :: f in r <==> f in listing && Contains(f, ".csv")
  {
    if listing == [] then []
    else (if Contains(listing[0], ".csv") then [listing[0]] else []) + MediumFiles(listing[1..])
  }

  /** The medium/biomass decision of `set_conditions`: "cellb" is checked before
      "avcell"; a known medium file picks the cellobiose biomass iff its name says
      "cellobiose"; anything else is an invalid medium. */
  function SelectMedium(mediumStr: string, listing: seq<string>): (r: Result<Selection, string>)
    ensures r.Ok? <==> (Contains(mediumStr, "cellb") || Contains(mediumStr, "avcell") ||
                        mediumStr in MediumFiles(listing) || mediumStr + ".csv" in MediumFiles(listing))
    ensures r.Ok? ==> r.value.bofId == BiomassCellobiose || r.value.bofId == BiomassCellulose
    ensures Contains(mediumStr, "cellb") ==> r == Ok(Selection(BiomassCellobiose, "comp_minimal_cellobiose"))
    ensures !Contains(mediumStr, "cellb") && Contains(mediumStr, "avcell") ==>
      r == Ok(Selection(BiomassCellulose, "comp_minimal_cellulose"))
    ensures r.Ok? && !Contains(mediumStr, "cellb") && !Contains(mediumStr, "avcell") ==>
      r.value.mediumId == mediumStr && (r.value.bofId == BiomassCellobiose <==> Contains(mediumStr, "cellobiose"))
  {
    var files := MediumFiles(listing);
    if Contains(mediumStr, "cellb") then Ok(Selection(BiomassCellobiose, "comp_minimal_cellobiose"))
    else if Contains(mediumStr, "avcell") then Ok(Selection(BiomassCellulose, "comp_minimal_cellulose"))
    else if mediumStr in files || mediumStr + ".csv" in files then
      Ok(Selection(if Contains(mediumStr, "cellobiose") then BiomassCellobiose else BiomassCellulose, mediumStr))
    else Err("Invalid medium ID: " + mediumStr)
  }

  /** The whole of `set_conditions` (reactor type 'batch'): the reactions, the
      objective and the outcome. */
  function Conditions(rs: seq<Reaction>, objective: string, mediumStr: string, secretion: string,
                      listing: seq<string>, files: map<string, seq<BoundRow>>, table: map<string, AtpParams>)
    : (seq<Reaction>, string, Result<string, string>)
  {
    match SelectMedium(mediumStr, listing)
    case Err(e) => (rs, objective, Err(e))
    case Ok(sel) => AfterBlocking(EditExchanges(rs, SetBoth(0.0, 0.0)), objective, sel, secretion, files, table)
  }

  function AfterBlocking(rs: seq<Reaction>, objective: string, sel: Selection, secretion: string,
                         files: map<string, seq<BoundRow>>, table: map<string, AtpParams>)
    : (seq<Reaction>, string, Result<string, string>)
  {
    var m := MediumEffect(rs, sel.mediumId, files);
    if m.1.Some? then (m.0, objective, Err(m.1.value))
    else AfterMedium(m.0, objective, sel, secretion, files, table)
  }

  function AfterMedium(rs: seq<Reaction>, objective: string, sel: Selection, secretion: string,
                       files: map<string, seq<BoundRow>>, table: map<string, AtpParams>)
    : (seq<Reaction>, string, Result<string, string>)
  {
    var s := SecretionEffect(rs, secretion, files);
    if s.1.Some? then (s.0, objective, Err(s.1.value))
    else AfterSecretion(s.0, objective, sel, table)
  }

  function AfterSecretion(rs: seq<Reaction>, objective: string, sel: Selection, table: map<string, AtpParams>)
    : (seq<Reaction>, string, Result<string, string>)
  {
    var a := AtpParamEffect(rs, sel.mediumId, sel.bofId, "batch", table);
    if a.1.Some? then (a.0, objective, Err(a.1.value))
    else BofStep(a.0, objective, sel.bofId)
  }

  function BofStep(rs: seq<Reaction>, objective: string, bofId: string): (seq<Reaction>, string, Result<string, string>)
  {
    var b := ApplyEdits(rs, BofEdits(bofId));
    if b.1.Some? then (b.0, objective, Err(b.1.value)) else (b.0, bofId, Ok(bofId))
  }

  /** A successful configuration has `bofId` as objective, and that reaction open. */
  ghost predicate OpensObjective(res: (seq<Reaction>, string, Result<string, string>), bofId: string)
  {
    res.2.Ok? ==>
      && res.1 == bofId && res.2.value == bofId
      && FindReaction(res.0, bofId).Some?
      && res.0[FindReaction(res.0, bofId).value].lb == 0.0
      && res.0[FindReaction(res.0, bofId).value].ub == 1000.0
  }

  lemma BofStepOpens(rs: seq<Reaction>, objective: string, bofId: string)
    ensures OpensObjective(BofStep(rs, objective, bofId), bofId)
  {
    var b := ApplyEdits(rs, BofEdits(bofId));
    if b.1.None? {
      ApplyEditsError(rs, BofEdits(bofId));
      assert FirstMissing(rs, BofEdits(bofId)) == 4;
      assert BofEdits(bofId)[3].0 == bofId;
      var k := FindReaction(rs, bofId).value;
      SetBofEffect(rs, bofId, k);
      forall j | 0 <= j < |rs| ensures b.0[j].id == rs[j].id {
        ApplyEditsFrame(rs, BofEdits(bofId), j);
      }
      FindReactionSameIds(rs, b.0, bofId);
    }
  }

  /** `set_conditions`: selects medium and biomass, blocks all exchanges, applies
      the medium and secretion files, the ATP parameters and the objective. */
  method SetConditions(model: Model, mediumStr: string, secretion: string, listing: seq<string>,
                       files: map<string, seq<BoundRow>>, table: map<string, AtpParams>)
    returns (r: Result<string, string>)
    modifies model`reactions, model`objective
    ensures (model.reactions, model.objective, r) ==
      Conditions(old(model.reactions), old(model.objective), mediumStr, secretion, listing, files, table)
  {
    var sel := SelectMedium(mediumStr, listing);
    if sel.Err? {
      return Err(sel.error);
    }
    var bofId := sel.value.bofId;
    var mediumId := sel.value.mediumId;
    BlockAllExchanges(model);
    var err := SetMedium(model, mediumId, files);
    if err.Some? {
      return Err(err.value);
    }
    err := SetSecretion(model, secretion, files);
    if err.Some? {
      return Err(err.value);
    }
    err := SetAtpParam(model, mediumId, bofId, "batch", table);
    if err.Some? {
      return Err(err.value);
    }
    err := SetBof(model, bofId);
    if err.Some? {
      return Err(err.value);
    }
    r := Ok(bofId);
  }

  /** When `set_conditions` succeeds, the biomass reaction the medium selects is
      the objective, and it is open, (0, 1000). */
  lemma ConditionsOpenObjective(rs: seq<Reaction>, objective: string, mediumStr: string, secretion: string,
                                listing: seq<string>, files: map<string, seq<BoundRow>>,
                                table: map<string, AtpParams>)
    requires SelectMedium(mediumStr, listing).Ok?
    ensures OpensObjective(Conditions(rs, objective, mediumStr, secretion, listing, files, table),
                           SelectMedium(mediumStr, listing).value.bofId)
  {
    var sel := SelectMedium(mediumStr, listing).value;
    var rs1 := EditExchanges(rs, SetBoth(0.0, 0.0));
    var m := MediumEffect(rs1, sel.mediumId, files);
    if m.1.None? {
      var s := SecretionEffect(m.0, secretion, files);
      if s.1.None? {
        var a := AtpParamEffect(s.0, sel.mediumId, sel.bofId, "batch", table);
        BofStepOpens(a.0, objective, sel.bofId);
      }
    }
  }

  // ================================================================ measured fluxes

  /** A row of the extracellular-flux table: column names in order with their
      values, None standing for NaN. */
  type FluxRow = seq<(string, Option<real>)>

  /** `flux_row[key]`; None for a KeyError. */
  function Column(row: FluxRow, key: string): Option<Option<real>>
  {
    if row == [] then None else if row[0].0 == key then Some(row[0].1) else Column(row[1..], key)
  }

  const MetadataColumns: seq<string> := ["index", "Strain", "deleted_genes", "Medium", "Reference", "Reactor", "Notes"]

  function ColumnNames(row: FluxRow): (names: seq<string>)
    ensures |names| == |row| && forall i :: 0 <= i < |row| ==> names[i] == row[i].0
  {
    if row == [] then [] else [row[0].0] + ColumnNames(row[1..])
  }

  /** Columns that hold a measured flux: not a standard deviation, not metadata. */
  function Measured(names: seq<string>): (cols: seq<string>)
    ensures forall c :: c in cols <==> c in names && !EndsWith(c, "std") && c !in MetadataColumns
  {
    if names == [] then []
    else (if !EndsWith(names[0], "std") && names[0] !in MetadataColumns then [names[0]] else []) + Measured(names[1..])
  }

  function MeasuredColumns(row: FluxRow): seq<string>
  {
    Measured(ColumnNames(row))
  }

  /** The reaction a measured column constrains: the growth rate goes to the
      biomass reaction, any other metabolite to its exchange reaction. */
  function FluxTarget(col: string, bofId: string): string
  {
    if col == "GR" then bofId else ExchangePrefix + col + "_e"
  }

  function Plus(a: Option<real>, b: Option<real>): Option<real>
  {
    if a.Some? && b.Some? then Some(a.value + b.value) else None
  }

  function Minus(a: Option<real>, b: Option<real>): Option<real>
  {
    if a.Some? && b.Some? then Some(a.value - b.value) else None
  }

  /** The bounds to assign, None when one of them is NaN. */
  function BoundsUnlessNan(lo: Option<real>, hi: Option<real>): Result<Option<(real, real)>, string>
  {
    if lo.Some? && hi.Some? then Ok(Some((lo.value, hi.value))) else Ok(None)
  }

  /** The bounds a constraint mode gives one measured column: 'min' (mean - std,
      1000), 'mean' (mean, 1000), 'max' (mean + std, 1000), 'both' (mean - std,
      mean + std). A missing std column is a KeyError; an unknown mode leaves the
      bounds unassigned, which fails when they are read. */
  function ModeBounds(row: FluxRow, col: string, mode: string): Result<Option<(real, real)>, string>
  {
    match Column(row, col)
    case None => Err("KeyError: " + col)
    case Some(mean) =>
      if mode == "mean" then BoundsUnlessNan(mean, Some(1000.0))
      else if mode == "min" || mode == "max" || mode == "both" then
        match Column(row, col + "_std")
        case None => Err("KeyError: " + col + "_std")
        case Some(std) =>
          if mode == "min" then BoundsUnlessNan(Minus(mean, std), Some(1000.0))
          else if mode == "max" then BoundsUnlessNan(Plus(mean, std), Some(1000.0))
          else BoundsUnlessNan(Minus(mean, std), Plus(mean, std))
      else Err("UnboundLocalError: lb")
  }

  /** With a measured mean and a non-negative std, 'min' <= 'mean' <= 'max' for the
      lower bound, 'both' brackets the mean, and only 'both' lowers the upper bound
      from 1000. */
  lemma ModeBoundsOrdered(row: FluxRow, col: string, mean: real, std: real)
    requires Column(row, col) == Some(Some(mean)) && Column(row, col + "_std") == Some(Some(std))
    requires std >= 0.0
    ensures var lo := ModeBounds(row, col, "min"); var md := ModeBounds(row, col, "mean");
      var hi := ModeBounds(row, col, "max"); var both := ModeBounds(row, col, "both");
      && lo == Ok(Some((mean - std, 1000.0))) && md == Ok(Some((mean, 1000.0)))
      && hi == Ok(Some((mean + std, 1000.0)))
      && lo.value.value.0 <= md.value.value.0 <= hi.value.value.0
      && both.value.value.0 <= mean <= both.value.value.1
  {
  }

  /** 'mean' needs no std column, and a NaN mean or std means no assignment. */
  lemma ModeBoundsNan(row: FluxRow, col: string, mode: string)
    requires Column(row, col) == Some(None)
    requires mode == "mean" || (mode in {"min", "max", "both"} && Column(row, col + "_std").Some?)
    ensures ModeBounds(row, col, mode) == Ok(None)
  {
  }

  /** `set_experimental_flux_reaction_bounds` as a fold over the measured columns,
      stopping at the first error. */
  function FluxEffect(rs: seq<Reaction>, row: FluxRow, cols: seq<string>, bofId: string, mode: string)
    : (r: (seq<Reaction>, Option<string>))
    ensures |r.0| == |rs|
    decreases |cols|
  {
    if cols == [] then (rs, None)
    else match ModeBounds(row, cols[0], mode)
      case Err(e) => (rs, Some(e))
      case Ok(None) => FluxEffect(rs, row, cols[1..], bofId, mode)
      case Ok(Some(b)) =>
        match FindReaction(rs, FluxTarget(cols[0], bofId))
        case None => (rs, Some(FluxTarget(cols[0], bofId)))
        case Some(j) => FluxEffect(rs[j := rs[j].(lb := b.0, ub := b.1)], row, cols[1..], bofId, mode)
  }

  /** `set_experimental_flux_reaction_bounds`. */
  method SetExperimentalFluxBounds(model: Model, row: FluxRow, bofId: string, mode: string)
    returns (err: Option<string>)
    modifies model`reactions
    ensures (model.reactions, err) == FluxEffect(old(model.reactions), row, MeasuredColumns(row), bofId, mode)
  {
    var cols := MeasuredColumns(row);
    var i := 0;
    while i < |cols|
      invariant 0 <= i <= |cols|
      invariant FluxEffect(model.reactions, row, cols[i..], bofId, mode) == FluxEffect(old(model.reactions), row, cols, bofId, mode)
    {
      assert cols[i..][1..] == cols[i + 1..];
      var bounds := ModeBounds(row, cols[i], mode);
      if bounds.Err? {
        return Some(bounds.error);
      }
      if bounds.value.Some? {
        var rxnId := FluxTarget(cols[i], bofId);
        var found := FindReaction(model.reactions, rxnId);
        if found.None? {
          return Some(rxnId);
        }
        var j := found.value;
        var b := bounds.value.value;
        model.reactions := model.reactions[j := model.reactions[j].(lb := b.0, ub := b.1)];
      }
      i := i + 1;
    }
    err := None;
  }

  /** Only the reactions some measured column targets change, and only in their
      bounds; an unknown mode fails before changing anything. */
  lemma {:induction false} FluxEffectFrame(rs: seq<Reaction>, row: FluxRow, cols: seq<string>, bofId: string,
                                           mode: string, k: nat)
    requires k < |rs|
    ensures var r := FluxEffect(rs, row, cols, bofId, mode).0[k]; r == rs[k].(lb := r.lb, ub := r.ub)
    ensures (forall c :: c in cols ==> FindReaction(rs, FluxTarget(c, bofId)) != Some(k)) ==>
      FluxEffect(rs, row, cols, bofId, mode).0[k] == rs[k]
    decreases |cols|
  {
    if cols != [] {
      match ModeBounds(row, cols[0], mode)
      case Err(e) =>
      case Ok(None) =>
        FluxEffectFrame(rs, row, cols[1..], bofId, mode, k);
      case Ok(Some(b)) =>
        match FindReaction(rs, FluxTarget(cols[0], bofId))
        case None =>
        case Some(j) =>
          var rs1 := rs[j := rs[j].(lb := b.0, ub := b.1)];
          FluxEffectFrame(rs1, row, cols[1..], bofId, mode, k);
          forall c | c in cols[1..] ensures FindReaction(rs1, FluxTarget(c, bofId)) == FindReaction(rs, FluxTarget(c, bofId)) {
            FindReactionSameIds(rs, rs1, FluxTarget(c, bofId));
          }
    }
  }

  lemma UnknownModeFails(rs: seq<Reaction>, row: FluxRow, cols: seq<string>, bofId: string, mode: string)
    requires mode !in {"min", "mean", "max", "both"} && cols != []
    ensures FluxEffect(rs, row, cols, bofId, mode) == (rs, FluxEffect(rs, row, cols, bofId, mode).1)
    ensures FluxEffect(rs, row, cols, bofId, mode).1.Some?
  {
  }

  // ================================================================ knock-outs

  /** The deleted-gene field: a string of comma-separated segments, or a list used
      as it is. */
  datatype DeletionField = DeletionText(text: string) | DeletionItems(items: seq<string>)

  function RemoveSpaces(parts: seq<string>): (r: seq<string>)
    ensures |r| == |parts| && forall i :: 0 <= i < |parts| ==> r[i] == RemoveChar(parts[i], ' ')
  {
    if parts == [] then [] else [RemoveChar(parts[0], ' ')] + RemoveSpaces(parts[1..])
  }

  /** The segments to expand: a string is split on ',' with every space removed. */
  function Segments(d: DeletionField): seq<string>
  {
    match d
    case DeletionText(t) => RemoveSpaces(Split(t, ','))
    case DeletionItems(items) => items
  }

  /** `genemap.get(id, id)` */
  function MapGene(geneMap: map<string, string>, id: string): string
  {
    if id in geneMap then geneMap[id] else id
  }

  /** `range(a, b + 1, 5)` */
  function Range5(a: int, b: int): seq<int>
    decreases if a > b then 0 else b - a + 1
  {
    if a > b then [] else [a] + Range5(a + 5, b)
  }

  /** The range holds every fifth number from `a` up to `b`, and nothing else. */
  lemma {:induction false} Range5Members(a: int, b: int, x: int)
    ensures x in Range5(a, b) <==> a <= x <= b && (x - a) % 5 == 0
    decreases if a > b then 0 else b - a + 1
  {
    if a <= b {
      Range5Members(a + 5, b, x);
      assert (x - a) % 5 == (x - (a + 5)) % 5;
    }
  }

  /** A new-style locus tag for a number: 4-digit numbers get a leading zero. */
  function LocusTag(x: int): string
  {
    var digits := IntToString(x);
    if |digits| == 4 then "CLO1313_RS0" + digits else "CLO1313_RS" + digits
  }

  function LocusTags(xs: seq<int>): (r: seq<string>)
    ensures |r| == |xs| && forall i :: 0 <= i < |xs| ==> r[i] == LocusTag(xs[i])
  {
    if xs == [] then [] else [LocusTag(xs[0])] + LocusTags(xs[1..])
  }

  /** For the 4- and 5-digit numbers that locus tags use, the generated tag has the
      fixed length and its last five characters read back as the number: the
      padding makes ranges of generated tags re-expandable. */
  lemma LocusTagRoundTrip(x: int)
    requires 1000 <= x <= 99999
    ensures |LocusTag(x)| == 15
    ensures ParseInt(TakeLast(LocusTag(x), 5)) == Some(x)
  {
    var d := NatToString(x);
    NatToStringValue(x);
    if x <= 9999 {
      NatToStringLength(x, 3);
      assert LocusTag(x) == "CLO1313_RS0" + d;
      assert TakeLast(LocusTag(x), 5) == "0" + d;
      LeadingZero(d);
      ParseDigits("0" + d);
    } else {
      NatToStringLength(x, 4);
      assert TakeLast(LocusTag(x), 5) == d;
      ParseDigits(d);
    }
  }

  const OldPrefix := "Clo1313"
  const NewPrefix := "CLO1313"

  /** The range end as the code computes it: the guard "does not start with
      'Clo1313' OR does not start with 'CLO1313'" is always true, so the start's
      first seven characters and '_' are always put in front. */
  function RangeEndAsWritten(start: string, end: string): string
  {
    if !StartsWith(end, OldPrefix) || !StartsWith(end, NewPrefix) then Take(start, 7) + "_" + end else end
  }

  /** No string starts with both prefixes, so the as-written guard never keeps the end. */
  lemma RangeEndAsWrittenAlwaysPrefixes(start: string, end: string)
    ensures RangeEndAsWritten(start, end) == Take(start, 7) + "_" + end
  {
    if StartsWith(end, OldPrefix) {
      assert end[1] == 'l';
      assert !StartsWith(end, NewPrefix);
    }
  }

  /** The range end as intended: an abbreviated end is completed from the start,
      a full gene id is kept. */
  function RangeEnd(start: string, end: string): string
  {
    if StartsWith(end, OldPrefix) || StartsWith(end, NewPrefix) then end else Take(start, 7) + "_" + end
  }

  /** Both endpoints mapped to new ids, then every fifth number between the numbers
      their last five characters spell; `int()` failing is a ValueError. */
  function ExpandRange(start: string, end: string, geneMap: map<string, string>): Result<seq<string>, string>
  {
    var a := TakeLast(MapGene(geneMap, start), 5);
    var b := TakeLast(MapGene(geneMap, end), 5);
    match (ParseInt(a), ParseInt(b))
    case (None, _) => Err("ValueError: invalid literal for int(): " + a)
    case (_, None) => Err("ValueError: invalid literal for int(): " + b)
    case (Some(x), Some(y)) => Ok(LocusTags(Range5(x, y)))
  }

  /** One segment, as the code does it. */
  function ExpandSegmentAsWritten(seg: string, geneMap: map<string, string>): Result<seq<string>, string>
  {
    var parts := Split(seg, '-');
    if |parts| == 1 then Ok([MapGene(geneMap, parts[0])])
    else if |parts| == 2 then ExpandRange(parts[0], RangeEndAsWritten(parts[0], parts[1]), geneMap)
    else Err("Unexpected format")
  }

  /** One segment, with the range-end guard corrected: a single id yields its new
      id, 'A-B' a range, more than one '-' is an error. */
  function ExpandSegment(seg: string, geneMap: map<string, string>): (r: Result<seq<string>, string>)
    ensures |Split(seg, '-')| > 2 ==> r == Err("Unexpected format")
    ensures |Split(seg, '-')| == 1 ==> r == Ok([MapGene(geneMap, seg)])
  {
    var parts := Split(seg, '-');
    if |parts| == 1 then
      SplitJoin(seg, '-');
      Ok([MapGene(geneMap, parts[0])])
    else if |parts| == 2 then ExpandRange(parts[0], RangeEnd(parts[0], parts[1]), geneMap)
    else Err("Unexpected format")
  }

  /** A hyphen-free string followed by '-' and another hyphen-free string splits
      into those two. */
  lemma SplitPair(a: string, b: string)
    requires '-' !in a && '-' !in b
    ensures Split(a + "-" + b, '-') == [a, b]
  {
    JoinSplit([a, b], '-');
    assert Join([a, b], "-") == Join([a], "-") + "-" + b;
  }

  /** An old-style locus tag: 'Clo1313_' and four more characters. */
  predicate OldStyleTag(e: string)
  {
    |e| == 12 && StartsWith(e, OldPrefix) && e[7] == '_'
  }

  /** A range whose end is written as a full old-style id fails in the code: the
      end becomes, e.g., 'Clo1313_Clo1313_0575', which the gene map does not know
      and whose last five characters '_0575' are not a number. */
  lemma FullRangeEndMangled(start: string, end: string, geneMap: map<string, string>)
    requires '-' !in start && '-' !in end && OldStyleTag(end)
    requires Take(start, 7) + "_" + end !in geneMap
    ensures ExpandSegmentAsWritten(start + "-" + end, geneMap).Err?
  {
    SplitPair(start, end);
    RangeEndAsWrittenAlwaysPrefixes(start, end);
    var mangled := Take(start, 7) + "_" + end;
    assert TakeLast(mangled, 5) == TakeLast(end, 5);
    assert TakeLast(end, 5)[0] == '_';
  }

  /** The same range with the corrected guard expands whenever the gene map gives
      both endpoints new ids ending in five digits. */
  lemma FullRangeEndCorrected(start: string, end: string, geneMap: map<string, string>)
    requires '-' !in start && '-' !in end && OldStyleTag(end)
    requires start in geneMap && end in geneMap
    requires |geneMap[start]| >= 5 && AllDigits(TakeLast(geneMap[start], 5))
    requires |geneMap[end]| >= 5 && AllDigits(TakeLast(geneMap[end], 5))
    ensures ExpandSegment(start + "-" + end, geneMap).Ok?
  {
    SplitPair(start, end);
    ParseDigits(TakeLast(geneMap[start], 5));
    ParseDigits(TakeLast(geneMap[end], 5));
  }

  /** `int()` reads a grouping underscore: an abbreviated end of three digits
      leaves '3_564' as the last five characters, which read as 3564, so
      'Clo1313_560-564' with neither end in the gene map expands to one id. */
  lemma GroupedRangeEnds()
    ensures RangeEnd("Clo1313_560", "564") == RangeEndAsWritten("Clo1313_560", "564") == "Clo1313_564"
    ensures ExpandRange("Clo1313_560", "Clo1313_564", map[]) == Ok(["CLO1313_RS03560"])
  {
    assert !StartsWith("564", OldPrefix) && !StartsWith("564", NewPrefix);
    assert Take("Clo1313_560", 7) == "Clo1313";
    ParseIntGrouping();
    assert TakeLast("Clo1313_560", 5) == "3_560" && TakeLast("Clo1313_564", 5) == "3_564";
    assert Range5(3565, 3564) == [];
    assert Range5(3560, 3564) == [3560];
    TagOf3560();
  }

  lemma TagOf3560()
    ensures LocusTags([3560]) == ["CLO1313_RS03560"]
  {
    assert NatToString(3) == "3";
    assert NatToString(35) == "35";
    assert NatToString(356) == "356";
    assert NatToString(3560) == "3560";
    assert IntToString(3560) == "3560";
    assert LocusTag(3560) == "CLO1313_RS0" + "3560" == "CLO1313_RS03560";
    assert [3560][1..] == [];
    assert LocusTags([3560]) == [LocusTag(3560)] + LocusTags([]);
  }

  /** When the end is abbreviated, or not a range at all, the code and the
      corrected guard agree. */
  lemma ExpandSegmentAgrees(seg: string, geneMap: map<string, string>)
    requires |Split(seg, '-')| == 2 ==>
      !StartsWith(Split(seg, '-')[1], OldPrefix) && !StartsWith(Split(seg, '-')[1], NewPrefix)
    ensures ExpandSegmentAsWritten(seg, geneMap) == ExpandSegment(seg, geneMap)
  {
    var parts := Split(seg, '-');
    if |parts| == 2 {
      RangeEndAsWrittenAlwaysPrefixes(parts[0], parts[1]);
    }
  }

  /** With the corrected guard, an end written as a full id and the same end
      abbreviated to its number expand to the same ids. */
  lemma FullAndAbbreviatedRangesAgree(start: string, n: string, geneMap: map<string, string>)
    requires '-' !in start && '-' !in n && Take(start, 7) == OldPrefix
    requires !StartsWith(n, OldPrefix) && !StartsWith(n, NewPrefix)
    ensures ExpandSegment(start + "-" + OldPrefix + "_" + n, geneMap) == ExpandSegment(start + "-" + n, geneMap)
  {
    var full := OldPrefix + "_" + n;
    assert '-' !in full by {
      forall k | 0 <= k < |full| ensures full[k] != '-' {
        if k >= 8 { assert full[k] == n[k - 8]; }
      }
    }
    SplitPair(start, full);
    SplitPair(start, n);
    assert start + "-" + OldPrefix + "_" + n == start + "-" + full;
    assert StartsWith(full, OldPrefix);
  }

  /** `r` with `acc` in front of its ids. */
  function Prepend(acc: seq<string>, r: Result<seq<string>, string>): Result<seq<string>, string>
  {
    match r
    case Ok(ids) => Ok(acc + ids)
    case Err(e) => Err(e)
  }

  /** All segments expanded in order; the first failing segment is the outcome. */
  function ExpandAll(segs: seq<string>, geneMap: map<string, string>): Result<seq<string>, string>
  {
    if segs == [] then Ok([])
    else match ExpandSegment(segs[0], geneMap)
      case Err(e) => Err(e)
      case Ok(ids) => Prepend(ids, ExpandAll(segs[1..], geneMap))
  }

  /** The inner loop of `knock_out_genes`: the locus tags of every fifth number
      from `x` up to `y`. */
  method RangeIds(x: int, y: int) returns (ids: seq<string>)
    ensures ids == LocusTags(Range5(x, y))
  {
    ids := [];
    var n := x;
    while n <= y
      invariant ids + LocusTags(Range5(n, y)) == LocusTags(Range5(x, y))
      decreases y - n + 5
    {
      RangeIdsStep(ids, n, y);
      ids := ids + [LocusTag(n)];
      n := n + 5;
    }
    assert ids + [] == ids;
  }

  /** One number of the range moves from the ids still to come to those made. */
  lemma RangeIdsStep(ids: seq<string>, n: int, y: int)
    requires n <= y
    ensures ids + LocusTags(Range5(n, y)) == (ids + [LocusTag(n)]) + LocusTags(Range5(n + 5, y))
  {
    var rest := Range5(n + 5, y);
    assert Range5(n, y) == [n] + rest;
    LocusTagsCons(n, rest);
    ConcatAssoc(ids, [LocusTag(n)], LocusTags(rest));
  }

  /** Concatenation regroups freely. */
  lemma ConcatAssoc(a: seq<string>, b: seq<string>, c: seq<string>)
    ensures a + (b + c) == (a + b) + c
  {
  }

  /** The tags of a list with a first number: that number's tag, then the others'. */
  lemma LocusTagsCons(x: int, rest: seq<int>)
    ensures LocusTags([x] + rest) == [LocusTag(x)] + LocusTags(rest)
  {
    assert ([x] + rest)[1..] == rest;
  }

  /** One pass of the outer loop of `knock_out_genes`. */
  method SegmentIds(seg: string, geneMap: map<string, string>) returns (r: Result<seq<string>, string>)
    ensures r == ExpandSegment(seg, geneMap)
  {
    var parts := Split(seg, '-');
    if |parts| == 1 {
      r := Ok([MapGene(geneMap, parts[0])]);
    } else if |parts| == 2 {
      var a := TakeLast(MapGene(geneMap, parts[0]), 5);
      var b := TakeLast(MapGene(geneMap, RangeEnd(parts[0], parts[1])), 5);
      var x := ParseInt(a);
      if x.None? {
        return Err("ValueError: invalid literal for int(): " + a);
      }
      var y := ParseInt(b);
      if y.None? {
        return Err("ValueError: invalid literal for int(): " + b);
      }
      var ids := RangeIds(x.value, y.value);
      r := Ok(ids);
    } else {
      r := Err("Unexpected format");
    }
  }

  /** One segment further into the expansion, whose own expansion is `one`. */
  lemma ExpandAllStep(segs: seq<string>, i: nat, acc: seq<string>, geneMap: map<string, string>,
                      one: Result<seq<string>, string>)
    requires i < |segs| && one == ExpandSegment(segs[i], geneMap)
    ensures one.Err? ==> Prepend(acc, ExpandAll(segs[i..], geneMap)) == Err(one.error)
    ensures one.Ok? ==>
      Prepend(acc, ExpandAll(segs[i..], geneMap)) == Prepend(acc + one.value, ExpandAll(segs[i + 1..], geneMap))
  {
    assert segs[i..][1..] == segs[i + 1..];
    if one.Ok? {
      match ExpandAll(segs[i + 1..], geneMap)
      case Ok(rest) => ConcatAssoc(acc, one.value, rest);
      case Err(_) =>
    }
  }

  /** Nothing in front changes nothing. */
  lemma PrependNothing(r: Result<seq<string>, string>)
    ensures Prepend([], r) == r
  {
    match r {
      case Ok(ids) => assert [] + ids == ids;
      case Err(_) =>
    }
  }

  /** The loops of `knock_out_genes` that build the list of all deleted gene ids. */
  method DeletedGeneIds(segs: seq<string>, geneMap: map<string, string>) returns (r: Result<seq<string>, string>)
    ensures r == ExpandAll(segs, geneMap)
  {
    var all: seq<string> := [];
    var i := 0;
    assert segs[0..] == segs;
    PrependNothing(ExpandAll(segs, geneMap));
    while i < |segs|
      invariant 0 <= i <= |segs|
      invariant ExpandAll(segs, geneMap) == Prepend(all, ExpandAll(segs[i..], geneMap))
    {
      var one := SegmentIds(segs[i], geneMap);
      ExpandAllStep(segs, i, all, geneMap, one);
      if one.Err? {
        return Err(one.error);
      }
      all := all + one.value;
      i := i + 1;
    }
    r := Ok(all);
    assert segs[i..] == [];
    assert all + [] == all;
  }

  /** Gene `j` is the one `get_by_id` finds for some listed id. */
  predicate Targeted(gs: seq<Gene>, ids: seq<string>, j: nat)
  {
    exists i :: 0 <= i < |ids| && FindGene(gs, ids[i]) == Some(j)
  }

  /** The genes after knocking out every listed id the model has. */
  function KnockedOut(gs: seq<Gene>, ids: seq<string>): (r: seq<Gene>)
    ensures |r| == |gs|
    ensures forall j :: 0 <= j < |gs| ==> r[j] == gs[j].(functional := gs[j].functional && !Targeted(gs, ids, j))
  {
    seq(|gs|, j requires 0 <= j < |gs| => gs[j].(functional := gs[j].functional && !Targeted(gs, ids, j)))
  }

  /** The listed ids the model does not have (reported, then skipped). */
  function NotInModel(gs: seq<Gene>, ids: seq<string>): (r: seq<string>)
    ensures forall x :: x in r <==> x in ids && FindGene(gs, x).None?
  {
    if ids == [] then []
    else NotInModel(gs, ids[..|ids| - 1]) + (if FindGene(gs, ids[|ids| - 1]).None? then [ids[|ids| - 1]] else [])
  }

  /** Knocking out in two passes is knocking out everything at once: the order in
      which ids are knocked out does not matter. */
  lemma KnockOutCompose(gs: seq<Gene>, a: seq<string>, b: seq<string>)
    ensures KnockedOut(KnockedOut(gs, a), b) == KnockedOut(gs, a + b)
  {
    var g1 := KnockedOut(gs, a);
    forall x ensures FindGene(g1, x) == FindGene(gs, x) {
      FindGeneSameIds(gs, g1, x);
    }
    forall j | 0 <= j < |gs| ensures Targeted(gs, a + b, j) == (Targeted(gs, a, j) || Targeted(g1, b, j)) {
      if Targeted(gs, a + b, j) {
        var i :| 0 <= i < |a + b| && FindGene(gs, (a + b)[i]) == Some(j);
        if i >= |a| { assert b[i - |a|] == (a + b)[i]; }
      }
      if Targeted(gs, a, j) {
        var i :| 0 <= i < |a| && FindGene(gs, a[i]) == Some(j);
        assert (a + b)[i] == a[i];
      }
      if Targeted(g1, b, j) {
        var i :| 0 <= i < |b| && FindGene(g1, b[i]) == Some(j);
        assert (a + b)[|a| + i] == b[i];
      }
    }
  }

  /** Knocking out one more id adds at most the gene it finds. */
  lemma TargetedStep(gs: seq<Gene>, ids: seq<string>, i: nat, j: nat)
    requires i < |ids| && j < |gs|
    ensures Targeted(gs, ids[..i + 1], j) == (Targeted(gs, ids[..i], j) || FindGene(gs, ids[i]) == Some(j))
  {
    TargetedStepOld(gs, ids, i, j);
    TargetedStepNew(gs, ids, i, j);
  }

  lemma TargetedStepOld(gs: seq<Gene>, ids: seq<string>, i: nat, j: nat)
    requires i < |ids| && j < |gs|
    ensures Targeted(gs, ids[..i + 1], j) ==> Targeted(gs, ids[..i], j) || FindGene(gs, ids[i]) == Some(j)
  {
    var pre, all := ids[..i], ids[..i + 1];
    if Targeted(gs, all, j) {
      var t :| 0 <= t < i + 1 && FindGene(gs, all[t]) == Some(j);
      if t < i {
        assert pre[t] == all[t];
        TargetedAt(gs, pre, t, j);
      }
    }
  }

  lemma TargetedStepNew(gs: seq<Gene>, ids: seq<string>, i: nat, j: nat)
    requires i < |ids| && j < |gs|
    ensures Targeted(gs, ids[..i], j) || FindGene(gs, ids[i]) == Some(j) ==> Targeted(gs, ids[..i + 1], j)
  {
    var pre, all := ids[..i], ids[..i + 1];
    if Targeted(gs, pre, j) {
      var t :| 0 <= t < i && FindGene(gs, pre[t]) == Some(j);
      assert all[t] == pre[t];
      TargetedAt(gs, all, t, j);
    } else if FindGene(gs, ids[i]) == Some(j) {
      assert all[i] == ids[i];
      TargetedAt(gs, all, i, j);
    }
  }

  /** An id that finds gene `j` makes it targeted. */
  lemma TargetedAt(gs: seq<Gene>, ids: seq<string>, t: nat, j: nat)
    requires t < |ids| && FindGene(gs, ids[t]) == Some(j)
    ensures Targeted(gs, ids, j)
  {
  }

  /** One more id: the gene found for it, if any, is knocked out as well. */
  lemma KnockedOutStep(gs: seq<Gene>, ids: seq<string>, i: nat)
    requires i < |ids|
    ensures FindGene(gs, ids[i]).None? ==> KnockedOut(gs, ids[..i + 1]) == KnockedOut(gs, ids[..i])
    ensures FindGene(gs, ids[i]).Some? ==>
      var j := FindGene(gs, ids[i]).value;
      var cur := KnockedOut(gs, ids[..i]);
      KnockedOut(gs, ids[..i + 1]) == cur[j := cur[j].(functional := false)]
  {
    forall j | 0 <= j < |gs| { TargetedStep(gs, ids, i, j); }
  }

  // ---------------------------------------------------------------- Gene.knock_out

  /** How cobra reads a gene rule, which this model does not parse: the gene ids the
      rule names (so the reaction is among those genes' `reactions`), and whether the
      rule still holds when the given genes are not functional (`Reaction.functional`). */
  datatype RuleEval = RuleEval(names: string -> set<string>, holds: (string, set<string>) -> bool)

  /** Knocking out more genes never revives a rule, as for rules built from 'and' and 'or'. */
  ghost predicate Monotone(ev: RuleEval)
  {
    forall rule, a, b :: a <= b && ev.holds(rule, b) ==> ev.holds(rule, a)
  }

  /** The ids of the genes that are not functional. */
  function OffIds(gs: seq<Gene>): set<string>
  {
    set i | 0 <= i < |gs| && !gs[i].functional :: gs[i].id
  }

  /** Knocking gene `j` out adds its id to the non-functional ones and nothing else. */
  lemma OffIdsKnock(gs: seq<Gene>, j: nat)
    requires j < |gs|
    ensures OffIds(gs[j := gs[j].(functional := false)]) == OffIds(gs) + {gs[j].id}
  {
    var gs' := gs[j := gs[j].(functional := false)];
    forall x | x in OffIds(gs) ensures x in OffIds(gs') {
      var i :| 0 <= i < |gs| && !gs[i].functional && gs[i].id == x;
      assert !gs'[i].functional && gs'[i].id == x;
    }
    assert !gs'[j].functional && gs'[j].id == gs[j].id;
  }

  /** `reaction.bounds = (0, 0)`. */
  function Zeroed(r: Reaction): (z: Reaction)
    ensures z.lb == 0.0 && z.ub == 0.0 && z.(lb := r.lb, ub := r.ub) == r
  {
    r.(lb := 0.0, ub := 0.0)
  }

  /** Knocking out the gene with id `id`, leaving the genes `gs`, shuts reaction `r`: it is
      one of that gene's reactions and its rule fails with the non-functional genes it names. */
  predicate Shut(r: Reaction, id: string, gs: seq<Gene>, ev: RuleEval)
  {
    id in ev.names(r.gpr) && !ev.holds(r.gpr, OffIds(gs) * ev.names(r.gpr))
  }

  /** cobra's `Gene.knock_out` on gene `j`: the gene stops being functional, then each of
      its reactions that is no longer functional gets bounds (0, 0). */
  function KnockOutGene(gs: seq<Gene>, rs: seq<Reaction>, j: nat, ev: RuleEval): (r: (seq<Gene>, seq<Reaction>))
    requires j < |gs|
    ensures r.0 == gs[j := gs[j].(functional := false)] && |r.1| == |rs|
    ensures forall k :: 0 <= k < |rs| ==> r.1[k] == if Shut(rs[k], gs[j].id, r.0, ev) then Zeroed(rs[k]) else rs[k]
  {
    var gs' := gs[j := gs[j].(functional := false)];
    (gs', seq(|rs|, k requires 0 <= k < |rs| => if Shut(rs[k], gs[j].id, gs', ev) then Zeroed(rs[k]) else rs[k]))
  }

  /** The knock-out loop of `knock_out_genes` on genes and reactions: each listed id the
      model has is knocked out in turn, the others skipped. */
  function KnockOut(gs: seq<Gene>, rs: seq<Reaction>, ids: seq<string>, ev: RuleEval): (r: (seq<Gene>, seq<Reaction>))
    ensures |r.0| == |gs| && |r.1| == |rs|
    decreases |ids|
  {
    if ids == [] then (gs, rs)
    else
      var prev := KnockOut(gs, rs, ids[..|ids| - 1], ev);
      match FindGene(prev.0, ids[|ids| - 1])
      case None => prev
      case Some(j) => KnockOutGene(prev.0, prev.1, j, ev)
  }

  /** On the genes, the loop is `KnockedOut`; no reaction is added or removed. */
  lemma {:induction false} KnockOutGenesAgree(gs: seq<Gene>, rs: seq<Reaction>, ids: seq<string>, ev: RuleEval)
    ensures KnockOut(gs, rs, ids, ev).0 == KnockedOut(gs, ids)
    decreases |ids|
  {
    if ids == [] {
      assert KnockedOut(gs, ids) == gs;
    } else {
      var n := |ids| - 1;
      var pre := ids[..n];
      KnockOutGenesAgree(gs, rs, pre, ev);
      var prev := KnockOut(gs, rs, pre, ev);
      FindGeneSameIds(gs, prev.0, ids[n]);
      KnockedOutStep(gs, ids, n);
      assert ids[..n + 1] == ids;
    }
  }

  /** Listed id `x` finds a gene, and the rule names it. */
  predicate Hits(gs: seq<Gene>, x: string, names: set<string>)
  {
    FindGene(gs, x).Some? && x in names
  }

  /** Some listed id finds a gene whose id the rule names. */
  predicate Touches(gs: seq<Gene>, ids: seq<string>, names: set<string>)
  {
    exists i :: 0 <= i < |ids| && Hits(gs, ids[i], names)
  }

  lemma TouchesStep(gs: seq<Gene>, ids: seq<string>, names: set<string>)
    requires ids != []
    ensures Touches(gs, ids, names) ==
      (Touches(gs, ids[..|ids| - 1], names) || Hits(gs, ids[|ids| - 1], names))
  {
    TouchesStepOld(gs, ids, names);
    TouchesStepNew(gs, ids, names);
  }

  lemma TouchesStepOld(gs: seq<Gene>, ids: seq<string>, names: set<string>)
    requires ids != []
    ensures Touches(gs, ids, names) ==> Touches(gs, ids[..|ids| - 1], names) || Hits(gs, ids[|ids| - 1], names)
  {
    var n := |ids| - 1;
    var pre := ids[..n];
    if Touches(gs, ids, names) {
      var i :| 0 <= i < |ids| && Hits(gs, ids[i], names);
      if i < n {
        assert pre[i] == ids[i];
        assert Touches(gs, pre, names);
      }
    }
  }

  lemma TouchesStepNew(gs: seq<Gene>, ids: seq<string>, names: set<string>)
    requires ids != []
    ensures Touches(gs, ids[..|ids| - 1], names) || Hits(gs, ids[|ids| - 1], names) ==> Touches(gs, ids, names)
  {
    var n := |ids| - 1;
    var pre := ids[..n];
    if Touches(gs, pre, names) {
      var i :| 0 <= i < n && Hits(gs, pre[i], names);
      assert ids[i] == pre[i];
    }
  }

  /** Whatever the rules, knocking out only ever closes reactions, and a reaction whose
      rule names none of the listed ids is left as it was. */
  lemma {:induction false} KnockOutOnlyCloses(gs: seq<Gene>, rs: seq<Reaction>, ids: seq<string>, ev: RuleEval, k: nat)
    requires k < |rs|
    ensures var r := KnockOut(gs, rs, ids, ev).1[k];
      r == rs[k] || r == Zeroed(rs[k])
    ensures (forall i :: 0 <= i < |ids| ==> ids[i] !in ev.names(rs[k].gpr)) ==> KnockOut(gs, rs, ids, ev).1[k] == rs[k]
    decreases |ids|
  {
    KnockOutGenesAgree(gs, rs, ids, ev);
    if ids != [] {
      var pre := ids[..|ids| - 1];
      KnockOutOnlyCloses(gs, rs, pre, ev, k);
      KnockOutGenesAgree(gs, rs, pre, ev);
    }
  }

  /** With rules that knocking out cannot revive, `knock_out_genes` closes exactly the
      reactions of the knocked-out genes whose rules fail with the genes now off, and
      leaves every other reaction as it was. */
  lemma {:induction false} KnockOutReactions(gs: seq<Gene>, rs: seq<Reaction>, ids: seq<string>, ev: RuleEval, k: nat)
    requires Monotone(ev) && k < |rs|
    ensures var r := KnockOut(gs, rs, ids, ev);
      var names := ev.names(rs[k].gpr);
      r.1[k] == if Touches(gs, ids, names) && !ev.holds(rs[k].gpr, OffIds(r.0) * names) then Zeroed(rs[k]) else rs[k]
    decreases |ids|
  {
    KnockOutGenesAgree(gs, rs, ids, ev);
    var names := ev.names(rs[k].gpr);
    if ids != [] {
      var n := |ids| - 1;
      var pre := ids[..n];
      var x := ids[n];
      KnockOutReactions(gs, rs, pre, ev, k);
      KnockOutOnlyCloses(gs, rs, pre, ev, k);
      KnockOutGenesAgree(gs, rs, pre, ev);
      TouchesStep(gs, ids, names);
      var prev := KnockOut(gs, rs, pre, ev);
      FindGeneSameIds(gs, prev.0, x);
      match FindGene(prev.0, x)
      case None =>
      case Some(j) =>
        OffIdsKnock(prev.0, j);
        var after := KnockOutGene(prev.0, prev.1, j, ev).0;
        if x in names && ev.holds(rs[k].gpr, OffIds(after) * names) {
          assert OffIds(prev.0) * names <= OffIds(after) * names;
        }
    }
  }

  /** `Gene.knock_out` on gene `j` of the model. */
  method KnockOutGeneAt(model: Model, j: nat, ev: RuleEval)
    requires j < |model.genes|
    modifies model`genes, model`reactions
    ensures (model.genes, model.reactions) == KnockOutGene(old(model.genes), old(model.reactions), j, ev)
  {
    ghost var spec := KnockOutGene(model.genes, model.reactions, j, ev);
    var id := model.genes[j].id;
    model.genes := model.genes[j := model.genes[j].(functional := false)];
    var k := 0;
    while k < |model.reactions|
      invariant 0 <= k <= |model.reactions| == |spec.1|
      invariant model.genes == spec.0
      invariant forall t :: 0 <= t < |model.reactions| ==>
        model.reactions[t] == if t < k then spec.1[t] else old(model.reactions)[t]
    {
      var rxn := model.reactions[k];
      if Shut(rxn, id, model.genes, ev) {
        model.reactions := model.reactions[k := Zeroed(rxn)];
      }
      k := k + 1;
    }
    assert model.reactions == spec.1;
  }

  /** One more listed id: the loop's state after it, from the state before it. */
  lemma KnockOutNext(gs: seq<Gene>, rs: seq<Reaction>, ids: seq<string>, i: nat, ev: RuleEval)
    requires i < |ids|
    ensures var prev := KnockOut(gs, rs, ids[..i], ev);
      KnockOut(gs, rs, ids[..i + 1], ev) ==
        match FindGene(prev.0, ids[i])
        case None => prev
        case Some(j) => KnockOutGene(prev.0, prev.1, j, ev)
  {
    assert ids[..i + 1][..i] == ids[..i];
  }

  /** The knock-out loop of `knock_out_genes`: every listed gene the model has is
      knocked out with its reactions, and the ids it does not have are collected. */
  method KnockOutIds(model: Model, ids: seq<string>, ev: RuleEval) returns (missing: seq<string>)
    modifies model`genes, model`reactions
    ensures missing == NotInModel(old(model.genes), ids)
    ensures model.genes == KnockedOut(old(model.genes), ids)
    ensures model.reactions == KnockOut(old(model.genes), old(model.reactions), ids, ev).1
  {
    ghost var gs, rs := model.genes, model.reactions;
    missing := [];
    var i := 0;
    while i < |ids|
      invariant 0 <= i <= |ids|
      invariant model.genes == KnockOut(gs, rs, ids[..i], ev).0
      invariant model.reactions == KnockOut(gs, rs, ids[..i], ev).1
      invariant missing == NotInModel(gs, ids[..i])
    {
      ghost var prev := KnockOut(gs, rs, ids[..i], ev);
      KnockOutNext(gs, rs, ids, i, ev);
      KnockOutGenesAgree(gs, rs, ids[..i], ev);
      FindGeneSameIds(gs, model.genes, ids[i]);
      assert ids[..i + 1][..i] == ids[..i];
      var found := FindGene(model.genes, ids[i]);
      if found.None? {
        missing := missing + [ids[i]];
      } else {
        KnockOutGeneAt(model, found.value, ev);
      }
      i := i + 1;
    }
    assert ids[..i] == ids;
    KnockOutGenesAgree(gs, rs, ids, ev);
  }

  /** `knock_out_genes`: expands the deletion field (an error leaves the model
      untouched), then knocks out every listed gene the model has, closing its reactions
      as `Gene.knock_out` does; the ids it does not have are returned, as the code
      reports them. */
  method KnockOutGenes(model: Model, d: DeletionField, geneMap: map<string, string>, ev: RuleEval)
    returns (r: Result<seq<string>, string>)
    modifies model`genes, model`reactions
    ensures ExpandAll(Segments(d), geneMap).Err? ==>
      r.Err? && model.genes == old(model.genes) && model.reactions == old(model.reactions)
    ensures ExpandAll(Segments(d), geneMap).Ok? ==>
      var ids := ExpandAll(Segments(d), geneMap).value;
      r == Ok(NotInModel(old(model.genes), ids)) && model.genes == KnockedOut(old(model.genes), ids) &&
      model.reactions == KnockOut(old(model.genes), old(model.reactions), ids, ev).1
  {
    var expanded := DeletedGeneIds(Segments(d), geneMap);
    if expanded.Err? {
      return Err(expanded.error);
    }
    var missing := KnockOutIds(model, expanded.value, ev);
    r := Ok(missing);
  }
}
