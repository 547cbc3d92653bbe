/*
  Repair of the bounds of the draft model exported from KBase
  (iCBI/1_fix_kbase_bounds.py): the reaction sheet is copied onto the model,
  irreversible reactions written backwards are turned around, and the exchange
  bounds, which KBase states from the compound's point of view, are negated and
  swapped.
*/
module KBaseBounds {
  import opened Common
  import opened Text
  import opened Cobra
  import opened ConfModel

  /** A row of the 'ModelReactions' or 'ModelCompounds' sheet. */
  datatype SheetRow = SheetRow(id: string, lowerbound: real, upperbound: real)

  // ---------------------------------------------------------------- reactions

  /** The model's id for a sheet id: every '-' becomes '_'. */
  function ModelId(sheetId: string): string
  {
    ReplaceAll(sheetId, "-", "_")
  }

  lemma ModelIdHasNoDash(sheetId: string)
    ensures '-' !in ModelId(sheetId)
  {
    ReplaceRemoves(sheetId, '-', "_");
  }

  /** The bounds a sheet row gives its reaction: an irreversible reaction written
      in the opposite direction, (-1000, 0), is stored forwards. */
  function Repaired(lo: real, hi: real): (real, real)
  {
    if lo == -1000.0 && hi == 0.0 then (hi, -lo) else (lo, hi)
  }

  /** Only the reversed irreversible bounds change, and they become (0, 1000);
      repairing twice is repairing once, and ordered bounds stay ordered. */
  lemma RepairedBounds(lo: real, hi: real)
    ensures lo == -1000.0 && hi == 0.0 ==> Repaired(lo, hi) == (0.0, 1000.0)
    ensures !(lo == -1000.0 && hi == 0.0) ==> Repaired(lo, hi) == (lo, hi)
    ensures var (l, h) := Repaired(lo, hi); Repaired(l, h) == (l, h)
    ensures lo <= hi ==> Repaired(lo, hi).0 <= Repaired(lo, hi).1
  {
  }

  /** The assignments the first loop makes, in row order. */
  function ReactionEdits(rows: seq<SheetRow>): (es: seq<(string, BoundEdit)>)
    ensures |es| == |rows|
    ensures forall i :: 0 <= i < |rows| ==>
      es[i] == (ModelId(rows[i].id), SetBoth(Repaired(rows[i].lowerbound, rows[i].upperbound).0,
                                             Repaired(rows[i].lowerbound, rows[i].upperbound).1))
  {
    if rows == [] then []
    else
      var (lo, hi) := Repaired(rows[0].lowerbound, rows[0].upperbound);
      [(ModelId(rows[0].id), SetBoth(lo, hi))] + ReactionEdits(rows[1..])
  }

  /** The first loop: each row's reaction is looked up by its model id and given the
      repaired bounds; an id missing from the model stops the script with a KeyError. */
  method FixReactionBounds(model: Model, rows: seq<SheetRow>) returns (err: Option<string>)
    modifies model`reactions
    ensures (model.reactions, err) == ApplyEdits(old(model.reactions), ReactionEdits(rows))
  {
    var i := 0;
    while i < |rows|
      invariant 0 <= i <= |rows|
      invariant ApplyEdits(model.reactions, ReactionEdits(rows[i..])) == ApplyEdits(old(model.reactions), ReactionEdits(rows))
    {
      assert rows[i..][1..] == rows[i + 1..];
      var row := rows[i];
      var goodId := ReplaceAll(row.id, "-", "_");
      var found := FindReaction(model.reactions, goodId);
      if found.None? {
        return Some(goodId);
      }
      var rxn := model.reactions[found.value];
      if row.lowerbound == -1000.0 && row.upperbound == 0.0 {
        rxn := rxn.(lb := row.upperbound, ub := -row.lowerbound);
      } else {
        rxn := rxn.(lb := row.lowerbound, ub := row.upperbound);
      }
      model.reactions := model.reactions[found.value := rxn];
      i := i + 1;
    }
    assert rows[i..] == [];
    err := None;
  }

  /** The last row whose model id is reaction `k`. */
  function LastReactionRow(rs: seq<Reaction>, rows: seq<SheetRow>, k: nat): (r: Option<SheetRow>)
    ensures r.Some? ==> r.value in rows && FindReaction(rs, ModelId(r.value.id)) == Some(k)
  {
    if rows == [] then None
    else match LastReactionRow(rs, rows[1..], k)
      case Some(row) => Some(row)
      case None => if FindReaction(rs, ModelId(rows[0].id)) == Some(k) then Some(rows[0]) else None
  }

  lemma {:induction false} LastReactionRowSameIds(rs: seq<Reaction>, rs': seq<Reaction>, rows: seq<SheetRow>, k: nat)
    requires |rs| == |rs'| && forall j :: 0 <= j < |rs| ==> rs[j].id == rs'[j].id
    ensures LastReactionRow(rs, rows, k) == LastReactionRow(rs', rows, k)
    decreases |rows|
  {
    if rows != [] {
      FindReactionSameIds(rs, rs', ModelId(rows[0].id));
      LastReactionRowSameIds(rs, rs', rows[1..], k);
    }
  }

  /** The bounds reaction `r` is left with by `row`, or `r` itself. */
  function RepairedBy(r: Reaction, row: Option<SheetRow>): Reaction
  {
    match row
    case None => r
    case Some(x) => r.(lb := Repaired(x.lowerbound, x.upperbound).0, ub := Repaired(x.lowerbound, x.upperbound).1)
  }

  /** After the first loop runs through, a reaction that some row names carries the
      repaired bounds of the last such row; any other reaction is unchanged. */
  lemma {:induction false} ReactionBoundsAt(rs: seq<Reaction>, rows: seq<SheetRow>, k: nat)
    requires k < |rs|
    requires ApplyEdits(rs, ReactionEdits(rows)).1.None?
    ensures ApplyEdits(rs, ReactionEdits(rows)).0[k] == RepairedBy(rs[k], LastReactionRow(rs, rows, k))
    decreases |rows|
  {
    if rows != [] {
      var j := FindReaction(rs, ModelId(rows[0].id)).value;
      var (lo, hi) := Repaired(rows[0].lowerbound, rows[0].upperbound);
      var rs1 := rs[j := ApplyEdit(rs[j], SetBoth(lo, hi))];
      assert ReactionEdits(rows)[1..] == ReactionEdits(rows[1..]);
      ReactionBoundsAt(rs1, rows[1..], k);
      LastReactionRowSameIds(rs, rs1, rows[1..], k);
    }
  }

  /** The KeyError names the model id of the first row whose reaction is missing. */
  lemma FixReactionBoundsError(rs: seq<Reaction>, rows: seq<SheetRow>)
    ensures var n := FirstMissing(rs, ReactionEdits(rows));
      ApplyEdits(rs, ReactionEdits(rows)).1 == if n < |rows| then Some(ModelId(rows[n].id)) else None
  {
    ApplyEditsError(rs, ReactionEdits(rows));
  }

  // ---------------------------------------------------------------- exchanges

  /** Negate and swap: the compound's bounds (lb, ub) give the exchange (-ub, -lb). */
  function NegateSwap(lo: real, hi: real): (real, real)
  {
    (-hi, -lo)
  }

  /** Negating and swapping keeps ordered bounds ordered and undoes itself. */
  lemma NegateSwapProperties(lo: real, hi: real)
    ensures lo <= hi ==> NegateSwap(lo, hi).0 <= NegateSwap(lo, hi).1
    ensures var (l, h) := NegateSwap(lo, hi); NegateSwap(l, h) == (lo, hi)
  {
  }

  /** The reversed irreversible row of the reaction sheet is turned around exactly as
      an exchange row would be. */
  lemma RepairedIsNegateSwap()
    ensures Repaired(-1000.0, 0.0) == NegateSwap(-1000.0, 0.0)
  {
  }

  function ExchangeId(row: SheetRow): string
  {
    "EX_" + row.id
  }

  /** The second loop: a row whose exchange exists sets its bounds to the row's
      bounds negated and swapped; the others are reported, in order, and change
      nothing. */
  function ExchangeEffect(rs: seq<Reaction>, rows: seq<SheetRow>): (r: (seq<Reaction>, seq<string>))
    ensures |r.0| == |rs|
    decreases |rows|
  {
    if rows == [] then (rs, [])
    else
      match FindReaction(rs, ExchangeId(rows[0]))
      case None =>
        var (rs', missing) := ExchangeEffect(rs, rows[1..]);
        (rs', [ExchangeId(rows[0])] + missing)
      case Some(j) => ExchangeEffect(rs[j := Negated(rs[j], rows[0])], rows[1..])
  }

  /** Reaction `r` with the bounds of exchange row `row`. */
  function Negated(r: Reaction, row: SheetRow): Reaction
  {
    r.(lb := NegateSwap(row.lowerbound, row.upperbound).0, ub := NegateSwap(row.lowerbound, row.upperbound).1)
  }

  /** One row of the second loop whose exchange is reaction `j`: that reaction
      changes. */
  lemma ExchangeStepFound(rs: seq<Reaction>, rows: seq<SheetRow>, i: nat, j: nat, r: Reaction)
    requires i < |rows| && FindReaction(rs, ExchangeId(rows[i])) == Some(j) && r == Negated(rs[j], rows[i])
    ensures ExchangeEffect(rs, rows[i..]) == ExchangeEffect(rs[j := r], rows[i + 1..])
  {
    assert rows[i..][1..] == rows[i + 1..];
  }

  /** One row of the second loop whose exchange is missing: the report grows. */
  lemma ExchangeStepMissing(rs: seq<Reaction>, rows: seq<SheetRow>, i: nat, missing: seq<string>)
    requires i < |rows| && FindReaction(rs, ExchangeId(rows[i])).None?
    ensures ExchangeEffect(rs, rows[i..]).0 == ExchangeEffect(rs, rows[i + 1..]).0
    ensures missing + ExchangeEffect(rs, rows[i..]).1 == (missing + [ExchangeId(rows[i])]) + ExchangeEffect(rs, rows[i + 1..]).1
  {
    assert rows[i..][1..] == rows[i + 1..];
  }

  method FixExchangeBounds(model: Model, rows: seq<SheetRow>) returns (missing: seq<string>)
    modifies model`reactions
    ensures (model.reactions, missing) == ExchangeEffect(old(model.reactions), rows)
  {
    ghost var final := ExchangeEffect(model.reactions, rows);
    missing := [];
    var i := 0;
    assert rows[0..] == rows;
    assert [] + final.1 == final.1;
    while i < |rows|
      invariant 0 <= i <= |rows|
      invariant ExchangeEffect(model.reactions, rows[i..]).0 == final.0
      invariant missing + ExchangeEffect(model.reactions, rows[i..]).1 == final.1
    {
      var row := rows[i];
      var rxnId := "EX_" + row.id;
      assert rxnId == ExchangeId(rows[i]);
      var found := FindReaction(model.reactions, rxnId);
      if found.Some? {
        var rxn := model.reactions[found.value];
        rxn := rxn.(lb := -row.upperbound, ub := -row.lowerbound);
        ExchangeStepFound(model.reactions, rows, i, found.value, rxn);
        model.reactions := model.reactions[found.value := rxn];
      } else {
        ExchangeStepMissing(model.reactions, rows, i, missing);
        missing := missing + [rxnId];
      }
      i := i + 1;
    }
    assert rows[i..] == [];
    assert missing + [] == missing;
  }

  /** The exchange ids of the rows whose exchange is not in the model. */
  function MissingExchanges(rs: seq<Reaction>, rows: seq<SheetRow>): (r: seq<string>)
    ensures forall x :: x in r <==> exists row :: row in rows && x == ExchangeId(row) && FindReaction(rs, x).None?
  {
    if rows == [] then []
    else
      (if FindReaction(rs, ExchangeId(rows[0])).None? then [ExchangeId(rows[0])] else []) +
      MissingExchanges(rs, rows[1..])
  }

  /** The report lists exactly the missing exchanges, whatever the flips before. */
  lemma {:induction false} ExchangeReport(rs: seq<Reaction>, rows: seq<SheetRow>)
    ensures ExchangeEffect(rs, rows).1 == MissingExchanges(rs, rows)
    decreases |rows|
  {
    if rows != [] {
      match FindReaction(rs, ExchangeId(rows[0]))
      case None => ExchangeReport(rs, rows[1..]);
      case Some(j) =>
        var rs1 := rs[j := Negated(rs[j], rows[0])];
        ExchangeReport(rs1, rows[1..]);
        MissingSameIds(rs, rs1, rows[1..]);
    }
  }

  lemma {:induction false} MissingSameIds(rs: seq<Reaction>, rs': seq<Reaction>, rows: seq<SheetRow>)
    requires |rs| == |rs'| && forall j :: 0 <= j < |rs| ==> rs[j].id == rs'[j].id
    ensures MissingExchanges(rs, rows) == MissingExchanges(rs', rows)
    ensures forall k :: LastHit(rs, rows, k) == LastHit(rs', rows, k)
    decreases |rows|
  {
    if rows != [] {
      FindReactionSameIds(rs, rs', ExchangeId(rows[0]));
      MissingSameIds(rs, rs', rows[1..]);
    }
  }

  /** The last row whose exchange is reaction `k`. */
  function LastHit(rs: seq<Reaction>, rows: seq<SheetRow>, k: nat): (r: Option<SheetRow>)
    ensures r.Some? ==> r.value in rows && FindReaction(rs, ExchangeId(r.value)) == Some(k)
  {
    if rows == [] then None
    else match LastHit(rs, rows[1..], k)
      case Some(row) => Some(row)
      case None => if FindReaction(rs, ExchangeId(rows[0])) == Some(k) then Some(rows[0]) else None
  }

  /** The bounds reaction `r` is left with by exchange row `row`, or `r` itself. */
  function NegatedBy(r: Reaction, row: Option<SheetRow>): Reaction
  {
    match row
    case None => r
    case Some(x) => Negated(r, x)
  }

  /** What the second loop leaves in reaction `k`: the negated and swapped bounds of
      the last row naming its exchange, or the reaction as it was. */
  lemma {:induction false} ExchangeAt(rs: seq<Reaction>, rows: seq<SheetRow>, k: nat)
    requires k < |rs|
    ensures ExchangeEffect(rs, rows).0[k] == NegatedBy(rs[k], LastHit(rs, rows, k))
    decreases |rows|
  {
    if rows != [] {
      match FindReaction(rs, ExchangeId(rows[0]))
      case None => ExchangeAt(rs, rows[1..], k);
      case Some(j) =>
        var rs1 := rs[j := Negated(rs[j], rows[0])];
        ExchangeAt(rs1, rows[1..], k);
        MissingSameIds(rs, rs1, rows[1..]);
    }
  }
}
