/*
  Building the basic curation table of iSG (steps/5_create_curation_table.py): the
  automatic water and proton balancing of each reaction, the one-element-list
  unwrapping of notes, and the reaction and metabolite update notes collected from
  the nomenclature tables.
*/
module CurationTable {
  import opened Common
  import opened Text
  import opened Cobra

  // ---------------------------------------------------------------- fix_mass_and_charge_balance

  /** The balance column of the table: "Exchange", or the imbalance left after the
      automatic fixes. */
  datatype Status = Exchange | Residual(mb: Vec)

  /** The old and new stoichiometry (standing for the two equation strings, which
      the library renders from them) and the balance column. */
  datatype Fix = Fix(before: Vec, after: Vec, status: Status)

  /** Residual entries below this magnitude are dropped. */
  const Tiny: real := 0.000000000001

  /** An oxygen imbalance outside DCW_TERM is treated by adding water. */
  predicate NeedsWater(ms: seq<Metabolite>, r: Reaction)
  {
    "O" in MassBalance(ms, r.stoich) && r.id != "DCW_TERM"
  }

  /** `add_metabolites({id: amount})` on the copy. */
  function AddOne(st: Vec, id: string, amount: real): Vec
  {
    AddMetabolites(st, map[id := amount])
  }

  /** The copy after the water step: -O units of h2o_c added. */
  function AfterWater(ms: seq<Metabolite>, r: Reaction): Vec
  {
    if NeedsWater(ms, r) then AddOne(r.stoich, "h2o_c", -MassBalance(ms, r.stoich)["O"])
    else r.stoich
  }

  /** An imbalance in exactly hydrogen and charge, by equal amounts. */
  predicate NeedsProtons(mb: Vec)
  {
    mb.Keys == {"charge", "H"} && mb["charge"] == mb["H"]
  }

  /** The copy after the proton step: -H units of h_c added. */
  function AfterProtons(ms: seq<Metabolite>, st: Vec): Vec
  {
    AddProtons(st, MassBalance(ms, st))
  }

  /** The copy after the proton step, given the copy's balance `mb`. */
  function AddProtons(st: Vec, mb: Vec): Vec
  {
    if NeedsProtons(mb) then AddOne(st, "h_c", -mb["H"]) else st
  }

  /** The balance with entries of magnitude below 1e-12 removed. */
  function DropTiny(mb: Vec): (r: Vec)
    ensures forall k :: k in r <==> k in mb && Abs(mb[k]) >= Tiny
    ensures forall k :: k in r ==> r[k] == mb[k]
  {
    map k | k in mb && Abs(mb[k]) >= Tiny :: mb[k]
  }

  /** `fix_mass_and_charge_balance`; the two `get_by_id` calls raise KeyError when the
      model has no h2o_c or no h_c. */
  function FixBalance(ms: seq<Metabolite>, r: Reaction): Result<Fix, string>
  {
    if StartsWith(r.id, "EX_") then Ok(Fix(r.stoich, r.stoich, Exchange))
    else if NeedsWater(ms, r) && FindMetabolite(ms, "h2o_c").None? then Err("h2o_c")
    else if NeedsProtons(MassBalance(ms, AfterWater(ms, r))) && FindMetabolite(ms, "h_c").None? then Err("h_c")
    else
      var st := AfterProtons(ms, AfterWater(ms, r));
      Ok(Fix(r.stoich, st, Residual(DropTiny(MassBalance(ms, st)))))
  }

  /** The steps of `fix_mass_and_charge_balance` on a copy of the reaction's
      stoichiometry; the reaction itself is a value and is never changed. */
  method FixMassAndChargeBalance(ms: seq<Metabolite>, r: Reaction) returns (res: Result<Fix, string>)
    ensures res == FixBalance(ms, r)
  {
    if StartsWith(r.id, "EX_") {
      return Ok(Fix(r.stoich, r.stoich, Exchange));
    }
    var water := WaterStep(ms, r);
    if water.Err? {
      return Err(water.error);
    }
    var protons := ProtonStep(water.value, MassBalance(ms, water.value), FindMetabolite(ms, "h_c").Some?);
    if protons.Err? {
      return Err(protons.error);
    }
    var residual := PopTiny(MassBalance(ms, protons.value));
    res := Ok(Fix(r.stoich, protons.value, Residual(residual)));
  }

  /** The water step on the copy: raises KeyError when h2o_c is needed and missing. */
  method WaterStep(ms: seq<Metabolite>, r: Reaction) returns (res: Result<Vec, string>)
    ensures res == if NeedsWater(ms, r) && FindMetabolite(ms, "h2o_c").None? then Err("h2o_c") else Ok(AfterWater(ms, r))
  {
    var mb := MassBalance(ms, r.stoich);
    var copy := r.stoich;
    if "O" in mb && r.id != "DCW_TERM" {
      if FindMetabolite(ms, "h2o_c").None? {
        return Err("h2o_c");
      }
      copy := AddOne(copy, "h2o_c", -mb["O"]);
    }
    res := Ok(copy);
  }

  /** The proton step on the copy `st` whose balance is `mb`, where `hasProton` says
      whether the model has h_c: raises KeyError when h_c is needed and missing, and
      otherwise changes only the h_c coefficient, by -H when protons are needed. */
  method ProtonStep(st: Vec, mb: Vec, hasProton: bool) returns (res: Result<Vec, string>)
    ensures res.Err? <==> NeedsProtons(mb) && !hasProton
    ensures res.Err? ==> res.error == "h_c"
    ensures res.Ok? ==> res.value == AddProtons(st, mb)
    ensures res.Ok? ==> forall k :: k != "h_c" ==> Get(res.value, k) == Get(st, k)
    ensures res.Ok? ==> Get(res.value, "h_c") == Get(st, "h_c") - (if NeedsProtons(mb) then mb["H"] else 0.0)
  {
    if !NeedsProtons(mb) {
      res := Ok(st);
    } else if !hasProton {
      res := Err("h_c");
    } else {
      res := Ok(AddOne(st, "h_c", -mb["H"]));
    }
  }

  /** The loop that pops every key whose value is below 1e-12 in magnitude. */
  method PopTiny(mb: Vec) returns (residual: Vec)
    ensures residual == DropTiny(mb)
  {
    residual := mb;
    var keys := mb.Keys;
    while keys != {}
      invariant keys <= mb.Keys
      invariant forall k :: k in residual <==> k in mb && (k in keys || Abs(mb[k]) >= Tiny)
      invariant forall k :: k in residual ==> residual[k] == mb[k]
      decreases keys
    {
      var k :| k in keys;
      if Abs(mb[k]) < Tiny {
        residual := residual - {k};
      }
      keys := keys - {k};
    }
  }

  /** The water step changes only the h2o_c coefficient, by -O when water is needed. */
  lemma AfterWaterCoefficients(ms: seq<Metabolite>, r: Reaction)
    ensures forall k :: k != "h2o_c" ==> Get(AfterWater(ms, r), k) == Get(r.stoich, k)
    ensures Get(AfterWater(ms, r), "h2o_c") == Get(r.stoich, "h2o_c") - (if NeedsWater(ms, r) then MassBalance(ms, r.stoich)["O"] else 0.0)
  {
  }

  /** The proton step changes only the h_c coefficient, by -H when the imbalance is
      exactly equal hydrogen and charge. */
  lemma AfterProtonsCoefficients(ms: seq<Metabolite>, st: Vec)
    ensures forall k :: k != "h_c" ==> Get(AfterProtons(ms, st), k) == Get(st, k)
    ensures Get(AfterProtons(ms, st), "h_c") == Get(st, "h_c") - (if NeedsProtons(MassBalance(ms, st)) then MassBalance(ms, st)["H"] else 0.0)
  {
  }

  /** A fix that succeeds on a reaction other than an exchange. */
  lemma FixBalanceResidual(ms: seq<Metabolite>, r: Reaction)
    requires FixBalance(ms, r).Ok? && !StartsWith(r.id, "EX_")
    ensures FixBalance(ms, r).value == Fix(r.stoich, AfterProtons(ms, AfterWater(ms, r)),
                                           Residual(DropTiny(MassBalance(ms, AfterProtons(ms, AfterWater(ms, r))))))
  {
  }

  /** What the fix does to the coefficients: an exchange is returned as it is; any
      other reaction keeps its old stoichiometry as the old equation, and the copy
      differs from it only in h2o_c (by -O when water is needed) and h_c (by -H when
      the remaining imbalance is exactly equal hydrogen and charge). Every residual
      entry is at least 1e-12 in magnitude. */
  lemma FixBalanceMeaning(ms: seq<Metabolite>, r: Reaction)
    requires FixBalance(ms, r).Ok?
    ensures var f := FixBalance(ms, r).value;
      && f.before == r.stoich
      && (f.status == Exchange <==> StartsWith(r.id, "EX_"))
      && (f.status == Exchange ==> f.after == r.stoich)
      && (forall k :: k != "h2o_c" && k != "h_c" ==> Get(f.after, k) == Get(r.stoich, k))
      && (f.status.Residual? ==>
            (&& Get(f.after, "h2o_c") == Get(r.stoich, "h2o_c") - (if NeedsWater(ms, r) then MassBalance(ms, r.stoich)["O"] else 0.0)
             && Get(f.after, "h_c") == Get(AfterWater(ms, r), "h_c") -
                  (if NeedsProtons(MassBalance(ms, AfterWater(ms, r))) then MassBalance(ms, AfterWater(ms, r))["H"] else 0.0)
             && forall k :: k in f.status.mb ==> Abs(f.status.mb[k]) >= Tiny))
  {
    if !StartsWith(r.id, "EX_") {
      FixBalanceResidual(ms, r);
      AfterWaterCoefficients(ms, r);
      AfterProtonsCoefficients(ms, AfterWater(ms, r));
    }
  }

  /** When the model has one h2o_c carrying one oxygen, the water step removes the
      oxygen imbalance. */
  lemma WaterRemovesOxygen(ms: seq<Metabolite>, r: Reaction, w: nat)
    requires w < |ms| && ms[w].id == "h2o_c" && Get(Composition(ms[w]), "O") == 1.0
    requires forall j :: 0 <= j < |ms| && j != w ==> ms[j].id != "h2o_c"
    requires NeedsWater(ms, r)
    ensures "O" !in MassBalance(ms, AfterWater(ms, r))
  {
    var mb := MassBalance(ms, r.stoich);
    var o := mb["O"];
    assert Balance(ms, r.stoich, "O") == o by {
      assert Get(mb, "O") == Balance(ms, r.stoich, "O");
    }
    var after := AfterWater(ms, r);
    AddOneBalance(ms, r.stoich, w, -o, "O");
    ScaledAmount(-o, Get(Composition(ms[w]), "O"), 1.0);
    assert Get(MassBalance(ms, after), "O") == Balance(ms, after, "O");
  }

  /** Adding `c` of the metabolite `ms[i]`, whose id no other metabolite has, moves
      the balance of `k` by `c` times the amount of `k` in its composition. */
  lemma AddOneBalance(ms: seq<Metabolite>, st: Vec, i: nat, c: real, k: string)
    requires i < |ms|
    requires forall j :: 0 <= j < |ms| && j != i ==> ms[j].id != ms[i].id
    ensures Balance(ms, AddOne(st, ms[i].id, c), k) == Balance(ms, st, k) + c * Get(Composition(ms[i]), k)
  {
    BalanceAdd(ms, st, map[ms[i].id := c], k);
    BalanceSingle(ms, i, c, k);
  }

  /** An imbalance in exactly hydrogen and charge has `mb["H"]` in both and 0 elsewhere. */
  lemma NeedsProtonsGet(mb: Vec, k: string)
    requires NeedsProtons(mb)
    ensures Get(mb, k) == if k == "H" || k == "charge" then mb["H"] else 0.0
  {
    if k != "H" && k != "charge" {
      assert k !in mb.Keys;
    }
  }

  /** Adding -h of an h_c that is one hydrogen with charge +1 to a reaction whose
      balance in `k` is h for H and charge and 0 otherwise leaves `k` at 0. */
  lemma ProtonsBalanceAt(ms: seq<Metabolite>, st: Vec, p: nat, k: string, h: real)
    requires p < |ms| && ms[p].id == "h_c"
    requires Get(Composition(ms[p]), k) == if k == "H" || k == "charge" then 1.0 else 0.0
    requires forall j :: 0 <= j < |ms| && j != p ==> ms[j].id != "h_c"
    requires Balance(ms, st, k) == if k == "H" || k == "charge" then h else 0.0
    ensures Balance(ms, AddOne(st, "h_c", -h), k) == 0.0
  {
    AddOneBalance(ms, st, p, -h, k);
    if k == "H" || k == "charge" {
      ScaledAmount(-h, Get(Composition(ms[p]), k), 1.0);
    } else {
      ScaledAmount(-h, Get(Composition(ms[p]), k), 0.0);
    }
  }

  /** When the model has one h_c made of one hydrogen with charge +1 and the
      reaction's imbalance is h in H and in charge and nothing else (what the proton
      step tests, see `NeedsProtonsGet`), adding -h of h_c leaves it balanced. */
  lemma ProtonsBalance(ms: seq<Metabolite>, st: Vec, p: nat, h: real)
    requires p < |ms| && ms[p].id == "h_c"
    requires Get(Composition(ms[p]), "H") == 1.0 && Get(Composition(ms[p]), "charge") == 1.0
    requires forall k :: k != "H" && k != "charge" ==> Get(Composition(ms[p]), k) == 0.0
    requires forall j :: 0 <= j < |ms| && j != p ==> ms[j].id != "h_c"
    requires forall k :: Balance(ms, st, k) == if k == "H" || k == "charge" then h else 0.0
    ensures MassBalance(ms, AddOne(st, "h_c", -h)) == map[]
  {
    var after := MassBalance(ms, AddOne(st, "h_c", -h));
    forall k ensures Get(after, k) == 0.0 {
      ProtonsBalanceAt(ms, st, p, k, h);
    }
    NoZerosExtensional(after, map[]);
  }

  // ---------------------------------------------------------------- clear_list_brackets

  /** `clear_list_brackets` on a note (or its absence): falsy values give None, a
      one-element list its element and a longer list itself. A string note is
      returned as it is (its one-character prefix, when it has one character, is the
      same string); a non-zero number has no `len` and raises TypeError. */
  function ClearListBrackets(x: Option<Note>): Result<Option<Note>, string>
  {
    match x
    case None => Ok(None)
    case Some(Items(xs)) => Ok(if xs == [] then None else if |xs| > 1 then Some(Items(xs)) else Some(xs[0]))
    case Some(Str(s)) => Ok(if s == "" then None else Some(Str(s)))
    case Some(Int(n)) => if n == 0 then Ok(None) else Err("TypeError")
    case Some(Num(v)) => if v == 0.0 then Ok(None) else Err("TypeError")
  }

  /** Putting the brackets back: a list stays a list, anything else becomes a
      one-element list. */
  function Relist(x: Option<Note>): seq<Note>
  {
    match x
    case None => []
    case Some(Items(xs)) => xs
    case Some(n) => [n]
  }

  /** On a list whose elements are not themselves lists, unwrapping loses nothing:
      the brackets can be put back. */
  lemma ClearListBracketsRelist(xs: seq<Note>)
    requires forall j :: 0 <= j < |xs| ==> !xs[j].Items?
    ensures ClearListBrackets(Some(Items(xs))).Ok?
    ensures Relist(ClearListBrackets(Some(Items(xs))).value) == xs
    ensures |xs| == 1 ==> ClearListBrackets(Some(Items(xs))).value == Some(xs[0])
  {
    if |xs| == 1 {
      assert xs == [xs[0]];
    }
  }

  // ---------------------------------------------------------------- update notes

  /** A row of `reaction_nomenclature-curated.csv`, as far as the notes use it. */
  datatype ReviewRow = ReviewRow(isgId: string, review: string)

  /** The reaction update notes: each non-empty review under its iSG id, later rows
      overwriting earlier ones. */
  function ReviewNotes(rows: seq<ReviewRow>): map<string, string>
  {
    if rows == [] then map[]
    else
      var row := rows[|rows| - 1];
      if row.review != "" then ReviewNotes(rows[..|rows| - 1])[row.isgId := row.review]
      else ReviewNotes(rows[..|rows| - 1])
  }

  method GetReactionUpdateNotes(rows: seq<ReviewRow>) returns (notes: map<string, string>)
    ensures notes == ReviewNotes(rows)
  {
    notes := map[];
    var i := 0;
    while i < |rows|
      invariant 0 <= i <= |rows|
      invariant notes == ReviewNotes(rows[..i])
    {
      assert rows[..i + 1][..i] == rows[..i];
      if rows[i].review != "" {
        notes := notes[rows[i].isgId := rows[i].review];
      }
      i := i + 1;
    }
    assert rows[..i] == rows;
  }

  /** An id has a note exactly when some row for it has a non-empty review, and the
      note is the review of the last such row. */
  lemma {:induction false} ReviewNotesMeaning(rows: seq<ReviewRow>, id: string, i: nat)
    ensures id in ReviewNotes(rows) <==> exists j :: 0 <= j < |rows| && rows[j].isgId == id && rows[j].review != ""
    ensures i < |rows| && rows[i].isgId == id && rows[i].review != "" &&
      (forall j :: i < j < |rows| ==> rows[j].isgId != id || rows[j].review == "")
      ==> id in ReviewNotes(rows) && ReviewNotes(rows)[id] == rows[i].review
  {
    if rows != [] {
      var init := rows[..|rows| - 1];
      ReviewNotesMeaning(init, id, i);
      assert forall j :: 0 <= j < |init| ==> init[j] == rows[j];
    }
  }

  /** A row of the metabolite nomenclature table, as far as the notes use it. */
  datatype MetNoteRow = MetNoteRow(isgId: string, notes: string)

  function NoteText(id: string, note: string): string
  {
    "MET_ID:" + id + ", NOTE: " + note
  }

  /** The ids of the reactions a metabolite takes part in (`met.reactions`). */
  function ReactionsOf(rs: seq<Reaction>, metId: string): set<string>
  {
    set j | 0 <= j < |rs| && metId in rs[j].stoich :: rs[j].id
  }

  /** `setdefault(id, []).append(text)` for every id of a set. */
  function AppendAll(d: map<string, seq<string>>, ids: set<string>, text: string): map<string, seq<string>>
  {
    map k | k in d.Keys + ids :: if k in ids then (if k in d then d[k] else []) + [text] else d[k]
  }

  /** Whether a row contributes a note: a non-empty note on a metabolite of the model
      (an unknown metabolite raises KeyError, which is caught). */
  predicate Contributes(ms: seq<Metabolite>, row: MetNoteRow)
  {
    row.notes != "" && FindMetabolite(ms, row.isgId).Some?
  }

  /** The metabolite update notes after the rows are read in order. */
  function MetNotes(ms: seq<Metabolite>, rs: seq<Reaction>, rows: seq<MetNoteRow>): map<string, seq<string>>
  {
    if rows == [] then map[]
    else
      var prev := MetNotes(ms, rs, rows[..|rows| - 1]);
      var row := rows[|rows| - 1];
      if Contributes(ms, row) then AppendAll(prev, ReactionsOf(rs, row.isgId), NoteText(row.isgId, row.notes))
      else prev
  }

  method GetMetaboliteUpdateNotes(model: Model, rows: seq<MetNoteRow>) returns (notes: map<string, seq<string>>)
    ensures notes == MetNotes(model.metabolites, model.reactions, rows)
  {
    var ms := model.metabolites;
    var rs := model.reactions;
    notes := map[];
    var i := 0;
    while i < |rows|
      invariant 0 <= i <= |rows|
      invariant notes == MetNotes(ms, rs, rows[..i])
    {
      MetNotesStep(ms, rs, rows, i);
      var row := rows[i];
      if row.notes != "" && FindMetabolite(ms, row.isgId).Some? {
        notes := AppendToAll(notes, ReactionsOf(rs, row.isgId), NoteText(row.isgId, row.notes));
      }
      i := i + 1;
    }
    assert rows[..i] == rows;
  }

  /** One more row of the notes table. */
  lemma MetNotesStep(ms: seq<Metabolite>, rs: seq<Reaction>, rows: seq<MetNoteRow>, i: nat)
    requires i < |rows|
    ensures MetNotes(ms, rs, rows[..i + 1]) ==
      if Contributes(ms, rows[i]) then AppendAll(MetNotes(ms, rs, rows[..i]), ReactionsOf(rs, rows[i].isgId), NoteText(rows[i].isgId, rows[i].notes))
      else MetNotes(ms, rs, rows[..i])
  {
    assert rows[..i + 1][..i] == rows[..i];
  }

  /** The inner loop: the note appended to the list of every reaction of the set. */
  method AppendToAll(d: map<string, seq<string>>, ids: set<string>, text: string) returns (notes: map<string, seq<string>>)
    ensures notes == AppendAll(d, ids, text)
  {
    notes := d;
    var todo := ids;
    AppendAllNone(d, text);
    while todo != {}
      invariant todo <= ids
      invariant notes == AppendAll(d, ids - todo, text)
      decreases todo
    {
      var rid :| rid in todo;
      AppendAllStep(d, ids - todo, rid, text);
      notes := notes[rid := (if rid in notes then notes[rid] else []) + [text]];
      todo := todo - {rid};
      assert ids - todo == (ids - (todo + {rid})) + {rid};
    }
    assert ids - todo == ids;
  }

  /** Appending to no reaction changes nothing. */
  lemma AppendAllNone(d: map<string, seq<string>>, text: string)
    ensures AppendAll(d, {}, text) == d
  {
  }

  /** Appending to one more reaction. */
  lemma AppendAllStep(d: map<string, seq<string>>, done: set<string>, rid: string, text: string)
    requires rid !in done
    ensures AppendAll(d, done + {rid}, text) ==
      AppendAll(d, done, text)[rid := (if rid in AppendAll(d, done, text) then AppendAll(d, done, text)[rid] else []) + [text]]
  {
  }

  /** The reference: the notes a reaction should get, in row order. */
  function NotesFor(ms: seq<Metabolite>, rs: seq<Reaction>, rows: seq<MetNoteRow>, rid: string): seq<string>
  {
    if rows == [] then []
    else
      var row := rows[|rows| - 1];
      NotesFor(ms, rs, rows[..|rows| - 1], rid) +
        if Contributes(ms, row) && rid in ReactionsOf(rs, row.isgId) then [NoteText(row.isgId, row.notes)] else []
  }

  /** Each non-empty note of a known metabolite is appended, in row order, to every
      reaction of that metabolite, and a reaction has an entry exactly when it gets
      at least one note. */
  lemma {:induction false} MetNotesMeaning(ms: seq<Metabolite>, rs: seq<Reaction>, rows: seq<MetNoteRow>, rid: string)
    ensures rid in MetNotes(ms, rs, rows) <==> NotesFor(ms, rs, rows, rid) != []
    ensures rid in MetNotes(ms, rs, rows) ==> MetNotes(ms, rs, rows)[rid] == NotesFor(ms, rs, rows, rid)
  {
    if rows != [] {
      MetNotesMeaning(ms, rs, rows[..|rows| - 1], rid);
    }
  }
}
