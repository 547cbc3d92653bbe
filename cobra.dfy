/** The metabolic-model objects the scripts manipulate through the cobra library:
    reactions with bounds and stoichiometry, metabolites with a chemical formula and a
    charge, genes, and the model holding them in order. Only the parts the scripts
    read or write are represented. The library's mass-balance check is DEFINED here as
    the sum, over the model's metabolites taking part in a reaction, of coefficient
    times elemental composition (plus charge), with zero totals dropped. */
module Cobra {
  import opened Common
  import opened Text

  /** A sparse vector keyed by metabolite or element name; absent keys read as 0. */
  type Vec = map<string, real>

  /** A value stored in a notes or annotation dictionary: a string, a Python int, a
      Python float or a list. */
  datatype Note = Str(s: string) | Int(n: int) | Num(x: real) | Items(items: seq<Note>)

  datatype Reaction = Reaction(
    id: string,
    name: string,
    stoich: Vec,            // metabolite id -> coefficient; negative for reactants
    lb: real,
    ub: real,
    gpr: string,            // gene_reaction_rule
    subsystem: string,
    notes: map<string, Note>,
    annotation: map<string, Note>)

  datatype Metabolite = Metabolite(
    id: string,
    name: string,
    formula: string,
    charge: Option<real>,   // None for a missing (None or NaN) charge
    compartment: string,
    notes: map<string, Note>,
    annotation: map<string, Note>)

  datatype Gene = Gene(
    id: string,
    name: string,
    functional: bool,
    annotation: map<string, Note>,
    attrs: map<string, string>)   // attributes set on the object outside cobra's own fields

  /** A cobra model: its reactions, metabolites and genes in DictList order, and the
      id of the objective reaction. */
  class Model {
    var reactions: seq<Reaction>
    var metabolites: seq<Metabolite>
    var genes: seq<Gene>
    var objective: string

    constructor(rs: seq<Reaction>, ms: seq<Metabolite>, gs: seq<Gene>, obj: string)
      ensures reactions == rs && metabolites == ms && genes == gs && objective == obj
    {
      reactions, metabolites, genes, objective := rs, ms, gs, obj;
    }
  }

  // ---------------------------------------------------------------- lookups

  /** Index of the first reaction with this id (`get_by_id`), None for a KeyError. */
  function FindReaction(rs: seq<Reaction>, id: string): (r: Option<nat>)
    ensures r.Some? ==> r.value < |rs| && rs[r.value].id == id
    ensures r.Some? ==> forall j :: 0 <= j < r.value ==> rs[j].id != id
    ensures r.None? <==> forall j :: 0 <= j < |rs| ==> rs[j].id != id
  {
    if rs == [] then None
    else if rs[0].id == id then Some(0)
    else match FindReaction(rs[1..], id)
      case None => None
      case Some(i) => Some(i + 1)
  }

  function FindMetabolite(ms: seq<Metabolite>, id: string): (r: Option<nat>)
    ensures r.Some? ==> r.value < |ms| && ms[r.value].id == id
    ensures r.Some? ==> forall j :: 0 <= j < r.value ==> ms[j].id != id
    ensures r.None? <==> forall j :: 0 <= j < |ms| ==> ms[j].id != id
  {
    if ms == [] then None
    else if ms[0].id == id then Some(0)
    else match FindMetabolite(ms[1..], id)
      case None => None
      case Some(i) => Some(i + 1)
  }

  function FindGene(gs: seq<Gene>, id: string): (r: Option<nat>)
    ensures r.Some? ==> r.value < |gs| && gs[r.value].id == id
    ensures r.Some? ==> forall j :: 0 <= j < r.value ==> gs[j].id != id
    ensures r.None? <==> forall j :: 0 <= j < |gs| ==> gs[j].id != id
  {
    if gs == [] then None
    else if gs[0].id == id then Some(0)
    else match FindGene(gs[1..], id)
      case None => None
      case Some(i) => Some(i + 1)
  }

  /** Looking a reaction up is unaffected by edits that keep every id. */
  lemma {:induction false} FindReactionSameIds(rs: seq<Reaction>, rs': seq<Reaction>, id: string)
    requires |rs| == |rs'| && forall j :: 0 <= j < |rs| ==> rs[j].id == rs'[j].id
    ensures FindReaction(rs, id) == FindReaction(rs', id)
  {
    if rs != [] {
      FindReactionSameIds(rs[1..], rs'[1..], id);
    }
  }

  /** Looking a gene up is unaffected by edits that keep every id. */
  lemma {:induction false} FindGeneSameIds(gs: seq<Gene>, gs': seq<Gene>, id: string)
    requires |gs| == |gs'| && forall j :: 0 <= j < |gs| ==> gs[j].id == gs'[j].id
    ensures FindGene(gs, id) == FindGene(gs', id)
  {
    if gs != [] {
      FindGeneSameIds(gs[1..], gs'[1..], id);
    }
  }

  /** Looking a metabolite up is unaffected by edits that keep every id. */
  lemma {:induction false} FindMetaboliteSameIds(ms: seq<Metabolite>, ms': seq<Metabolite>, id: string)
    requires |ms| == |ms'| && forall j :: 0 <= j < |ms| ==> ms[j].id == ms'[j].id
    ensures FindMetabolite(ms, id) == FindMetabolite(ms', id)
  {
    if ms != [] {
      FindMetaboliteSameIds(ms[1..], ms'[1..], id);
    }
  }

  // ---------------------------------------------------------------- vectors

  /** A coefficient times an amount known to be `a`. */
  lemma ScaledAmount(c: real, x: real, a: real)
    requires x == a
    ensures c * x == c * a
  {
  }

  /** Python's `abs` on a float. */
  function Abs(x: real): real { if x < 0.0 then -x else x }

  function Get(v: Vec, k: string): real
  {
    if k in v then v[k] else 0.0
  }

  function AddVec(a: Vec, b: Vec): (r: Vec)
    ensures r.Keys == a.Keys + b.Keys
    ensures forall k :: Get(r, k) == Get(a, k) + Get(b, k)
  {
    map k | k in a.Keys + b.Keys :: Get(a, k) + Get(b, k)
  }

  function Scale(c: real, a: Vec): (r: Vec)
    ensures r.Keys == a.Keys
    ensures forall k :: Get(r, k) == c * Get(a, k)
  {
    map k | k in a :: c * a[k]
  }

  /** The entries with a non-zero value. */
  function Prune(a: Vec): (r: Vec)
    ensures forall k :: Get(r, k) == Get(a, k)
    ensures forall k :: k in r <==> k in a && a[k] != 0.0
  {
    map k | k in a && a[k] != 0.0 :: a[k]
  }

  ghost predicate NoZeros(v: Vec)
  {
    forall k :: k in v ==> v[k] != 0.0
  }

  /** Two zero-free vectors that agree on every key are equal. */
  lemma NoZerosExtensional(a: Vec, b: Vec)
    requires NoZeros(a) && NoZeros(b)
    requires forall k :: Get(a, k) == Get(b, k)
    ensures a == b
  {
    forall k ensures k in a <==> k in b {
      assert Get(a, k) == Get(b, k);
    }
    assert a.Keys == b.Keys;
    forall k | k in a ensures a[k] == b[k] {
      assert Get(a, k) == Get(b, k);
    }
  }

  /** cobra's `Reaction.add_metabolites(d)` (combine=True): coefficients are added,
      and metabolites whose coefficient becomes 0 leave the reaction. */
  function AddMetabolites(st: Vec, d: Vec): (r: Vec)
    ensures NoZeros(r)
    ensures forall k :: Get(r, k) == Get(st, k) + Get(d, k)
    ensures forall k :: k in r ==> k in st || k in d
  {
    Prune(AddVec(st, d))
  }

  /** cobra's `Reaction.subtract_metabolites(d)`. */
  function SubtractMetabolites(st: Vec, d: Vec): (r: Vec)
    ensures NoZeros(r)
    ensures forall k :: Get(r, k) == Get(st, k) - Get(d, k)
  {
    AddMetabolites(st, Scale(-1.0, d))
  }

  /** Subtracting every metabolite of a reaction empties it. */
  lemma SubtractAllEmpties(st: Vec)
    ensures SubtractMetabolites(st, st) == map[]
  {
    var r := SubtractMetabolites(st, st);
    forall k ensures k !in r {
      assert Get(r, k) == 0.0;
    }
  }

  // ---------------------------------------------------------------- formulas

  predicate IsUpper(c: char) { 'A' <= c <= 'Z' }
  predicate IsLower(c: char) { 'a' <= c <= 'z' }

  /** The longest prefix made of decimal digits. */
  function DigitPrefix(s: string): (r: string)
    ensures r <= s && AllDigits(r)
    ensures |r| < |s| ==> !IsDigit(s[|r|])
  {
    if s != [] && IsDigit(s[0]) then [s[0]] + DigitPrefix(s[1..]) else ""
  }

  predicate IsCountChar(c: char) { IsDigit(c) || c == '.' }

  /** The longest prefix made of digits and dots: the count cobra's element pattern
      reads after an element symbol. */
  function CountRun(s: string): (r: string)
    ensures r <= s && forall i :: 0 <= i < |r| ==> IsCountChar(r[i])
    ensures |r| < |s| ==> !IsCountChar(s[|r|])
  {
    if s != [] && IsCountChar(s[0]) then [s[0]] + CountRun(s[1..]) else ""
  }

  /** `float()` of a count: an integer part, a '.', and a fraction, either part
      possibly empty but not both; a run without a '.' is an integer; a run with no
      digit or with two dots raises ValueError (None). */
  function FloatOfCount(run: string): (r: Option<real>)
    requires forall i :: 0 <= i < |run| ==> IsCountChar(run[i])
    ensures AllDigits(run) && run != [] ==> r == Some(DigitsValue(run) as real)
    ensures r.Some? ==> r.value >= 0.0
  {
    var ip := DigitPrefix(run);
    var rest := run[|ip|..];
    if rest == [] then
      assert run == ip;
      if ip == [] then None else Some(DigitsValue(ip) as real)
    else
      assert !IsDigit(run[|ip|]);
      var frac := rest[1..];
      if !AllDigits(frac) || (ip == [] && frac == []) then None
      else Some(DigitsValue(ip) as real + FracValue(frac))
  }

  /** The value of the digits after a decimal point: "5" is 0.5, "25" is 0.25. */
  function FracValue(s: string): (r: real)
    requires AllDigits(s)
    ensures 0.0 <= r < 1.0
  {
    if s == [] then 0.0 else ((s[0] as int - '0' as int) as real + FracValue(s[1..])) / 10.0
  }

  /** A count with a non-zero digit after the point is not a whole number, so it
      is never equal to its floor. */
  lemma DecimalNotWhole(a: string, b: string, i: nat)
    requires AllDigits(a) && AllDigits(b) && i < |b| && b[i] != '0'
    ensures (DigitsValue(a) as real + FracValue(b)).Floor == DigitsValue(a)
    ensures (DigitsValue(a) as real + FracValue(b)).Floor as real != DigitsValue(a) as real + FracValue(b)
  {
    FracValuePositive(b, i);
  }

  /** A fraction with a non-zero digit is not zero. */
  lemma {:induction false} FracValuePositive(s: string, i: nat)
    requires AllDigits(s) && i < |s| && s[i] != '0'
    ensures FracValue(s) > 0.0
  {
    if i > 0 {
      FracValuePositive(s[1..], i - 1);
    }
  }

  /** The runs `float()` reads are exactly those with a digit and at most one '.'. */
  lemma FloatOfCountSome(run: string)
    requires forall i :: 0 <= i < |run| ==> IsCountChar(run[i])
    ensures FloatOfCount(run).Some? <==>
      (exists i :: 0 <= i < |run| && IsDigit(run[i])) &&
      (forall i, j :: 0 <= i < j < |run| && run[i] == '.' ==> run[j] != '.')
  {
    var ip := DigitPrefix(run);
    var rest := run[|ip|..];
    if rest == [] {
      assert run == ip;
    } else {
      assert IsCountChar(run[|ip|]) && !IsDigit(run[|ip|]);
      assert rest[0] == '.' && run[|ip|] == '.';
      var frac := rest[1..];
      assert forall i :: 0 <= i < |frac| ==> frac[i] == run[|ip| + 1 + i];
      if !AllDigits(frac) {
        var j :| 0 <= j < |frac| && !IsDigit(frac[j]);
        assert IsCountChar(run[|ip| + 1 + j]);
        assert run[|ip| + 1 + j] == '.';
      } else if ip == [] && frac == [] {
        assert run == ".";
      } else {
        assert forall i :: 0 <= i < |run| && run[i] == '.' ==> i == |ip|;
        assert ip != [] ==> IsDigit(run[0]);
        assert frac != [] ==> IsDigit(run[|ip| + 1]);
      }
    }
  }

  /** The length of the element symbol at the head of `f`: a capital letter and an
      optional lower-case one. */
  function SymbolLength(f: string): (n: nat)
    requires f != []
    ensures 1 <= n <= |f|
  {
    if |f| > 1 && IsLower(f[1]) then 2 else 1
  }

  /** The count written after the symbol at the head of `f`. */
  function CountAfter(f: string): (run: string)
    requires f != []
    ensures SymbolLength(f) + |run| <= |f|
    ensures forall i :: 0 <= i < |run| ==> IsCountChar(run[i])
  {
    CountRun(f[SymbolLength(f)..])
  }

  /** What follows the symbol at the head of `f` and its count. */
  function AfterCount(f: string): (rest: string)
    requires f != []
    ensures |rest| < |f|
  {
    f[SymbolLength(f) + |CountAfter(f)|..]
  }

  /** A count as `float()` reads it, 1 when absent. */
  function ReadCount(run: string): Option<real>
    requires forall i :: 0 <= i < |run| ==> IsCountChar(run[i])
  {
    if run == [] then Some(1.0) else FloatOfCount(run)
  }

  /** The scan of cobra's element pattern over a formula: each element symbol
      followed by its count; repeated symbols add up; other characters are skipped.
      A count `float()` cannot read makes the whole scan fail. */
  function ScanElements(f: string): (r: Option<Vec>)
    ensures r.Some? ==> forall e :: e in r.value ==> r.value[e] >= 0.0 && 1 <= |e| <= 2 && IsUpper(e[0])
    decreases |f|
  {
    if f == [] then Some(map[])
    else if !IsUpper(f[0]) then ScanElements(f[1..])
    else
      match ReadCount(CountAfter(f))
      case None => None
      case Some(c) =>
        match ScanElements(AfterCount(f))
        case None => None
        case Some(v) => Some(AddVec(map[f[..SymbolLength(f)] := c], v))
  }

  /** cobra's `Metabolite.elements`: '*' is dropped first, and a formula with a
      parenthesis has no elements (None). */
  function ElementsOf(f: string): (r: Option<Vec>)
    ensures '(' in f || ')' in f ==> r.None?
    ensures r.Some? ==> forall e :: e in r.value ==> r.value[e] >= 0.0
  {
    var g := RemoveChar(f, '*');
    if '(' in g || ')' in g then None else ScanElements(g)
  }

  /** Element counts as the mass balance reads them: the scan of `ScanElements` with
      every count read, where a count `float()` rejects reads as 0 and '*' and
      parentheses are skipped like any other character that does not start an
      element. */
  function Elements(f: string): Vec
    decreases |f|
  {
    if f == [] then map[]
    else if !IsUpper(f[0]) then Elements(f[1..])
    else AddVec(map[f[..SymbolLength(f)] := CountValue(CountAfter(f))], Elements(AfterCount(f)))
  }

  /** The value of a count, 0 when `float()` rejects it. */
  function CountValue(run: string): real
    requires forall i :: 0 <= i < |run| ==> IsCountChar(run[i])
  {
    match ReadCount(run)
    case Some(c) => c
    case None => 0.0
  }

  /** Wherever cobra can read a formula, the mass balance reads the same counts. */
  lemma {:induction false} ScanAgrees(f: string)
    requires ScanElements(f).Some?
    ensures ScanElements(f).value == Elements(f)
    decreases |f|
  {
    if f != [] {
      if !IsUpper(f[0]) {
        ScanAgrees(f[1..]);
      } else {
        ScanAgrees(AfterCount(f));
      }
    }
  }

  /** A run of count characters is read whole. */
  lemma {:induction false} CountRunWhole(s: string)
    requires forall i :: 0 <= i < |s| ==> IsCountChar(s[i])
    ensures CountRun(s) == s
  {
    if s != [] {
      CountRunWhole(s[1..]);
    }
  }

  /** A one-letter symbol followed by a decimal count `a.b` reads as that count. */
  lemma ElementsOfDecimal(u: char, a: string, b: string)
    requires IsUpper(u) && AllDigits(a) && AllDigits(b) && a + b != []
    ensures Elements([u] + (a + ("." + b))) == map[[u] := DigitsValue(a) as real + FracValue(b)]
  {
    var run := a + ("." + b);
    var f := [u] + run;
    FloatOfDecimal(a, b);
    CountRunWhole(run);
    assert f[1..] == run;
    assert IsCountChar(f[1]);
    assert SymbolLength(f) == 1;
    assert AfterCount(f) == [];
    assert f[..1] == [u];
    var v := DigitsValue(a) as real + FracValue(b);
    assert CountValue(run) == v;
    assert f[0] == u && f != [];
    assert CountAfter(f) == run;
    assert Elements(AfterCount(f)) == map[];
    assert f[..SymbolLength(f)] == [u];
    var e := Elements(f);
    assert e == AddVec(map[f[..SymbolLength(f)] := CountValue(CountAfter(f))], Elements(AfterCount(f)));
    assert e.Keys == {[u]};
  }

  /** `Elements` extends cobra's reading of a formula to the formulas it rejects. */
  lemma ElementsAgree(f: string)
    requires ElementsOf(f).Some?
    ensures ElementsOf(f).value == Elements(RemoveChar(f, '*'))
  {
    ScanAgrees(RemoveChar(f, '*'));
  }

  /** A digit string stops at the first character that is not a digit. */
  lemma {:induction false} DigitPrefixOf(a: string, s: string)
    requires AllDigits(a) && (s == [] || !IsDigit(s[0]))
    ensures DigitPrefix(a + s) == a
  {
    if a != [] {
      assert (a + s)[1..] == a[1..] + s;
      DigitPrefixOf(a[1..], s);
    }
  }

  /** A count made of digits, a '.' and digits reads as the integer part plus the
      fraction. */
  lemma FloatOfParts(run: string, ip: string, frac: string)
    requires forall i :: 0 <= i < |run| ==> IsCountChar(run[i])
    requires AllDigits(ip) && AllDigits(frac) && ip + frac != []
    requires run == ip + ("." + frac) && DigitPrefix(run) == ip
    ensures FloatOfCount(run) == Some(DigitsValue(ip) as real + FracValue(frac))
  {
    assert run[|ip|..] == "." + frac;
  }

  /** A decimal count is its integer part plus its fraction. */
  lemma FloatOfDecimal(a: string, b: string)
    requires AllDigits(a) && AllDigits(b) && a + b != []
    ensures forall i :: 0 <= i < |a + ("." + b)| ==> IsCountChar((a + ("." + b))[i])
    ensures FloatOfCount(a + ("." + b)) == Some(DigitsValue(a) as real + FracValue(b))
  {
    var run := a + ("." + b);
    forall i | 0 <= i < |run| ensures IsCountChar(run[i]) {
      if i < |a| { assert run[i] == a[i]; }
      else if i > |a| { assert run[i] == b[i - |a| - 1]; }
    }
    DigitPrefixOf(a, "." + b);
    FloatOfParts(run, a, b);
  }

  /** Elemental composition of a metabolite, with its charge under the key "charge"
      when it has one. */
  function Composition(m: Metabolite): (c: Vec)
    ensures m.charge.Some? ==> Get(c, "charge") == m.charge.value
  {
    if m.charge.Some? then Elements(m.formula)["charge" := m.charge.value] else Elements(m.formula)
  }

  // ---------------------------------------------------------------- mass balance

  /** The total amount of `k` (an element or "charge") a reaction with stoichiometry
      `st` produces, over the metabolites `ms`. */
  function Balance(ms: seq<Metabolite>, st: Vec, k: string): real
  {
    if ms == [] then 0.0
    else Balance(ms[..|ms| - 1], st, k) + Get(st, ms[|ms| - 1].id) * Get(Composition(ms[|ms| - 1]), k)
  }

  /** Keys of the compositions of the metabolites taking part in `st`. */
  function BalanceKeys(ms: seq<Metabolite>, st: Vec): set<string>
  {
    if ms == [] then {}
    else BalanceKeys(ms[..|ms| - 1], st) +
         (if ms[|ms| - 1].id in st then Composition(ms[|ms| - 1]).Keys else {})
  }

  lemma {:induction false} BalanceOutsideKeys(ms: seq<Metabolite>, st: Vec, k: string)
    requires k !in BalanceKeys(ms, st)
    ensures Balance(ms, st, k) == 0.0
  {
    if ms != [] {
      BalanceOutsideKeys(ms[..|ms| - 1], st, k);
    }
  }

  /** cobra's `Reaction.check_mass_balance()`: the non-zero net amounts. */
  function MassBalance(ms: seq<Metabolite>, st: Vec): (mb: Vec)
    ensures NoZeros(mb)
    ensures forall k :: Get(mb, k) == Balance(ms, st, k)
  {
    var mb := map k | k in BalanceKeys(ms, st) && Balance(ms, st, k) != 0.0 :: Balance(ms, st, k);
    assert forall k :: Get(mb, k) == Balance(ms, st, k) by {
      forall k ensures Get(mb, k) == Balance(ms, st, k) {
        if k !in BalanceKeys(ms, st) { BalanceOutsideKeys(ms, st, k); }
      }
    }
    mb
  }

  /** A reaction is balanced when nothing is left over. */
  predicate Balanced(ms: seq<Metabolite>, st: Vec)
  {
    MassBalance(ms, st) == map[]
  }

  /** Balance is linear in the stoichiometry: scaling. */
  lemma {:induction false} BalanceScale(ms: seq<Metabolite>, st: Vec, c: real, k: string)
    ensures Balance(ms, Scale(c, st), k) == c * Balance(ms, st, k)
  {
    if ms != [] {
      BalanceScale(ms[..|ms| - 1], st, c, k);
    }
  }

  lemma AddStep(p: real, q: real, a: real, b: real, s: real, x: real)
    requires s == a + b
    ensures (p + q) + s * x == (p + a * x) + (q + b * x)
  {
  }

  /** Balance is linear in the stoichiometry: adding metabolites. */
  lemma BalanceAdd(ms: seq<Metabolite>, st: Vec, d: Vec, k: string)
    ensures Balance(ms, AddMetabolites(st, d), k) == Balance(ms, st, k) + Balance(ms, d, k)
  {
    BalanceSum(ms, st, d, AddMetabolites(st, d), k);
  }

  /** Stated for any `sum` whose coefficients are those of `st` plus those of `d`. */
  lemma {:induction false} BalanceSum(ms: seq<Metabolite>, st: Vec, d: Vec, sum: Vec, k: string)
    requires forall id {:trigger Get(sum, id)} :: Get(sum, id) == Get(st, id) + Get(d, id)
    ensures Balance(ms, sum, k) == Balance(ms, st, k) + Balance(ms, d, k)
  {
    if ms != [] {
      var m := ms[|ms| - 1];
      var init := ms[..|ms| - 1];
      BalanceSum(init, st, d, sum, k);
      AddStep(Balance(init, st, k), Balance(init, d, k),
              Get(st, m.id), Get(d, m.id), Get(sum, m.id), Get(Composition(m), k));
    }
  }

  /** A single metabolite that occurs once in the list contributes coefficient times
      its composition. */
  lemma {:induction false} BalanceSingle(ms: seq<Metabolite>, i: nat, c: real, k: string)
    requires i < |ms|
    requires forall j :: 0 <= j < |ms| && j != i ==> ms[j].id != ms[i].id
    ensures Balance(ms, map[ms[i].id := c], k) == c * Get(Composition(ms[i]), k)
  {
    var n := |ms| - 1;
    if i < n {
      BalanceSingle(ms[..n], i, c, k);
    } else {
      BalanceAbsent(ms[..n], map[ms[i].id := c], k);
    }
  }

  /** Metabolites outside the list contribute nothing. */
  lemma {:induction false} BalanceAbsent(ms: seq<Metabolite>, st: Vec, k: string)
    requires forall j :: 0 <= j < |ms| ==> ms[j].id !in st
    ensures Balance(ms, st, k) == 0.0
  {
    if ms != [] {
      BalanceAbsent(ms[..|ms| - 1], st, k);
    }
  }

  /** Scaling a reaction by a non-zero factor scales its mass balance. */
  lemma MassBalanceScale(ms: seq<Metabolite>, st: Vec, c: real)
    requires c != 0.0
    ensures MassBalance(ms, Scale(c, st)) == Scale(c, MassBalance(ms, st))
  {
    var a := MassBalance(ms, Scale(c, st));
    var b := Scale(c, MassBalance(ms, st));
    forall k ensures Get(a, k) == Get(b, k) {
      BalanceScale(ms, st, c, k);
    }
    NoZerosExtensional(a, b);
  }

  /** The balance reads a stoichiometry only through its coefficients. */
  lemma {:induction false} BalanceSameCoefficients(ms: seq<Metabolite>, a: Vec, b: Vec, k: string)
    requires forall id :: Get(a, id) == Get(b, id)
    ensures Balance(ms, a, k) == Balance(ms, b, k)
  {
    if ms != [] {
      BalanceSameCoefficients(ms[..|ms| - 1], a, b, k);
    }
  }

  /** Stoichiometries with the same coefficients have the same mass balance. */
  lemma MassBalanceSameCoefficients(ms: seq<Metabolite>, a: Vec, b: Vec)
    requires forall id :: Get(a, id) == Get(b, id)
    ensures MassBalance(ms, a) == MassBalance(ms, b)
  {
    forall k ensures Get(MassBalance(ms, a), k) == Get(MassBalance(ms, b), k) {
      BalanceSameCoefficients(ms, a, b, k);
    }
    NoZerosExtensional(MassBalance(ms, a), MassBalance(ms, b));
  }

  // ---------------------------------------------------------------- id setters

  /** The ids of a list of metabolites. */
  function MetaboliteIds(ms: seq<Metabolite>): set<string>
  {
    set m | m in ms :: m.id
  }

  /** A model whose metabolite ids are distinct and whose reactions name only its
      metabolites (what cobra's DictList and object references guarantee). */
  ghost predicate WellFormed(ms: seq<Metabolite>, rs: seq<Reaction>)
  {
    && (forall a, b :: 0 <= a < b < |ms| ==> ms[a].id != ms[b].id)
    && (forall j, id :: 0 <= j < |rs| && id in rs[j].stoich ==> id in MetaboliteIds(ms))
  }

  /** A stoichiometry with the key `from` moved to `to`. cobra keys a reaction's
      coefficients by the metabolite object, so a metabolite's new id shows in every
      reaction it takes part in. */
  function RenameKey(st: Vec, from: string, to: string): (r: Vec)
    ensures to !in st ==> forall k :: Get(r, k) == (if k == to then Get(st, from) else if k == from then 0.0 else Get(st, k))
  {
    if from in st then (st - {from})[to := st[from]] else st
  }

  /** Moving a key to a fresh name and back restores the stoichiometry. */
  lemma RenameKeyRoundTrip(st: Vec, from: string, to: string)
    requires to !in st
    ensures RenameKey(RenameKey(st, from, to), to, from) == st
  {
    if from in st && from != to {
      var r := RenameKey(st, from, to);
      assert to in r && from !in r;
      assert (r - {to})[from := r[to]] == st;
    }
  }

  function RenameInReactions(rs: seq<Reaction>, from: string, to: string): (r: seq<Reaction>)
    ensures |r| == |rs|
    ensures forall j :: 0 <= j < |rs| ==> r[j] == rs[j].(stoich := RenameKey(rs[j].stoich, from, to))
  {
    seq(|rs|, j requires 0 <= j < |rs| => rs[j].(stoich := RenameKey(rs[j].stoich, from, to)))
  }

  /** Moving a key onto itself changes nothing. */
  lemma RenameInReactionsSame(rs: seq<Reaction>, id: string)
    ensures RenameInReactions(rs, id, id) == rs
  {
    forall j | 0 <= j < |rs| ensures RenameKey(rs[j].stoich, id, id) == rs[j].stoich {
      if id in rs[j].stoich {
        assert (rs[j].stoich - {id})[id := rs[j].stoich[id]] == rs[j].stoich;
      }
    }
  }

  /** cobra's metabolite `id` setter, for the metabolite at `i` of a model with
      metabolites `ms` and reactions `rs`: the id it already has changes nothing; an id
      another metabolite of the model carries raises ValueError (None here); otherwise
      the metabolite takes the new id and the reactions follow it. */
  function SetMetaboliteId(ms: seq<Metabolite>, rs: seq<Reaction>, i: nat, to: string): (r: Option<(seq<Metabolite>, seq<Reaction>)>)
    requires i < |ms|
    ensures r.None? <==> to != ms[i].id && to in MetaboliteIds(ms)
    ensures r.Some? ==> |r.value.0| == |ms| && |r.value.1| == |rs| && r.value.0[i].id == to
  {
    if to == ms[i].id then Some((ms, rs))
    else if FindMetabolite(ms, to).Some? then None
    else Some((ms[i := ms[i].(id := to)], RenameInReactions(rs, ms[i].id, to)))
  }

  /** Only the id of the metabolite changes. */
  lemma SetMetaboliteIdOthers(ms: seq<Metabolite>, rs: seq<Reaction>, i: nat, to: string)
    requires i < |ms| && SetMetaboliteId(ms, rs, i, to).Some?
    ensures var ms' := SetMetaboliteId(ms, rs, i, to).value.0;
      forall j :: 0 <= j < |ms| ==> ms'[j] == ms[j].(id := if j == i then to else ms[j].id)
  {
  }

  /** Setting the old id back restores the model. */
  lemma SetMetaboliteIdRoundTrip(ms: seq<Metabolite>, rs: seq<Reaction>, i: nat, to: string)
    requires i < |ms| && WellFormed(ms, rs) && SetMetaboliteId(ms, rs, i, to).Some?
    ensures var r := SetMetaboliteId(ms, rs, i, to).value;
      SetMetaboliteId(r.0, r.1, i, ms[i].id) == Some((ms, rs))
  {
    if to != ms[i].id {
      var r := SetMetaboliteId(ms, rs, i, to).value;
      var from := ms[i].id;
      assert forall j :: 0 <= j < |ms| && j != i ==> r.0[j].id == ms[j].id;
      forall m | m in r.0 ensures m.id != from {
        var j :| 0 <= j < |r.0| && r.0[j] == m;
      }
      assert r.0[i := r.0[i].(id := from)] == ms;
      forall j | 0 <= j < |rs|
        ensures RenameKey(r.1[j].stoich, to, from) == rs[j].stoich
      {
        assert to !in rs[j].stoich;
        RenameKeyRoundTrip(rs[j].stoich, from, to);
      }
      assert RenameInReactions(r.1, to, from) == rs;
    }
  }

  /** Balances over two lists that agree, position by position, on composition and
      on the coefficient read for each metabolite are equal. */
  lemma {:induction false} BalanceRenamed(ms: seq<Metabolite>, ms': seq<Metabolite>, st: Vec, st': Vec, k: string)
    requires |ms| == |ms'|
    requires forall j :: 0 <= j < |ms| ==> Get(st', ms'[j].id) == Get(st, ms[j].id) && Composition(ms'[j]) == Composition(ms[j])
    ensures Balance(ms', st', k) == Balance(ms, st, k)
  {
    if ms != [] {
      BalanceRenamed(ms[..|ms| - 1], ms'[..|ms| - 1], st, st', k);
    }
  }

  /** Renaming a metabolite keeps the model well formed and changes no reaction's mass
      balance. */
  lemma SetMetaboliteIdKeepsBalance(ms: seq<Metabolite>, rs: seq<Reaction>, i: nat, to: string, j: nat)
    requires i < |ms| && j < |rs| && WellFormed(ms, rs) && SetMetaboliteId(ms, rs, i, to).Some?
    ensures var r := SetMetaboliteId(ms, rs, i, to).value;
      WellFormed(r.0, r.1) && MassBalance(r.0, r.1[j].stoich) == MassBalance(ms, rs[j].stoich)
  {
    var r := SetMetaboliteId(ms, rs, i, to).value;
    if to != ms[i].id {
      var from := ms[i].id;
      assert forall l :: 0 <= l < |ms| && l != i ==> r.0[l] == ms[l];
      forall a, b | 0 <= a < b < |ms| ensures r.0[a].id != r.0[b].id {
        if a == i { assert ms[b] in ms; } else if b == i { assert ms[a] in ms; }
      }
      forall l, id | 0 <= l < |rs| && id in r.1[l].stoich ensures id in MetaboliteIds(r.0) {
        if id == to {
          assert r.0[i] in r.0;
        } else {
          assert id in rs[l].stoich;
          assert id in MetaboliteIds(ms);
          var m :| m in ms && m.id == id;
          var p :| 0 <= p < |ms| && ms[p] == m;
          assert r.0[p] in r.0;
        }
      }
      var st := rs[j].stoich;
      assert to !in st;
      forall l | 0 <= l < |ms|
        ensures Get(r.1[j].stoich, r.0[l].id) == Get(st, ms[l].id) && Composition(r.0[l]) == Composition(ms[l])
      {
        if l != i { assert ms[l] in ms; }
      }
      forall k ensures Get(MassBalance(r.0, r.1[j].stoich), k) == Get(MassBalance(ms, st), k) {
        BalanceRenamed(ms, r.0, st, r.1[j].stoich, k);
      }
      NoZerosExtensional(MassBalance(r.0, r.1[j].stoich), MassBalance(ms, st));
    }
  }

  /** cobra's reaction `id` setter, for the reaction at `i`: the id it already has
      changes nothing; an id another reaction carries raises ValueError (None here);
      otherwise the reaction takes the new id, and the objective follows it when it is
      that reaction. */
  function SetReactionId(rs: seq<Reaction>, objective: string, i: nat, to: string): (r: Option<(seq<Reaction>, string)>)
    requires i < |rs|
    ensures r.None? <==> to != rs[i].id && exists j :: 0 <= j < |rs| && rs[j].id == to
    ensures r.Some? ==> |r.value.0| == |rs| && r.value.0[i].id == to
    ensures r.Some? ==> forall j :: 0 <= j < |rs| ==> r.value.0[j] == rs[j].(id := if j == i then to else rs[j].id)
    ensures r.Some? ==> r.value.1 == if objective == rs[i].id then to else objective
  {
    if to == rs[i].id then Some((rs, objective))
    else if FindReaction(rs, to).Some? then None
    else Some((rs[i := rs[i].(id := to)], if objective == rs[i].id then to else objective))
  }

  /** With distinct ids and an objective among them, setting the old id back restores
      the reactions and the objective. */
  lemma SetReactionIdRoundTrip(rs: seq<Reaction>, objective: string, i: nat, to: string)
    requires i < |rs| && SetReactionId(rs, objective, i, to).Some?
    requires forall a, b :: 0 <= a < b < |rs| ==> rs[a].id != rs[b].id
    requires exists j :: 0 <= j < |rs| && rs[j].id == objective
    ensures var r := SetReactionId(rs, objective, i, to).value;
      SetReactionId(r.0, r.1, i, rs[i].id) == Some((rs, objective))
  {
    var r := SetReactionId(rs, objective, i, to).value;
    if to != rs[i].id {
      assert forall j :: 0 <= j < |rs| && j != i ==> r.0[j].id != rs[i].id;
      assert r.0[i := r.0[i].(id := rs[i].id)] == rs;
    }
  }
}
