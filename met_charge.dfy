/*
  Hydrogen counting and charged formulas for metabolites
  (steps/3_calc_met_charge.py): the hydrogen count read off a formula, the charge
  comparison written to the curation table, the charge derived from a neutral and a
  charged formula, and the charged-formula rewrite.
*/
module MetCharge {
  import opened Common
  import opened Text

  /** A charge as the script passes it around: an int it computed, or the text of
      a table cell. */
  datatype ChargeValue = IntCharge(i: int) | TextCharge(s: string)

  /** Python's `int()` on a charge; None where it raises ValueError. */
  function ToInt(c: ChargeValue): Option<int>
  {
    match c
    case IntCharge(i) => Some(i)
    case TextCharge(s) => ParseInt(s)
  }

  /** `compare_charges`: 'T' when both charges read as ints and differ, '' otherwise. */
  function CompareCharges(ch1: ChargeValue, ch2: ChargeValue): string
  {
    match (ToInt(ch1), ToInt(ch2))
    case (Some(a), Some(b)) => if a != b then "T" else ""
    case _ => ""
  }

  /** Comparing a computed charge with the text of a table cell flags exactly the
      charges that differ, and never flags an unreadable cell. */
  lemma CompareWithText(i: int, cell: string)
    ensures CompareCharges(IntCharge(i), TextCharge(cell)) == "T" <==> ParseInt(cell).Some? && ParseInt(cell).value != i
    ensures CompareCharges(IntCharge(i), TextCharge(IntToString(i))) == ""
  {
    ParseIntToString(i);
  }

  /** The order of the two charges does not matter. */
  lemma CompareSymmetric(ch1: ChargeValue, ch2: ChargeValue)
    ensures CompareCharges(ch1, ch2) == CompareCharges(ch2, ch1)
    ensures CompareCharges(ch1, ch2) == "" || CompareCharges(ch1, ch2) == "T"
  {
  }

  // ---------------------------------------------------------------- regex search

  /** The pattern `H((\d+)|\w)` (or `H(\d+)` when `digitsOnly`) can match at `q`. */
  predicate HAt(f: string, q: int, digitsOnly: bool)
  {
    0 <= q && q + 1 < |f| && f[q] == 'H' && (if digitsOnly then IsDigit(f[q + 1]) else IsWordChar(f[q + 1]))
  }

  /** `re.search`: the leftmost position from `from` on where the pattern matches. */
  function FirstH(f: string, from: nat, digitsOnly: bool): (r: Option<nat>)
    requires from <= |f|
    ensures r.Some? ==> from <= r.value && HAt(f, r.value, digitsOnly)
    ensures r.Some? ==> forall q :: from <= q < r.value ==> !HAt(f, q, digitsOnly)
    ensures r.None? <==> forall q :: from <= q < |f| ==> !HAt(f, q, digitsOnly)
    decreases |f| - from
  {
    if from == |f| then None
    else if HAt(f, from, digitsOnly) then Some(from)
    else FirstH(f, from + 1, digitsOnly)
  }

  /** The leftmost match is the first position where the pattern matches. */
  lemma FirstHIs(f: string, p: nat, digitsOnly: bool)
    requires HAt(f, p, digitsOnly) && forall q :: 0 <= q < p ==> !HAt(f, q, digitsOnly)
    ensures FirstH(f, 0, digitsOnly) == Some(p)
  {
    var r := FirstH(f, 0, digitsOnly);
    assert r.Some?;
    assert !(r.value < p);
    assert !(p < r.value);
  }

  /** The greedy `\d+`: the longest run of digits at the front. */
  function DigitRun(s: string): (r: string)
    ensures r <= s && AllDigits(r)
    ensures |r| < |s| ==> !IsDigit(s[|r|])
    ensures s != [] && IsDigit(s[0]) ==> |r| >= 1
  {
    if s == [] || !IsDigit(s[0]) then [] else [s[0]] + DigitRun(s[1..])
  }

  /** A run of digits followed by a non-digit is the whole run. */
  lemma {:induction false} DigitRunOf(d: string, rest: string)
    requires AllDigits(d)
    requires rest == [] || !IsDigit(rest[0])
    ensures DigitRun(d + rest) == d
  {
    if d != [] {
      assert (d + rest)[1..] == d[1..] + rest;
      DigitRunOf(d[1..], rest);
      assert [d[0]] + d[1..] == d;
    } else {
      assert d + rest == rest;
    }
  }

  /** `match.group(1)`: the digits after 'H', or the one word character after it. */
  function HGroup(f: string, p: nat): (r: string)
    requires HAt(f, p, false)
  {
    if IsDigit(f[p + 1]) then DigitRun(f[p + 1..]) else [f[p + 1]]
  }

  /** `get_nh`: the number after the first 'H' that is followed by a word
      character, 1 when a letter follows it, and 0 when there is no such 'H' (no
      hydrogen, or only a bare 'H' at the end). */
  function GetNh(f: string): (r: int)
    ensures r >= 0
    ensures (forall q :: 0 <= q < |f| ==> !HAt(f, q, false)) ==> r == 0
  {
    match FirstH(f, 0, false)
    case None => 0
    case Some(p) =>
      match ParseInt(HGroup(f, p))
      case Some(v) => (ParseDigitRun(f, p); v)
      case None => 1
  }

  /** Only the digits that follow the matched 'H' are parsed. */
  lemma ParseDigitRun(f: string, p: nat)
    requires HAt(f, p, false) && ParseInt(HGroup(f, p)).Some?
    ensures IsDigit(f[p + 1]) && ParseInt(HGroup(f, p)) == Some(DigitsValue(HGroup(f, p)) as int)
  {
    ParseDigits(HGroup(f, p));
  }

  /** After the leftmost 'H' with a word character behind it: the count is the
      value of the digits that follow it, or 1 when a non-digit follows. */
  lemma GetNhAt(f: string, p: nat)
    requires HAt(f, p, false) && forall q :: 0 <= q < p ==> !HAt(f, q, false)
    ensures IsDigit(f[p + 1]) ==> GetNh(f) == DigitsValue(DigitRun(f[p + 1..]))
    ensures !IsDigit(f[p + 1]) ==> GetNh(f) == 1
  {
    FirstHIs(f, p, false);
    if IsDigit(f[p + 1]) {
      ParseDigits(DigitRun(f[p + 1..]));
    } else {
      assert !IsDigit(HGroup(f, p)[0]);
    }
  }

  /** In `before + "H" + digits + after`, with no 'H' in `before`, the leftmost
      'H' with a word character behind it is the one after `before`. */
  lemma RewriteShape(before: string, digits: string, after: string)
    requires 'H' !in before && digits != [] && AllDigits(digits)
    ensures HAt(before + "H" + digits + after, |before|, false)
    ensures forall q :: 0 <= q < |before| ==> !HAt(before + "H" + digits + after, q, false)
    ensures (before + "H" + digits + after)[|before| + 1..] == digits + after
  {
    var f := before + "H" + digits + after;
    assert f[|before|] == 'H' && f[|before| + 1] == digits[0];
    forall q | 0 <= q < |before| ensures !HAt(f, q, false) {
      assert f[q] == before[q];
    }
  }

  /** The count after the leftmost 'H' is the value of the whole run of digits
      behind it. */
  lemma GetNhOfDigits(f: string, p: nat, digits: string, after: string)
    requires HAt(f, p, false) && forall q :: 0 <= q < p ==> !HAt(f, q, false)
    requires digits != [] && AllDigits(digits) && f[p + 1..] == digits + after
    requires after == [] || !IsDigit(after[0])
    ensures GetNh(f) == DigitsValue(digits)
  {
    assert IsDigit(f[p + 1]) by { assert f[p + 1] == (digits + after)[0]; }
    GetNhAt(f, p);
    DigitRunOf(digits, after);
  }

  /** A formula whose only 'H' is followed by the decimal text of `n` and then by
      no further digit has `n` hydrogens. */
  lemma GetNhOfRewrite(before: string, n: nat, after: string)
    requires 'H' !in before
    requires after == [] || !IsDigit(after[0])
    ensures GetNh(before + "H" + NatToString(n) + after) == n
  {
    RewriteShape(before, NatToString(n), after);
    GetNhOfDigits(before + "H" + NatToString(n) + after, |before|, NatToString(n), after);
    NatToStringValue(n);
  }

  // ---------------------------------------------------------------- charge of a microspecies

  /** The charge `calc_major_ms` reports: the hydrogens of the charged formula minus
      those of the neutral one, or '' when no charged formula was obtained. */
  function ComputedCharge(charged: string, neutral: string): (r: ChargeValue)
    ensures charged == "" <==> ToInt(r).None?
    ensures charged != "" ==> r == IntCharge(GetNh(charged) - GetNh(neutral))
  {
    if charged != "" then IntCharge(GetNh(charged) - GetNh(neutral)) else TextCharge("")
  }

  // ---------------------------------------------------------------- charged formula

  /** `re.split('H(\d+)', f)`: the text between the matches, with each match's
      digits in between. */
  function SplitHDigits(s: string): (r: seq<string>)
    ensures |r| % 2 == 1
    ensures FirstH(s, 0, true).Some? ==> |r| >= 3
    decreases |s|
  {
    match FirstH(s, 0, true)
    case None => [s]
    case Some(p) =>
      var d := DigitRun(s[p + 1..]);
      var rest := SplitHDigits(s[p + 1 + |d|..]);
      assert |[s[..p], d] + rest| == |rest| + 2 && (|rest| + 2) % 2 == |rest| % 2;
      [s[..p], d] + rest
  }

  /** The text around the hydrogen count with `total` put in: for a count of 1 the
      formula is split at every 'H' and only the first two pieces are kept; for
      other counts it is split at every 'H' followed by digits and the first and
      third pieces are kept. */
  function RewriteHydrogens(f: string, p: nat, nh: int, total: int): string
    requires HAt(f, p, false) && forall q :: 0 <= q < p ==> !HAt(f, q, false)
    requires nh != 1 ==> IsDigit(f[p + 1])
  {
    if nh == 1 then
      var pieces := Split(f, 'H');
      FirstHPiece(f, p);
      pieces[0] + "H" + IntToString(total) + pieces[1]
    else
      var pieces := SplitHDigits(f);
      assert HAt(f, p, true);
      pieces[0] + "H" + IntToString(total) + pieces[2]
  }

  /** Any formula with an 'H' splits into at least two pieces at 'H'. */
  lemma FirstHPiece(f: string, p: nat)
    requires p < |f| && f[p] == 'H'
    ensures |Split(f, 'H')| >= 2
    decreases p
  {
    if 'H' in f[..p] {
      var q :| q in f[..p] && q == 'H';
      var k :| 0 <= k < p && f[..p][k] == q;
      FirstHPiece(f, k);
    } else {
      SplitAtFirst(f, 'H', p);
    }
  }

  /** `get_charged_formula` as written, once the neutral formula has been fetched
      (`""` when it was not found): it adds the charge it was given, not the int it
      parsed, to the hydrogen count, so a charge passed as text raises TypeError. */
  function ChargedFormulaAsWritten(formula: string, charge: ChargeValue): Result<string, string>
  {
    match ToInt(charge)
    case None => Ok("No charge available ")
    case Some(_) =>
      if formula == "" then Ok("Formula not found in kegg")
      else match FirstH(formula, 0, false)
        case None => Ok(formula)
        case Some(p) =>
          var nh := GetNh(formula);
          GetNhAt(formula, p);
          match charge
          case TextCharge(_) => Err("TypeError: unsupported operand type(s) for +: 'int' and 'str'")
          case IntCharge(c) => Ok(RewriteHydrogens(formula, p, nh, nh + c))
  }

  /** `get_charged_formula` adding the parsed charge: the message for an unreadable
      charge or a missing formula, the formula itself when it has no hydrogen, and
      otherwise the formula with its hydrogen count shifted by the charge. */
  function ChargedFormula(formula: string, charge: ChargeValue): (r: string)
    ensures ToInt(charge).None? ==> r == "No charge available "
    ensures ToInt(charge).Some? && (forall q :: 0 <= q < |formula| ==> !HAt(formula, q, false)) ==>
      r == (if formula == "" then "Formula not found in kegg" else formula)
  {
    match ToInt(charge)
    case None => "No charge available "
    case Some(c) =>
      if formula == "" then "Formula not found in kegg"
      else match FirstH(formula, 0, false)
        case None => formula
        case Some(p) =>
          var nh := GetNh(formula);
          GetNhAt(formula, p);
          RewriteHydrogens(formula, p, nh, nh + c)
  }

  /** The two agree on every charge that is already an int. */
  lemma ChargedFormulaAgreesOnInts(formula: string, c: int)
    ensures ChargedFormulaAsWritten(formula, IntCharge(c)) == Ok(ChargedFormula(formula, IntCharge(c)))
  {
  }

  /** A charge read from a table ('1', say) makes the code raise TypeError on any
      formula with hydrogen, where the corrected function shifts the count. */
  lemma TextChargeRaises(formula: string, cell: string, p: nat)
    requires ParseInt(cell).Some? && HAt(formula, p, false)
    ensures ChargedFormulaAsWritten(formula, TextCharge(cell)).Err?
    ensures ChargedFormula(formula, TextCharge(cell)) == ChargedFormula(formula, IntCharge(ParseInt(cell).value))
  {
    assert FirstH(formula, 0, false).Some?;
  }

  /** With a hydrogen at `p` and none before it, the charged formula is the rewrite
      of the count there. */
  lemma ChargedFormulaAt(f: string, p: nat, c: int)
    requires HAt(f, p, false) && forall q :: 0 <= q < p ==> !HAt(f, q, false)
    ensures IsDigit(f[p + 1]) || GetNh(f) == 1
    ensures ChargedFormula(f, IntCharge(c)) == RewriteHydrogens(f, p, GetNh(f), GetNh(f) + c)
  {
    FirstHIs(f, p, false);
    GetNhAt(f, p);
  }

  /** The rewrite of the only 'H' of a formula, followed by digits: the text before
      it and the text after the digits are kept. */
  lemma RewriteDigits(f: string, p: nat, nh: int, total: nat)
    requires HAt(f, p, false) && forall q :: 0 <= q < |f| && f[q] == 'H' ==> q == p
    requires IsDigit(f[p + 1]) && nh != 1
    ensures RewriteHydrogens(f, p, nh, total) ==
      f[..p] + "H" + NatToString(total) + f[p + 1 + |DigitRun(f[p + 1..])|..]
  {
    var d := DigitRun(f[p + 1..]);
    var rest := f[p + 1 + |d|..];
    forall q | 0 <= q < p ensures !HAt(f, q, true) { }
    FirstHIs(f, p, true);
    assert FirstH(rest, 0, true).None? by {
      forall q | 0 <= q < |rest| ensures !HAt(rest, q, true) {
        assert rest[q] == f[p + 1 + |d| + q];
      }
    }
    assert SplitHDigits(f) == [f[..p], d] + SplitHDigits(rest);
  }

  /** The rewrite of the only 'H' of a formula, followed by a letter: the text on
      both sides of it is kept. */
  lemma RewriteLetter(f: string, p: nat, total: nat)
    requires HAt(f, p, false) && forall q :: 0 <= q < |f| && f[q] == 'H' ==> q == p
    ensures RewriteHydrogens(f, p, 1, total) == f[..p] + "H" + NatToString(total) + f[p + 1..]
  {
    var rest := f[p + 1..];
    assert 'H' !in f[..p];
    assert 'H' !in rest by {
      forall k | 0 <= k < |rest| ensures rest[k] != 'H' { assert rest[k] == f[p + 1 + k]; }
    }
    SplitAtFirst(f, 'H', p);
    SplitAbsent(rest, 'H');
  }

  /** The text after the hydrogen count at `p`: after its digits, or after the 'H'
      when a letter follows it. */
  function AfterCount(f: string, p: nat): string
    requires p + 1 < |f|
  {
    if IsDigit(f[p + 1]) then f[p + 1 + |DigitRun(f[p + 1..])|..] else f[p + 1..]
  }

  /** The charged formula of a formula whose only 'H' is followed by digits. */
  lemma ChargedDigits(f: string, p: nat, c: int)
    requires HAt(f, p, false) && forall q :: 0 <= q < |f| && f[q] == 'H' ==> q == p
    requires GetNh(f) + c >= 0 && IsDigit(f[p + 1]) && GetNh(f) != 1
    ensures ChargedFormula(f, IntCharge(c)) == f[..p] + "H" + NatToString(GetNh(f) + c) + AfterCount(f, p)
  {
    forall q | 0 <= q < p ensures !HAt(f, q, false) { }
    ChargedFormulaAt(f, p, c);
    RewriteDigits(f, p, GetNh(f), GetNh(f) + c);
    assert AfterCount(f, p) == f[p + 1 + |DigitRun(f[p + 1..])|..];
  }

  /** The charged formula of a formula whose only 'H' is followed by a letter. */
  lemma ChargedLetter(f: string, p: nat, c: int)
    requires HAt(f, p, false) && forall q :: 0 <= q < |f| && f[q] == 'H' ==> q == p
    requires GetNh(f) + c >= 0 && !IsDigit(f[p + 1])
    ensures GetNh(f) == 1
    ensures ChargedFormula(f, IntCharge(c)) == f[..p] + "H" + NatToString(GetNh(f) + c) + AfterCount(f, p)
  {
    forall q | 0 <= q < p ensures !HAt(f, q, false) { }
    ChargedFormulaAt(f, p, c);
    RewriteLetter(f, p, GetNh(f) + c);
    assert AfterCount(f, p) == f[p + 1..];
  }

  /** The charged formula of a formula with a single 'H' is the text before it, 'H',
      the shifted count and the text after the count; that text does not start with
      a digit. */
  lemma ChargedFormulaSplit(f: string, p: nat, c: int)
    requires HAt(f, p, false) && forall q :: 0 <= q < |f| && f[q] == 'H' ==> q == p
    requires GetNh(f) + c >= 0
    requires IsDigit(f[p + 1]) ==> GetNh(f) != 1
    ensures ChargedFormula(f, IntCharge(c)) == f[..p] + "H" + NatToString(GetNh(f) + c) + AfterCount(f, p)
    ensures 'H' !in f[..p]
    ensures AfterCount(f, p) == [] || !IsDigit(AfterCount(f, p)[0])
  {
    if IsDigit(f[p + 1]) {
      var d := DigitRun(f[p + 1..]);
      var rest := f[p + 1 + |d|..];
      ChargedDigits(f, p, c);
      assert (if |d| < |f[p + 1..]| then !IsDigit(f[p + 1..][|d|]) else true);
      if rest != [] { assert rest[0] == f[p + 1..][|d|]; }
    } else {
      ChargedLetter(f, p, c);
    }
  }

  /** For a formula with a single 'H', followed by a letter or by a count other
      than 1, the charged formula keeps the text around the count, holds the
      shifted count, and reading it back gives that count. */
  lemma ChargedFormulaHydrogens(f: string, p: nat, c: int)
    requires HAt(f, p, false) && forall q :: 0 <= q < |f| && f[q] == 'H' ==> q == p
    requires GetNh(f) + c >= 0
    requires IsDigit(f[p + 1]) ==> GetNh(f) != 1
    ensures ChargedFormula(f, IntCharge(c)) == f[..p] + "H" + NatToString(GetNh(f) + c) + AfterCount(f, p)
    ensures GetNh(ChargedFormula(f, IntCharge(c))) == GetNh(f) + c
  {
    ChargedFormulaSplit(f, p, c);
    GetNhOfRewrite(f[..p], GetNh(f) + c, AfterCount(f, p));
  }

  /** An explicit count of one ('H1') takes the n_h == 1 branch, which splits at
      the 'H' and so keeps the '1' behind the new count: the rewrite does not
      replace the count but writes the shifted count in front of it. */
  lemma ExplicitCountOne(f: string, p: nat, c: int)
    requires HAt(f, p, false) && forall q :: 0 <= q < |f| && f[q] == 'H' ==> q == p
    requires f[p + 1] == '1' && (p + 2 == |f| || !IsDigit(f[p + 2]))
    requires 1 + c >= 0
    ensures GetNh(f) == 1
    ensures ChargedFormula(f, IntCharge(c)) == f[..p] + "H" + NatToString(1 + c) + f[p + 1..]
  {
    forall q | 0 <= q < p ensures !HAt(f, q, false) { }
    assert f[p + 1..] == "1" + f[p + 2..];
    GetNhOfDigits(f, p, "1", f[p + 2..]);
    ChargedFormulaAt(f, p, c);
    RewriteLetter(f, p, 1 + c);
  }

  /** 'C2H1Cl' with charge 1 becomes 'C2H21Cl', a formula with 21 hydrogens
      where 2 were meant. */
  lemma ExplicitCountOneExample()
    ensures ChargedFormula("C2H1Cl", IntCharge(1)) == "C2H21Cl"
  {
    var f := "C2H1Cl";
    ExplicitCountOne(f, 2, 1);
    assert f[..2] == "C2" && f[3..] == "1Cl" && NatToString(2) == "2";
  }

  /** The charge read back from the charged formula against the neutral one is the
      charge that was put in. */
  lemma ChargeRoundTrip(f: string, p: nat, c: int)
    requires HAt(f, p, false) && forall q :: 0 <= q < |f| && f[q] == 'H' ==> q == p
    requires GetNh(f) + c >= 0
    requires IsDigit(f[p + 1]) ==> GetNh(f) != 1
    ensures ComputedCharge(ChargedFormula(f, IntCharge(c)), f) == IntCharge(c)
  {
    ChargedFormulaHydrogens(f, p, c);
  }
}
