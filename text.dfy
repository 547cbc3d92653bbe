/** Python string operations the scripts rely on, with Python's semantics written out:
    `str.split(sep)`, `sep.join`, `str.replace` (including the empty pattern),
    ASCII `lower`/`upper`, slices with negative bounds, `int()` of a decimal literal
    and `str()` of an integer. */
module Text {
  import opened Common

  predicate StartsWith(s: string, prefix: string)
  {
    prefix <= s
  }

  predicate EndsWith(s: string, suffix: string)
  {
    |suffix| <= |s| && s[|s| - |suffix|..] == suffix
  }

  /** Python's `sub in s`. */
  predicate Contains(s: string, sub: string)
    decreases |s|
  {
    sub <= s || (s != [] && Contains(s[1..], sub))
  }

  lemma {:induction false} ContainsAt(s: string, sub: string, i: nat)
    requires i + |sub| <= |s| && s[i..i + |sub|] == sub
    ensures Contains(s, sub)
    decreases i
  {
    if i > 0 {
      assert s[1..][i - 1..i - 1 + |sub|] == sub;
      ContainsAt(s[1..], sub, i - 1);
    }
  }

  /** `s[:k]` */
  function Take(s: string, k: nat): (r: string)
    ensures |r| == if k <= |s| then k else |s|
    ensures r <= s
  {
    if k <= |s| then s[..k] else s
  }

  /** `s[-k:]` for k > 0: the last k characters, or the whole string when shorter. */
  function TakeLast(s: string, k: nat): (r: string)
    ensures |r| == if k <= |s| then k else |s|
    ensures EndsWith(s, r)
  {
    if k <= |s| then s[|s| - k..] else s
  }

  /** `s[:-k]` for k > 0: everything but the last k characters, or "" when shorter. */
  function DropLast(s: string, k: nat): (r: string)
    ensures r <= s
    ensures |s| >= k ==> |r| == |s| - k
    ensures |s| < k ==> r == ""
  {
    if k <= |s| then s[..|s| - k] else ""
  }

  lemma DropLastTakeLast(s: string, k: nat)
    requires k <= |s|
    ensures DropLast(s, k) + TakeLast(s, k) == s
  {
  }

  /** `s.split(sep)` with a one-character separator: never empty, and consecutive
      separators give empty pieces. */
  function Split(s: string, sep: char): (r: seq<string>)
    ensures |r| >= 1
  {
    if s == [] then [""]
    else
      var rest := Split(s[1..], sep);
      if s[0] == sep then [""] + rest else [[s[0]] + rest[0]] + rest[1..]
  }

  /** `sep.join(parts)` */
  function Join(parts: seq<string>, sep: string): string
  {
    if parts == [] then ""
    else if |parts| == 1 then parts[0]
    else parts[0] + sep + Join(parts[1..], sep)
  }

  /** Splitting and re-joining gives the string back, and no piece holds the separator. */
  lemma {:induction false} SplitJoin(s: string, sep: char)
    ensures Join(Split(s, sep), [sep]) == s
    ensures forall p :: p in Split(s, sep) ==> sep !in p
  {
    if s != [] {
      SplitJoin(s[1..], sep);
      var rest := Split(s[1..], sep);
      if s[0] == sep {
        assert Split(s, sep) == [""] + rest;
        assert Join([""] + rest, [sep]) == "" + [sep] + Join(rest, [sep]);
      } else {
        var parts := Split(s, sep);
        assert parts == [[s[0]] + rest[0]] + rest[1..];
        if |rest| == 1 {
          assert Join(parts, [sep]) == [s[0]] + rest[0];
        } else {
          assert rest == [rest[0]] + rest[1..];
          assert Join(rest, [sep]) == rest[0] + [sep] + Join(rest[1..], [sep]);
          assert Join(parts, [sep]) == [s[0]] + rest[0] + [sep] + Join(rest[1..], [sep]);
        }
        forall p | p in parts ensures sep !in p {
          if p == [s[0]] + rest[0] {
            assert rest[0] in rest;
          } else {
            assert p in rest;
          }
        }
      }
    }
  }

  /** Joining pieces free of the separator and splitting again gives the pieces back. */
  lemma {:induction false} JoinSplit(parts: seq<string>, sep: char)
    requires |parts| >= 1
    requires forall p :: p in parts ==> sep !in p
    ensures Split(Join(parts, [sep]), sep) == parts
    decreases |parts|, |parts[0]|
  {
    var p0 := parts[0];
    if p0 == [] {
      if |parts| == 1 {
      } else {
        var tail := parts[1..];
        JoinSplit(tail, sep);
        var j := Join(parts, [sep]);
        assert j == [sep] + Join(tail, [sep]);
        assert j[1..] == Join(tail, [sep]);
        assert parts == [""] + tail;
      }
    } else {
      var shorter := [p0[1..]] + parts[1..];
      assert p0 in parts;
      forall p | p in shorter ensures sep !in p {
        if p != p0[1..] { assert p in parts; } else { assert forall k :: 0 <= k < |p| ==> p[k] == p0[k + 1]; }
      }
      JoinSplit(shorter, sep);
      var j := Join(parts, [sep]);
      if |parts| == 1 {
        assert j == p0;
        assert Join(shorter, [sep]) == p0[1..];
      } else {
        assert j == p0 + [sep] + Join(parts[1..], [sep]);
        assert Join(shorter, [sep]) == p0[1..] + [sep] + Join(parts[1..], [sep]);
      }
      assert j[0] == p0[0] && j[1..] == Join(shorter, [sep]);
      assert p0[0] != sep;
      var rest := Split(j[1..], sep);
      assert rest == shorter;
      assert [p0[0]] + rest[0] == p0;
      assert parts == [[p0[0]] + rest[0]] + rest[1..];
    }
  }

  /** The string with every occurrence of `c` removed (`s.replace(c, '')`). */
  function RemoveChar(s: string, c: char): (r: string)
    ensures c !in r
    ensures forall x :: x != c ==> (x in r <==> x in s)
    ensures c !in s ==> r == s
  {
    if s == [] then "" else (if s[0] == c then "" else [s[0]]) + RemoveChar(s[1..], c)
  }

  /** Python's `s.replace(key, val)`: non-overlapping occurrences, scanned left to
      right; an empty key inserts `val` before every character and at the end. */
  function ReplaceAll(s: string, key: string, val: string): string
    decreases |s|
  {
    if key == [] then
      (if s == [] then val else val + [s[0]] + ReplaceAll(s[1..], key, val))
    else if s == [] then ""
    else if key <= s then val + ReplaceAll(s[|key|..], key, val)
    else [s[0]] + ReplaceAll(s[1..], key, val)
  }

  /** Replacing a pattern that does not occur leaves the string unchanged. */
  lemma {:induction false} ReplaceAbsent(s: string, key: string, val: string)
    requires key != [] && !Contains(s, key)
    ensures ReplaceAll(s, key, val) == s
  {
    if s != [] {
      ReplaceAbsent(s[1..], key, val);
    }
  }

  /** Replacing a pattern by itself leaves the string unchanged. */
  lemma {:induction false} ReplaceIdentity(s: string, key: string)
    requires key != []
    ensures ReplaceAll(s, key, key) == s
  {
    if s != [] {
      if key <= s {
        ReplaceIdentity(s[|key|..], key);
        assert s == key + s[|key|..];
      } else {
        ReplaceIdentity(s[1..], key);
      }
    }
  }

  /** After replacing a pattern by a value that cannot recreate it, it is gone. */
  lemma {:induction false} ReplaceRemoves(s: string, c: char, val: string)
    requires c !in val
    ensures c !in ReplaceAll(s, [c], val)
  {
    if s != [] {
      ReplaceRemoves(s[1..], c, val);
      if [c] <= s {
        assert s[|[c]|..] == s[1..];
      }
    }
  }

  function LowerChar(c: char): char
  {
    if 'A' <= c <= 'Z' then (c as int + 32) as char else c
  }

  function UpperChar(c: char): char
  {
    if 'a' <= c <= 'z' then (c as int - 32) as char else c
  }

  /** `s.lower()` on ASCII letters. */
  function Lower(s: string): (r: string)
    ensures |r| == |s|
    ensures forall i :: 0 <= i < |s| ==> r[i] == LowerChar(s[i])
  {
    if s == [] then "" else [LowerChar(s[0])] + Lower(s[1..])
  }

  /** `s.upper()` on ASCII letters. */
  function Upper(s: string): (r: string)
    ensures |r| == |s|
    ensures forall i :: 0 <= i < |s| ==> r[i] == UpperChar(s[i])
  {
    if s == [] then "" else [UpperChar(s[0])] + Upper(s[1..])
  }

  /** `s` has no uppercase ASCII letter. */
  predicate NoUpper(s: string)
  {
    s == [] || (!('A' <= s[0] <= 'Z') && NoUpper(s[1..]))
  }

  /** Lowercasing leaves a string without uppercase letters as it is. */
  lemma {:induction false} LowerNoUpper(s: string)
    requires NoUpper(s)
    ensures Lower(s) == s
    decreases |s|
  {
    if s != [] {
      LowerNoUpper(s[1..]);
    }
  }

  lemma LowerIdempotent(s: string)
    ensures Lower(Lower(s)) == Lower(s)
  {
  }

  lemma UpperHasNoLowercase(s: string)
    ensures forall i :: 0 <= i < |Upper(s)| ==> !('a' <= Upper(s)[i] <= 'z')
  {
  }

  predicate IsDigit(c: char)
  {
    '0' <= c <= '9'
  }

  /** Regular-expression `\w` on ASCII text. */
  predicate IsWordChar(c: char)
  {
    'a' <= c <= 'z' || 'A' <= c <= 'Z' || IsDigit(c) || c == '_'
  }

  predicate AllDigits(s: string)
  {
    forall i :: 0 <= i < |s| ==> IsDigit(s[i])
  }

  function DigitChar(d: nat): char
    requires d < 10
  {
    ('0' as int + d) as char
  }

  /** Value of a decimal digit string. */
  function DigitsValue(s: string): nat
    requires AllDigits(s)
  {
    if s == [] then 0
    else DigitsValue(s[..|s| - 1]) * 10 + (s[|s| - 1] as int - '0' as int)
  }

  /** `str(n)` for a natural number. */
  function NatToString(n: nat): (r: string)
    ensures |r| >= 1 && AllDigits(r)
  {
    if n < 10 then [DigitChar(n)] else NatToString(n / 10) + [DigitChar(n % 10)]
  }

  /** `str(i)` for an integer. */
  function IntToString(i: int): string
  {
    if i < 0 then "-" + NatToString(-i) else NatToString(i)
  }

  /** A decimal literal as Python's `int()` reads one: ASCII digits, with single
      underscores allowed between two digits (digit grouping, as in "3_564"). */
  predicate IsNumeral(s: string)
    decreases |s|
  {
    s != [] && IsDigit(s[0])
    && (|s| == 1 || (if s[1] == '_' then IsNumeral(s[2..]) else IsNumeral(s[1..])))
  }

  /** The digits of a literal, its grouping underscores dropped. */
  function NumeralDigits(s: string): (r: string)
    requires IsNumeral(s)
    ensures r != [] && AllDigits(r)
    decreases |s|
  {
    if |s| == 1 then s
    else if s[1] == '_' then [s[0]] + NumeralDigits(s[2..])
    else [s[0]] + NumeralDigits(s[1..])
  }

  /** The value of a decimal literal. */
  function NumeralValue(s: string): nat
    requires IsNumeral(s)
  {
    DigitsValue(NumeralDigits(s))
  }

  /** `int(s)` for a string made of an optional sign and a decimal literal; anything
      else raises ValueError, modelled as None. */
  function ParseInt(s: string): Option<int>
  {
    if s == [] then None
    else if s[0] == '-' || s[0] == '+' then
      (if IsNumeral(s[1..]) then
         var v: int := NumeralValue(s[1..]);
         Some(if s[0] == '-' then -v else v)
       else None)
    else if IsNumeral(s) then Some(NumeralValue(s))
    else None
  }

  /** Underscores group digits only between two digits: "3_564" reads as 3564,
      while a doubled, leading or trailing underscore is a ValueError. */
  lemma ParseIntGrouping()
    ensures ParseInt("3_560") == Some(3560)
    ensures ParseInt("3_564") == Some(3564)
    ensures ParseInt("3__564") == None
    ensures ParseInt("_3564") == None
    ensures ParseInt("3564_") == None
  {
    var s := "3_564";
    assert s[2..] == "564" && s[2..][1..] == "64" && s[2..][1..][1..] == "4";
    assert NumeralDigits(s) == "3564";
    assert "3564"[..3] == "356" && "356"[..2] == "35" && "35"[..1] == "3" && "3"[..0] == "";
    var t := "3_560";
    assert t[2..] == "560" && t[2..][1..] == "60" && t[2..][1..][1..] == "0";
    assert NumeralDigits(t) == "3560";
    assert "3560"[..3] == "356";
    assert !IsNumeral("3__564") by { assert "3__564"[2..] == "_564"; }
    assert !IsNumeral("3564_") by {
      assert "3564_"[1..] == "564_" && "564_"[1..] == "64_" && "64_"[1..] == "4_" && "4_"[2..] == "";
    }
  }

  lemma {:induction false} NatToStringValue(n: nat)
    ensures DigitsValue(NatToString(n)) == n
  {
    if n >= 10 {
      NatToStringValue(n / 10);
      var r := NatToString(n);
      assert r[..|r| - 1] == NatToString(n / 10);
    }
  }

  /** A plain digit string is a literal whose value is its digits' value. */
  lemma {:induction false} DigitsNumeral(s: string)
    requires s != [] && AllDigits(s)
    ensures IsNumeral(s) && NumeralDigits(s) == s && NumeralValue(s) == DigitsValue(s)
    decreases |s|
  {
    if |s| > 1 {
      assert IsDigit(s[1]);
      DigitsNumeral(s[1..]);
      assert [s[0]] + s[1..] == s;
    }
  }

  /** `int('-' + digits)` is the negated value of the digits. */
  lemma ParseNegated(s: string)
    requires s != [] && AllDigits(s)
    ensures ParseInt("-" + s) == Some(-(DigitsValue(s) as int))
  {
    DigitsNumeral(s);
    assert ("-" + s)[1..] == s;
  }

  /** `int(str(i)) == i` */
  lemma ParseIntToString(i: int)
    ensures ParseInt(IntToString(i)) == Some(i)
  {
    if i < 0 {
      NatToStringValue(-i);
      ParseNegated(NatToString(-i));
    } else {
      NatToStringValue(i);
      ParseDigits(NatToString(i));
    }
  }

  function Pow10(k: nat): (r: nat)
    ensures r >= 1
  {
    if k == 0 then 1 else 10 * Pow10(k - 1)
  }

  /** `str(n)` has k + 1 digits exactly when 10^k <= n < 10^(k+1). */
  lemma {:induction false} NatToStringLength(n: nat, k: nat)
    requires Pow10(k) <= n < 10 * Pow10(k)
    ensures |NatToString(n)| == k + 1
  {
    if k > 0 {
      NatToStringLength(n / 10, k - 1);
    }
  }

  /** A leading zero does not change the value of a digit string. */
  lemma {:induction false} LeadingZero(s: string)
    requires AllDigits(s)
    ensures AllDigits("0" + s) && DigitsValue("0" + s) == DigitsValue(s)
  {
    if s != [] {
      LeadingZero(s[..|s| - 1]);
      assert ("0" + s)[..|"0" + s| - 1] == "0" + s[..|s| - 1];
    }
  }

  /** `int()` of a string of digits is its value. */
  lemma ParseDigits(s: string)
    requires s != [] && AllDigits(s)
    ensures ParseInt(s) == Some(DigitsValue(s) as int)
  {
    DigitsNumeral(s);
  }

  /** A string without the separator is one piece. */
  lemma {:induction false} SplitAbsent(s: string, sep: char)
    requires sep !in s
    ensures Split(s, sep) == [s]
  {
    if s != [] {
      SplitAbsent(s[1..], sep);
      assert [s[0]] + s[1..] == s;
    }
  }

  /** The first piece ends at the first separator, and the pieces after it are those
      of the text after it. */
  lemma {:induction false} SplitAtFirst(s: string, sep: char, p: nat)
    requires p < |s| && s[p] == sep && sep !in s[..p]
    ensures |Split(s, sep)| >= 2
    ensures Split(s, sep)[0] == s[..p]
    ensures Split(s, sep)[1..] == Split(s[p + 1..], sep)
  {
    if p > 0 {
      assert s[1..][..p - 1] == s[..p][1..];
      SplitAtFirst(s[1..], sep, p - 1);
      assert s[1..][p - 1 + 1..] == s[p + 1..];
      assert s[0] == s[..p][0];
      assert [s[0]] + s[1..][..p - 1] == s[..p];
    }
  }
}
