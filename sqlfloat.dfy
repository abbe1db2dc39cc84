/**
 * `streamSQLFloatFormat`: rewriting C++ upper-case scientific notation,
 * `[-]d.ddddddE±dd`, into the SQL standard's minimal E-notation.
 */
module SqlFloat {
  predicate IsDigit(c: char) { '0' <= c <= '9' }

  predicate AllDigits(s: string) {
    forall i :: 0 <= i < |s| ==> IsDigit(s[i])
  }

  /** The parts of a double printed with `std::ios::scientific | std::ios::uppercase`. */
  datatype Scientific = Scientific(negative: bool, lead: char, fraction: string, exponentNegative: bool, exponent: string)

  predicate WellFormed(x: Scientific) {
    IsDigit(x.lead) && |x.fraction| >= 1 && AllDigits(x.fraction) && |x.exponent| >= 1 && AllDigits(x.exponent)
  }

  function SignText(negative: bool): string { if negative then "-" else "" }

  /** The text the C++ stream produces: the exponent always carries a sign. */
  function CppText(x: Scientific): string {
    SignText(x.negative) + [x.lead] + "." + x.fraction + "E" + (if x.exponentNegative then "-" else "+") + x.exponent
  }

  /** The fraction without its trailing zeros, keeping at least one digit. */
  function TrimFraction(f: string): (t: string)
    requires |f| >= 1
    ensures 1 <= |t| <= |f| && t == f[..|t|]
    ensures forall i :: |t| <= i < |f| ==> f[i] == '0'
    ensures |t| == 1 || t[|t| - 1] != '0'
    decreases |f|
  {
    if |f| > 1 && f[|f| - 1] == '0' then TrimFraction(f[..|f| - 1]) else f
  }

  /** The exponent digits without leading zeros, keeping at least one digit. */
  function TrimExponent(e: string): (t: string)
    requires |e| >= 1
    ensures 1 <= |t| <= |e| && t == e[|e| - |t|..]
    ensures forall i :: 0 <= i < |e| - |t| ==> e[i] == '0'
    ensures |t| == 1 || t[0] != '0'
    decreases |e|
  {
    if |e| > 1 && e[0] == '0' then TrimExponent(e[1..]) else e
  }

  /** The SQL text: capital E, no trailing mantissa zeros, no `+` and no leading zeros in the exponent. */
  function SqlText(x: Scientific): string
    requires WellFormed(x)
  {
    SignText(x.negative) + [x.lead] + "." + TrimFraction(x.fraction) + "E" + SignText(x.exponentNegative) + TrimExponent(x.exponent)
  }

  lemma {:induction false} TrimFractionIdempotent(f: string)
    requires |f| >= 1
    ensures TrimFraction(TrimFraction(f)) == TrimFraction(f)
    decreases |f|
  {
    if |f| > 1 && f[|f| - 1] == '0' {
      TrimFractionIdempotent(f[..|f| - 1]);
    }
  }

  lemma {:induction false} TrimExponentIdempotent(e: string)
    requires |e| >= 1
    ensures TrimExponent(TrimExponent(e)) == TrimExponent(e)
    decreases |e|
  {
    if |e| > 1 && e[0] == '0' {
      TrimExponentIdempotent(e[1..]);
    }
  }

  function Pow10(k: nat): (r: nat)
    ensures r >= 1
  {
    if k == 0 then 1 else 10 * Pow10(k - 1)
  }

  function Digit(c: char): nat { if IsDigit(c) then (c - '0') as nat else 0 }

  /** The number a digit string spells, most significant digit first. */
  function DigitsValue(s: string): nat {
    if s == [] then 0 else Digit(s[0]) * Pow10(|s| - 1) + DigitsValue(s[1..])
  }

  /** Appending a digit shifts the value one decimal place. */
  lemma {:induction false} DigitsValueAppend(s: string, c: char)
    ensures DigitsValue(s + [c]) == DigitsValue(s) * 10 + Digit(c)
    decreases |s|
  {
    if s != [] {
      assert (s + [c])[0] == s[0] && (s + [c])[1..] == s[1..] + [c];
      DigitsValueAppend(s[1..], c);
      assert Pow10(|s|) == 10 * Pow10(|s| - 1);
      calc {
        DigitsValue(s + [c]);
        Digit(s[0]) * Pow10(|s|) + DigitsValue(s[1..] + [c]);
        Digit(s[0]) * (10 * Pow10(|s| - 1)) + (DigitsValue(s[1..]) * 10 + Digit(c));
        (Digit(s[0]) * Pow10(|s| - 1) + DigitsValue(s[1..])) * 10 + Digit(c);
      }
    }
  }

  lemma MulAssociates(a: nat, q: nat, m: nat)
    ensures (a * q) * m == a * (m * q)
  {}

  /**
   * Trimming keeps the digits' value: the mantissa fraction `0.f` equals
   * `0.t` for its trimmed `t`, and the exponent's number is unchanged.
   */
  lemma {:induction false} TrimFractionKeepsValue(f: string)
    requires |f| >= 1
    ensures DigitsValue(f) == DigitsValue(TrimFraction(f)) * Pow10(|f| - |TrimFraction(f)|)
    decreases |f|
  {
    if |f| > 1 && f[|f| - 1] == '0' {
      var g := f[..|f| - 1];
      var t := TrimFraction(g);
      assert TrimFraction(f) == t;
      assert f == g + ['0'];
      DigitsValueAppend(g, '0');
      TrimFractionKeepsValue(g);
      var a, q := DigitsValue(t), Pow10(|g| - |t|);
      assert Pow10(|f| - |t|) == 10 * q;
      MulAssociates(a, q, 10);
    }
  }

  lemma {:induction false} TrimExponentKeepsValue(e: string)
    requires |e| >= 1
    ensures DigitsValue(TrimExponent(e)) == DigitsValue(e)
    decreases |e|
  {
    if |e| > 1 && e[0] == '0' {
      assert TrimExponent(e) == TrimExponent(e[1..]);
      assert Digit(e[0]) == 0;
      assert DigitsValue(e) == 0 * Pow10(|e| - 1) + DigitsValue(e[1..]);
      TrimExponentKeepsValue(e[1..]);
    }
  }

  /** Formatting a number whose text is already minimal changes nothing. */
  lemma SqlTextIsMinimal(x: Scientific)
    requires WellFormed(x)
    ensures var y := x.(fraction := TrimFraction(x.fraction), exponent := TrimExponent(x.exponent));
      WellFormed(y) && SqlText(y) == SqlText(x)
  {
    TrimFractionIdempotent(x.fraction);
    TrimExponentIdempotent(x.exponent);
  }

  /** `std::string::find(c, from)`: the first index at or after `from` holding `c`, or `|s|` for npos. */
  function FindFrom(s: string, c: char, from: nat): (i: nat)
    ensures from <= i <= |s| || (i == |s| && from > |s|)
    ensures i < |s| ==> s[i] == c
    ensures forall j :: from <= j < i && j < |s| ==> s[j] != c
    decreases |s| - from
  {
    if from >= |s| then |s| else if s[from] == c then from else FindFrom(s, c, from + 1)
  }

  /** Where each character of the C++ text sits, with `m` the index of the first fraction digit. */
  lemma CppTextIndices(x: Scientific)
    requires WellFormed(x)
    ensures var t := CppText(x); var m := |SignText(x.negative)| + 2; var f := x.fraction; var e := x.exponent;
      |t| == m + |f| + 2 + |e| && t[m - 1] == '.' && t[m + |f|] == 'E' &&
      (t[m + |f| + 1] == '-' <==> x.exponentNegative) && (t[m + |f| + 1] == '-' || t[m + |f| + 1] == '+') &&
      (forall j :: 0 <= j < |f| ==> t[m + j] == f[j]) &&
      (forall j :: 0 <= j < |e| ==> t[m + |f| + 2 + j] == e[j])
  {
    var sign := if x.exponentNegative then "-" else "+";
    assert CppText(x) == SignText(x.negative) + [x.lead] + "." + x.fraction + "E" + sign + x.exponent;
  }

  /** The two pieces of the C++ text the SQL text is cut from. */
  lemma CppTextSlices(x: Scientific, ePos: nat, end: nat, start: nat)
    requires WellFormed(x) && ePos == |SignText(x.negative)| + 2 + |x.fraction|
    requires |SignText(x.negative)| + 2 <= end <= ePos && ePos + 2 <= start <= |CppText(x)|
    ensures CppText(x)[..end] == SignText(x.negative) + [x.lead] + "." + x.fraction[..end - (|SignText(x.negative)| + 2)]
    ensures CppText(x)[start..] == x.exponent[start - (ePos + 2)..]
  {
    var t := CppText(x);
    var prefix := SignText(x.negative) + [x.lead] + ".";
    var sign := if x.exponentNegative then "-" else "+";
    assert t == prefix + x.fraction + "E" + sign + x.exponent;
    assert t[..end] == (prefix + x.fraction)[..end];
    assert t == (prefix + x.fraction + "E" + sign) + x.exponent;
  }

  /** The SQL text is cut from the C++ text: the kept mantissa, then the kept exponent digits. */
  lemma SqlTextFromCppText(x: Scientific, ePos: nat, end: nat, start: nat)
    requires WellFormed(x) && ePos == |SignText(x.negative)| + 2 + |x.fraction|
    requires |SignText(x.negative)| + 2 <= end <= ePos && ePos + 2 <= start <= |CppText(x)|
    requires x.fraction[..end - (|SignText(x.negative)| + 2)] == TrimFraction(x.fraction)
    requires x.exponent[start - (ePos + 2)..] == TrimExponent(x.exponent)
    ensures var t := CppText(x);
      t[..end] + "E" + (if t[ePos + 1] == '-' then "-" else "") + t[start..] == SqlText(x)
  {
    CppTextSlices(x, ePos, end, start);
    ExponentSign(x);
  }

  lemma ExponentSign(x: Scientific)
    requires WellFormed(x)
    ensures var t := CppText(x); var i := |SignText(x.negative)| + 2 + |x.fraction| + 1;
      i < |t| && t[i] == if x.exponentNegative then '-' else '+'
  {
    var prefix := SignText(x.negative) + [x.lead] + "." + x.fraction + "E";
    var sign := if x.exponentNegative then "-" else "+";
    assert CppText(x) == prefix + (sign + x.exponent);
    assert (sign + x.exponent)[0] == sign[0];
  }

  /** Dropping exactly the zeros after the last significant digit is what `TrimFraction` does. */
  lemma {:induction false} TrimFractionAt(f: string, k: nat)
    requires 1 <= k <= |f| && (forall i :: k <= i < |f| ==> f[i] == '0') && (k == 1 || f[k - 1] != '0')
    ensures TrimFraction(f) == f[..k]
    decreases |f| - k
  {
    if k < |f| {
      TrimFractionAt(f[..|f| - 1], k);
      assert f[..|f| - 1][..k] == f[..k];
    }
  }

  /**
   * The mantissa loop: step back from the `E` over trailing `0`s, but never
   * so far that only the bare `.` would remain.
   */
  method SignificantMantissaEnd(fancyText: string, ghost m: nat, ghost f: string, ePos: nat) returns (end: nat)
    requires |f| >= 1 && m >= 1 && ePos == m + |f| && ePos <= |fancyText| && AllDigits(f)
    requires fancyText[m - 1] == '.'
    requires forall j :: 0 <= j < |f| ==> fancyText[m + j] == f[j]
    ensures m + 1 <= end <= ePos && f[..end - m] == TrimFraction(f)
  {
    end := ePos;
    while fancyText[end - 2] != '.'
      invariant m + 1 <= end <= ePos
      invariant forall i :: end - m <= i < |f| ==> f[i] == '0'
      decreases end
    {
      if fancyText[end - 1] != '0' {
        break;
      }
      assert f[end - 1 - m] == fancyText[end - 1];
      end := end - 1;
    }
    if end - m > 1 {
      assert fancyText[m + (end - 2 - m)] == f[end - 2 - m];
      assert fancyText[m + (end - 1 - m)] == f[end - 1 - m];
    }
    TrimFractionAt(f, end - m);
  }

  /** Dropping exactly the leading zeros before the first significant digit is what `TrimExponent` does. */
  lemma {:induction false} TrimExponentAt(e: string, k: nat)
    requires k < |e| && (forall i :: 0 <= i < k ==> e[i] == '0') && (k == |e| - 1 || e[k] != '0')
    ensures TrimExponent(e) == e[k..]
    decreases k
  {
    if k > 0 {
      TrimExponentAt(e[1..], k - 1);
      assert e[1..][k - 1..] == e[k..];
    }
  }

  /**
   * The exponent loop: step forward from just after the `E` over `-`, `+`
   * and `0`, but always keep the last digit.
   */
  method SignificantExponentStart(fancyText: string, ePos: nat, ghost e: string) returns (start: nat)
    requires |e| >= 1 && ePos + 2 + |e| == |fancyText| && AllDigits(e)
    requires fancyText[ePos + 1] == '-' || fancyText[ePos + 1] == '+'
    requires forall j :: 0 <= j < |e| ==> fancyText[ePos + 2 + j] == e[j]
    ensures ePos + 2 <= start <= |fancyText| - 1 && e[start - (ePos + 2)..] == TrimExponent(e)
  {
    var endExponent := |fancyText| - 1;
    start := ePos + 1;
    while start < endExponent
      invariant ePos + 1 <= start <= endExponent
      invariant forall i :: 0 <= i < start - (ePos + 2) ==> e[i] == '0'
    {
      var exponentLeadChar := fancyText[start];
      if exponentLeadChar != '-' && exponentLeadChar != '+' && exponentLeadChar != '0' {
        break;
      }
      assert start > ePos + 1 ==> e[start - (ePos + 2)] == exponentLeadChar;
      start := start + 1;
    }
    assert start > ePos + 1;
    assert start == endExponent || e[start - (ePos + 2)] != '0';
    TrimExponentAt(e, start - (ePos + 2));
  }

  /** The first `E` from index 3 on is the exponent marker. */
  lemma ExponentMarker(x: Scientific)
    requires WellFormed(x)
    ensures FindFrom(CppText(x), 'E', 3) == |SignText(x.negative)| + 2 + |x.fraction|
  {
    CppTextIndices(x);
    var t := CppText(x);
    var m := |SignText(x.negative)| + 2;
    forall j | 3 <= j < m + |x.fraction|
      ensures t[j] != 'E'
    {
      if j >= m {
        assert t[m + (j - m)] == x.fraction[j - m];
      }
    }
  }

  /** `streamSQLFloatFormat`, with the zero test left to the caller's flag. */
  method StreamSqlFloatFormat(isZero: bool, x: Scientific) returns (out: string)
    requires WellFormed(x)
    ensures isZero ==> out == "0E0"
    ensures !isZero ==> out == SqlText(x)
  {
    if isZero {
      return "0E0";
    }
    var fancyText := CppText(x);
    CppTextIndices(x);
    ExponentMarker(x);
    ghost var m := |SignText(x.negative)| + 2;
    var ePos := FindFrom(fancyText, 'E', 3);
    var endSignifMantissa := SignificantMantissaEnd(fancyText, m, x.fraction, ePos);
    var optionalSign := if fancyText[ePos + 1] == '-' then "-" else "";
    var startSignifExponent := SignificantExponentStart(fancyText, ePos, x.exponent);
    SqlTextFromCppText(x, ePos, endSignifMantissa, startSignifExponent);
    out := fancyText[..endSignifMantissa] + "E" + optionalSign + fancyText[startSignifExponent..];
  }
}
