/** `safe_int`: the parser that turns the text of one input field into a
    non-negative integer. It trims surrounding whitespace, reads an empty
    field as 0, and otherwise accepts an optional sign followed by decimal
    digits whose value is not negative. */
module FieldParser {
  import opened Outcomes

  // ---------------------------------------------------------------------
  // Character classes
  // ---------------------------------------------------------------------

  /** The characters Python's `str.strip()` removes when given no argument
      (those for which `str.isspace()` holds). */
  predicate IsSpace(c: char) {
    var k := c as int;
    || 0x09 <= k <= 0x0D
    || 0x1C <= k <= 0x20
    || k == 0x85 || k == 0xA0 || k == 0x1680
    || 0x2000 <= k <= 0x200A
    || k == 0x2028 || k == 0x2029 || k == 0x202F || k == 0x205F || k == 0x3000
  }

  predicate IsDigit(c: char) { '0' <= c <= '9' }

  predicate IsSign(c: char) { c == '+' || c == '-' }

  predicate AllSpace(s: string) {
    forall i :: 0 <= i < |s| ==> IsSpace(s[i])
  }

  predicate AllDigits(s: string) {
    forall i :: 0 <= i < |s| ==> IsDigit(s[i])
  }

  // ---------------------------------------------------------------------
  // str.strip()
  // ---------------------------------------------------------------------

  /** Scans forward from `i` over whitespace: everything it passes is
      whitespace and it stops at the end or at a non-whitespace character. */
  function SkipSpaceForward(s: string, i: nat): (j: nat)
    requires i <= |s|
    ensures i <= j <= |s|
    ensures forall k :: i <= k < j ==> IsSpace(s[k])
    ensures j < |s| ==> !IsSpace(s[j])
    decreases |s| - i
  {
    if i < |s| && IsSpace(s[i]) then SkipSpaceForward(s, i + 1) else i
  }

  /** Scans backward from `j` over whitespace, never below `lo`: everything
      it passes is whitespace and it stops at `lo` or just after a
      non-whitespace character. */
  function SkipSpaceBackward(s: string, lo: nat, j: nat): (e: nat)
    requires lo <= j <= |s|
    ensures lo <= e <= j
    ensures forall k :: e <= k < j ==> IsSpace(s[k])
    ensures e > lo ==> !IsSpace(s[e - 1])
    decreases j
  {
    if j > lo && IsSpace(s[j - 1]) then SkipSpaceBackward(s, lo, j - 1) else j
  }

  /** The bounds `strip()` keeps, [b.0, b.1): only whitespace outside them,
      and when they are not empty, no whitespace at either end inside. */
  function StripBounds(value: string): (b: (nat, nat))
    ensures b.0 <= b.1 <= |value|
    ensures forall k :: 0 <= k < b.0 ==> IsSpace(value[k])
    ensures forall k :: b.1 <= k < |value| ==> IsSpace(value[k])
    ensures b.0 < b.1 ==> !IsSpace(value[b.0]) && !IsSpace(value[b.1 - 1])
  {
    var i := SkipSpaceForward(value, 0);
    (i, SkipSpaceBackward(value, i, |value|))
  }

  /** Python's `value.strip()`: what lies between the bounds. It is empty
      exactly for a blank field, and otherwise neither starts nor ends with
      whitespace. */
  function Strip(value: string): (r: string)
    ensures r == [] <==> AllSpace(value)
    ensures r != [] ==> !IsSpace(r[0]) && !IsSpace(r[|r| - 1])
  {
    var b := StripBounds(value);
    assert b.0 == b.1 ==> AllSpace(value);
    value[b.0..b.1]
  }

  // ---------------------------------------------------------------------
  // Decimal digits
  // ---------------------------------------------------------------------

  function DigitValue(c: char): nat
    requires IsDigit(c)
  {
    c as int - '0' as int
  }

  /** The value of a string of decimal digits, most significant first. */
  function DigitsValue(ds: string): nat
    requires AllDigits(ds)
  {
    if ds == [] then 0 else DigitsValue(ds[..|ds| - 1]) * 10 + DigitValue(ds[|ds| - 1])
  }

  /** Python's `str(n)` for a natural number: the canonical decimal text
      (a single "0" for zero, otherwise no leading zero) whose digits denote `n`. */
  function DecimalText(n: nat): (r: string)
    ensures |r| > 0 && AllDigits(r)
    ensures DigitsValue(r) == n
    ensures r[0] == '0' ==> n == 0
    ensures |r| > 1 ==> r[0] != '0'
  {
    var last := ['0' + (n % 10) as char];
    if n < 10 then last
    else
      var r := DecimalText(n / 10) + last;
      assert r[..|r| - 1] == DecimalText(n / 10);
      r
  }

  // ---------------------------------------------------------------------
  // int(s) restricted to ASCII: an optional sign and one or more digits
  // ---------------------------------------------------------------------

  /** The text `int()` accepts once the surrounding whitespace is gone. */
  predicate IsIntegerText(t: string) {
    && |t| > 0
    && (IsSign(t[0]) ==> |t| > 1)
    && forall i :: 0 <= i < |t| ==> IsDigit(t[i]) || (i == 0 && IsSign(t[i]))
  }

  /** The digits of integer text, without its sign. */
  function Magnitude(t: string): (ds: string)
    requires IsIntegerText(t)
    ensures |ds| > 0 && AllDigits(ds)
  {
    if IsSign(t[0]) then t[1..] else t
  }

  /** `int(t)`: fails on anything but integer text; the value carries the
      sign of a leading '-' and the magnitude of its digits. */
  function ParseInt(t: string): (r: Result<int>)
    ensures r.Ok? <==> IsIntegerText(t)
    ensures r.Err? ==> r.error == NotAnInteger
    ensures r.Ok? ==> (r.value < 0 <==> t[0] == '-' && DigitsValue(Magnitude(t)) > 0)
    ensures r.Ok? ==> (r.value == DigitsValue(Magnitude(t)) || r.value == -(DigitsValue(Magnitude(t)) as int))
  {
    if |t| > 0 && IsSign(t[0]) then
      var ds := t[1..];
      if |ds| > 0 && AllDigits(ds) then
        var m: int := DigitsValue(ds);
        Ok(if t[0] == '-' then -m else m)
      else
        assert !IsIntegerText(t) by {
          if |ds| > 0 {
            var j :| 0 <= j < |ds| && !IsDigit(ds[j]);
            assert t[j + 1] == ds[j];
          }
        }
        Err(NotAnInteger)
    else if |t| > 0 && AllDigits(t) then
      Ok(DigitsValue(t))
    else
      Err(NotAnInteger)
  }

  // ---------------------------------------------------------------------
  // safe_int
  // ---------------------------------------------------------------------

  /** `safe_int(value)`: 0 for a blank field, the number for integer text
      whose value is not negative, and the two errors otherwise. */
  function SafeInt(value: string): (r: Result<nat>)
    ensures AllSpace(value) ==> r == Ok(0)
    ensures r == Err(NotAnInteger) <==> !AllSpace(value) && !IsIntegerText(Strip(value))
    ensures r == Err(Negative) <==>
              && IsIntegerText(Strip(value))
              && Strip(value)[0] == '-'
              && DigitsValue(Magnitude(Strip(value))) > 0
    ensures r.Ok? && !AllSpace(value) ==> r.value == DigitsValue(Magnitude(Strip(value)))
    ensures r.Err? ==> r.error == NotAnInteger || r.error == Negative
  {
    var s := Strip(value);
    if s == [] then Ok(0)
    else
      var n :- ParseInt(s);
      if n < 0 then Err(Negative) else Ok(n)
  }

  // ---------------------------------------------------------------------
  // Properties
  // ---------------------------------------------------------------------

  /** Padding a non-blank text with whitespace on both sides and stripping
      it gives the text back. */
  lemma StripPadded(p: string, t: string, q: string)
    requires AllSpace(p) && AllSpace(q)
    requires t != [] && !IsSpace(t[0]) && !IsSpace(t[|t| - 1])
    ensures Strip(p + t + q) == t
  {
    var v := p + t + q;
    var b := StripBounds(v);
    assert v[|p|] == t[0];
    assert v[|p| + |t| - 1] == t[|t| - 1];
    assert v[|p|..|p| + |t|] == t;
  }

  /** A field holding `str(n)`, with any whitespace around it, reads as
      `n`. */
  lemma SafeIntDecimal(p: string, n: nat, q: string)
    requires AllSpace(p) && AllSpace(q)
    ensures SafeInt(p + DecimalText(n) + q) == Ok(n)
  {
    var t := DecimalText(n);
    StripPadded(p, t, q);
    assert IsIntegerText(t);
  }

  /** An unsigned field of digits, leading zeros allowed (such as "007"),
      with any whitespace around it, reads as the value of its digits. */
  lemma SafeIntUnsigned(p: string, ds: string, q: string)
    requires AllSpace(p) && AllSpace(q)
    requires ds != [] && AllDigits(ds)
    ensures SafeInt(p + ds + q) == Ok(DigitsValue(ds))
  {
    StripPadded(p, ds, q);
    assert IsIntegerText(ds);
  }

  /** A signed field: `+digits` and `-digits` of value 0 (such as "-0")
      read as their magnitude, and `-digits` of a positive value is
      rejected as negative. */
  lemma SafeIntSigned(p: string, sign: char, ds: string, q: string)
    requires AllSpace(p) && AllSpace(q)
    requires IsSign(sign) && ds != [] && AllDigits(ds)
    ensures SafeInt(p + [sign] + ds + q) ==
              if sign == '-' && DigitsValue(ds) > 0 then Err(Negative) else Ok(DigitsValue(ds))
  {
    var t := [sign] + ds;
    assert p + [sign] + ds + q == p + t + q;
    assert t[1..] == ds;
    StripPadded(p, t, q);
    assert IsIntegerText(t);
  }

  /** A character that is neither whitespace, a digit nor a sign anywhere in
      the field makes it fail as not an integer. */
  lemma SafeIntRejectsForeignChar(value: string, k: nat)
    requires k < |value|
    requires !IsSpace(value[k]) && !IsDigit(value[k]) && !IsSign(value[k])
    ensures SafeInt(value) == Err(NotAnInteger)
  {
    var b := StripBounds(value);
    assert b.0 <= k < b.1;
    assert Strip(value)[k - b.0] == value[k];
  }

  /** The cases the program's behaviour is usually illustrated with. */
  lemma SafeIntBlankExample()
    ensures SafeInt("") == Ok(0)
    ensures SafeInt(" \t ") == Ok(0)
  {
  }

  lemma SafeIntPaddedExample()
    ensures SafeInt("  12 ") == Ok(12)
  {
    assert DecimalText(1) == "1";
    assert DecimalText(12) == DecimalText(1) + "2" == "12";
    SafeIntDecimal("  ", 12, " ");
    assert "  " + "12" + " " == "  12 ";
  }

  lemma SafeIntSignExamples()
    ensures SafeInt("-1") == Err(Negative)
    ensures SafeInt("-0") == Ok(0)
  {
    SafeIntSigned("", '-', "1", "");
    assert "" + ['-'] + "1" + "" == "-1";
    SafeIntSigned("", '-', "0", "");
    assert "" + ['-'] + "0" + "" == "-0";
  }

  lemma SafeIntWordExample()
    ensures SafeInt("abc") == Err(NotAnInteger)
  {
    SafeIntRejectsForeignChar("abc", 0);
  }
}
