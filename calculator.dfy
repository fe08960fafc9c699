/** The conversion behind the "Calcular" button: teleworking time and the
    length of one workday, each given as hours and minutes, become a number
    of whole workdays plus a remainder in hours and minutes.

    The program computes the split in floating point
    (`dias = tele_min / jornada_min`, `int(dias)`,
    `round((dias - dias_ent) * jornada_min)`). This model computes it with
    exact integer division and remainder; the lemmas at the end show that,
    read in exact real arithmetic, the program's own formulas give the same
    integers, so its `round` changes nothing. */
module Calculator {
  import opened Outcomes
  import opened FieldParser

  const MinutesPerHour: nat := 60

  /** What one calculation produces: the two totals in minutes shown in the
      breakdown line, the whole workdays, and the remainder normalised to
      hours and minutes. */
  datatype Conversion = Conversion(
    teleMinutes: nat,
    workdayMinutes: nat,
    wholeDays: nat,
    remHours: nat,
    remMinutes: nat)

  /** `c` splits its teleworking total into whole workdays plus a remainder
      shorter than one workday, with the remainder's minutes below an hour. */
  predicate Decomposes(c: Conversion) {
    && c.workdayMinutes > 0
    && c.remMinutes < MinutesPerHour
    && c.remHours * MinutesPerHour + c.remMinutes < c.workdayMinutes
    && c.wholeDays * c.workdayMinutes + c.remHours * MinutesPerHour + c.remMinutes == c.teleMinutes
  }

  /** The validation and arithmetic of `calcular` on the four parsed fields:
      teleworking hours and minutes, workday hours and minutes. The minutes
      check comes first, then the zero-workday check. */
  function Convert(th: nat, tm: nat, jh: nat, jm: nat): (r: Result<Conversion>)
    ensures r == Err(MinutesOutOfRange) <==> tm >= MinutesPerHour || jm >= MinutesPerHour
    ensures r == Err(ZeroWorkday) <==>
              tm < MinutesPerHour && jm < MinutesPerHour && jh * MinutesPerHour + jm == 0
    ensures r.Ok? <==> tm < MinutesPerHour && jm < MinutesPerHour && jh * MinutesPerHour + jm > 0
    ensures r.Ok? ==> && r.value.teleMinutes == th * MinutesPerHour + tm
                      && r.value.workdayMinutes == jh * MinutesPerHour + jm
                      && Decomposes(r.value)
  {
    if tm >= MinutesPerHour || jm >= MinutesPerHour then
      Err(MinutesOutOfRange)
    else
      var teleMin := th * MinutesPerHour + tm;
      var workdayMin := jh * MinutesPerHour + jm;
      if workdayMin == 0 then
        Err(ZeroWorkday)
      else
        var rem := teleMin % workdayMin;
        SplitRebuilds(teleMin, workdayMin);
        Ok(Conversion(teleMin, workdayMin, teleMin / workdayMin,
                      rem / MinutesPerHour, rem % MinutesPerHour))
  }

  /** Integer division by the workday, then by the hour, rebuilds the total
      and leaves a remainder shorter than the workday. */
  lemma SplitRebuilds(t: nat, w: nat)
    requires w > 0
    ensures t / w >= 0
    ensures (t / w) * w + ((t % w) / MinutesPerHour) * MinutesPerHour + (t % w) % MinutesPerHour == t
    ensures ((t % w) / MinutesPerHour) * MinutesPerHour + (t % w) % MinutesPerHour < w
  {
    var rem := t % w;
    assert rem == (rem / MinutesPerHour) * MinutesPerHour + rem % MinutesPerHour;
  }

  /** `calcular` from the four texts of the form: the fields are read in the
      order teleworking hours, teleworking minutes, workday hours, workday
      minutes, and the first one that fails decides the error. */
  function Calculate(thText: string, tmText: string, jhText: string, jmText: string)
    : (r: Result<Conversion>)
    ensures SafeInt(thText).Err? ==> r == Err(SafeInt(thText).error)
    ensures SafeInt(thText).Ok? && SafeInt(tmText).Err? ==> r == Err(SafeInt(tmText).error)
    ensures SafeInt(thText).Ok? && SafeInt(tmText).Ok? && SafeInt(jhText).Err? ==>
              r == Err(SafeInt(jhText).error)
    ensures SafeInt(thText).Ok? && SafeInt(tmText).Ok? && SafeInt(jhText).Ok? && SafeInt(jmText).Err? ==>
              r == Err(SafeInt(jmText).error)
    ensures SafeInt(thText).Ok? && SafeInt(tmText).Ok? && SafeInt(jhText).Ok? && SafeInt(jmText).Ok? ==>
              r == Convert(SafeInt(thText).value, SafeInt(tmText).value,
                           SafeInt(jhText).value, SafeInt(jmText).value)
  {
    var th :- SafeInt(thText);
    var tm :- SafeInt(tmText);
    var jh :- SafeInt(jhText);
    var jm :- SafeInt(jmText);
    Convert(th, tm, jh, jm)
  }

  // ---------------------------------------------------------------------
  // The split is the unique one
  // ---------------------------------------------------------------------

  /** A quotient and remainder that rebuild `a` with the remainder below
      `b` are the ones integer division gives. */
  lemma DivModUnique(a: nat, b: nat, q: nat, r: nat)
    requires b > 0 && r < b && q * b + r == a
    ensures q == a / b && r == a % b
  {
    var q0, r0 := a / b, a % b;
    assert q0 * b + r0 == a;
    if q > q0 {
      MulAtLeast(q - q0, b);
    } else if q < q0 {
      MulAtLeast(q0 - q, b);
    }
  }

  /** A positive multiple of `b` is at least `b`. */
  lemma MulAtLeast(k: nat, b: nat)
    requires k >= 1
    ensures k * b >= b
  {
  }

  /** Two splits of the same totals are the same split. */
  lemma DecompositionUnique(c: Conversion, d: Conversion)
    requires Decomposes(c) && Decomposes(d)
    requires c.teleMinutes == d.teleMinutes && c.workdayMinutes == d.workdayMinutes
    ensures c == d
  {
    var w := c.workdayMinutes;
    var rc := c.remHours * MinutesPerHour + c.remMinutes;
    var rd := d.remHours * MinutesPerHour + d.remMinutes;
    DivModUnique(c.teleMinutes, w, c.wholeDays, rc);
    DivModUnique(c.teleMinutes, w, d.wholeDays, rd);
    DivModUnique(rc, MinutesPerHour, c.remHours, c.remMinutes);
    DivModUnique(rd, MinutesPerHour, d.remHours, d.remMinutes);
  }

  /** On valid input, `Convert` returns the one split of the teleworking
      total into whole workdays, hours and minutes: any split with those
      bounds that rebuilds the total is the result. */
  lemma ConvertIsTheSplit(th: nat, tm: nat, jh: nat, jm: nat, c: Conversion)
    requires Convert(th, tm, jh, jm).Ok?
    requires c.teleMinutes == th * MinutesPerHour + tm
    requires c.workdayMinutes == jh * MinutesPerHour + jm
    requires Decomposes(c)
    ensures Convert(th, tm, jh, jm) == Ok(c)
  {
    DecompositionUnique(Convert(th, tm, jh, jm).value, c);
  }

  /** The whole days are the quotient of the two totals, and the remainder
      they leave is the integer remainder. */
  lemma WholeDaysIsQuotient(c: Conversion)
    requires Decomposes(c)
    ensures c.wholeDays == c.teleMinutes / c.workdayMinutes
    ensures c.remHours * MinutesPerHour + c.remMinutes == c.teleMinutes % c.workdayMinutes
    ensures c.wholeDays * c.workdayMinutes <= c.teleMinutes < (c.wholeDays + 1) * c.workdayMinutes
  {
    DivModUnique(c.teleMinutes, c.workdayMinutes, c.wholeDays,
                 c.remHours * MinutesPerHour + c.remMinutes);
  }

  // ---------------------------------------------------------------------
  // The program's floating-point formulas, read in exact arithmetic
  // ---------------------------------------------------------------------

  /** `dias`: the teleworking total as a fraction of the workday. */
  function DecimalDays(c: Conversion): (d: real)
    requires c.workdayMinutes > 0
    ensures d >= 0.0
    ensures d * c.workdayMinutes as real == c.teleMinutes as real
  {
    c.teleMinutes as real / c.workdayMinutes as real
  }

  /** `int(dias)` for a non-negative `dias` is the integer `n` with
      `n <= dias < n + 1`, and that integer is the model's whole days. */
  lemma WholeDaysIsTruncation(c: Conversion)
    requires Decomposes(c)
    ensures c.wholeDays as real <= DecimalDays(c) < (c.wholeDays + 1) as real
  {
    var w := c.workdayMinutes as real;
    var rem := (c.remHours * MinutesPerHour + c.remMinutes) as real;
    var d := c.wholeDays as real;
    assert c.teleMinutes as real == d * w + rem;
    BetweenConsecutive(DecimalDays(c), d, w, rem);
  }

  /** If `x * w` exceeds `d * w` by less than one `w`, then `x` lies in
      `[d, d + 1)`. */
  lemma BetweenConsecutive(x: real, d: real, w: real, rem: real)
    requires w > 0.0 && 0.0 <= rem < w
    requires x * w == d * w + rem
    ensures d <= x < d + 1.0
  {
    var y := x - d;
    assert y * w == rem;
    ScaleByPositive(y, w);
    assert 0.0 <= y < 1.0;
  }

  /** Scaling by a positive `w` keeps a negative number negative and keeps
      a number of at least 1 at least `w`. */
  lemma ScaleByPositive(a: real, w: real)
    requires w > 0.0
    ensures a < 0.0 ==> a * w < 0.0
    ensures a >= 1.0 ==> a * w >= w
  {
    if a < 0.0 {
      assert (0.0 - a) * w > 0.0;
    } else if a >= 1.0 {
      assert (a - 1.0) * w >= 0.0;
    }
  }

  /** `(dias - dias_ent) * jornada_min` is exactly the integer remainder in
      minutes, so rounding it changes nothing and `// 60`, `% 60` on it give
      the model's hours and minutes. */
  lemma FractionIsRemainder(c: Conversion)
    requires Decomposes(c)
    ensures (DecimalDays(c) - c.wholeDays as real) * c.workdayMinutes as real
            == (c.remHours * MinutesPerHour + c.remMinutes) as real
    ensures c.remHours == (c.remHours * MinutesPerHour + c.remMinutes) / MinutesPerHour
    ensures c.remMinutes == (c.remHours * MinutesPerHour + c.remMinutes) % MinutesPerHour
  {
    var w := c.workdayMinutes as real;
    var rem := (c.remHours * MinutesPerHour + c.remMinutes) as real;
    var d := c.wholeDays as real;
    assert c.teleMinutes as real == d * w + rem;
    assert DecimalDays(c) * w == d * w + rem;
    DivModUnique(c.remHours * MinutesPerHour + c.remMinutes, MinutesPerHour,
                 c.remHours, c.remMinutes);
  }

  // ---------------------------------------------------------------------
  // From the form's text
  // ---------------------------------------------------------------------

  /** Fields holding the decimal text of four numbers, each with its own
      whitespace around it, give what `Convert` gives on the numbers. */
  lemma CalculateDecimalFields(th: nat, tm: nat, jh: nat, jm: nat,
                               p1: string, q1: string, p2: string, q2: string,
                               p3: string, q3: string, p4: string, q4: string)
    requires AllSpace(p1) && AllSpace(q1) && AllSpace(p2) && AllSpace(q2)
    requires AllSpace(p3) && AllSpace(q3) && AllSpace(p4) && AllSpace(q4)
    ensures Calculate(p1 + DecimalText(th) + q1, p2 + DecimalText(tm) + q2,
                      p3 + DecimalText(jh) + q3, p4 + DecimalText(jm) + q4)
            == Convert(th, tm, jh, jm)
  {
    SafeIntDecimal(p1, th, q1);
    SafeIntDecimal(p2, tm, q2);
    SafeIntDecimal(p3, jh, q3);
    SafeIntDecimal(p4, jm, q4);
  }

  /** Leaving both workday fields blank is a zero-minute workday, rejected
      once the teleworking fields are valid. */
  lemma BlankWorkdayRejected(thText: string, tmText: string, jhText: string, jmText: string)
    requires SafeInt(thText).Ok? && SafeInt(tmText).Ok?
    requires SafeInt(tmText).value < MinutesPerHour
    requires AllSpace(jhText) && AllSpace(jmText)
    ensures Calculate(thText, tmText, jhText, jmText) == Err(ZeroWorkday)
  {
  }

  /** One workday of teleworking is exactly one day; no teleworking is zero
      days whatever the workday. */
  lemma ConvertExamples(jh: nat, jm: nat)
    requires jm < MinutesPerHour && jh + jm > 0
    ensures Convert(7, 45, 7, 45) == Ok(Conversion(465, 465, 1, 0, 0))
    ensures Convert(0, 0, jh, jm) == Ok(Conversion(0, jh * MinutesPerHour + jm, 0, 0, 0))
    ensures Convert(1, 60, 0, 0) == Err(MinutesOutOfRange)
  {
  }

  // ---------------------------------------------------------------------
  // The breakdown line
  // ---------------------------------------------------------------------

  /** The second result line:
      "<days> días, <h> h, <m> min (equivalente a <tele> min / <workday> min)". */
  function BreakdownText(c: Conversion): (line: string)
    ensures |line| > |DecimalText(c.wholeDays)| + 7
    ensures line[..|DecimalText(c.wholeDays)|] == DecimalText(c.wholeDays)
    ensures line[|DecimalText(c.wholeDays)|..|DecimalText(c.wholeDays)| + 7] == " días, "
    ensures line[|line| - 5..] == " min)"
  {
    DecimalText(c.wholeDays) + (" días, " +
    (DecimalText(c.remHours) + (" h, " +
    (DecimalText(c.remMinutes) + (" min (equivalente a " +
    (DecimalText(c.teleMinutes) + (" min / " +
    (DecimalText(c.workdayMinutes) + " min)"))))))))
  }

  /** A number's decimal text followed by text that starts with a
      non-digit can be read back unambiguously. */
  lemma DecimalPrefixUnique(a: nat, x: string, b: nat, y: string)
    requires x != [] && !IsDigit(x[0]) && y != [] && !IsDigit(y[0])
    requires DecimalText(a) + x == DecimalText(b) + y
    ensures a == b && x == y
  {
    var da, db := DecimalText(a), DecimalText(b);
    // The first place where one side leaves its digits must be the same.
    var k := if |da| < |db| then |da| else |db|;
    assert (da + x)[k] == (db + y)[k];
    assert |da| == |db|;
    assert da == (da + x)[..|da|] == (db + y)[..|db|] == db;
    assert x == (da + x)[|da|..] == (db + y)[|db|..] == y;
  }

  lemma CommonPrefix(p: string, x: string, y: string)
    requires p + x == p + y
    ensures x == y
  {
    assert x == (p + x)[|p|..];
    assert y == (p + y)[|p|..];
  }

  /** Different results never show the same breakdown line. */
  lemma BreakdownTextInjective(c: Conversion, d: Conversion)
    requires BreakdownText(c) == BreakdownText(d)
    ensures c == d
  {
    var x5, y5 := " min)", " min)";
    var x4, y4 := DecimalText(c.workdayMinutes) + x5, DecimalText(d.workdayMinutes) + y5;
    var x3, y3 := DecimalText(c.teleMinutes) + (" min / " + x4), DecimalText(d.teleMinutes) + (" min / " + y4);
    var x2, y2 := DecimalText(c.remMinutes) + (" min (equivalente a " + x3),
                  DecimalText(d.remMinutes) + (" min (equivalente a " + y3);
    var x1, y1 := DecimalText(c.remHours) + (" h, " + x2), DecimalText(d.remHours) + (" h, " + y2);
    DecimalPrefixUnique(c.wholeDays, " días, " + x1, d.wholeDays, " días, " + y1);
    CommonPrefix(" días, ", x1, y1);
    DecimalPrefixUnique(c.remHours, " h, " + x2, d.remHours, " h, " + y2);
    CommonPrefix(" h, ", x2, y2);
    DecimalPrefixUnique(c.remMinutes, " min (equivalente a " + x3, d.remMinutes, " min (equivalente a " + y3);
    CommonPrefix(" min (equivalente a ", x3, y3);
    DecimalPrefixUnique(c.teleMinutes, " min / " + x4, d.teleMinutes, " min / " + y4);
    CommonPrefix(" min / ", x4, y4);
    DecimalPrefixUnique(c.workdayMinutes, x5, d.workdayMinutes, y5);
  }
}
