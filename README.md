# Teleworking-to-workdays converter, modelled in Dafny

The program is a small desktop form. The user enters accumulated
teleworking time and the length of one workday, each as hours and minutes.
The form shows how many workdays that teleworking time is worth, as a
decimal number and as "whole days, hours, minutes". All of its logic is in
`main.py`:

- `safe_int` reads one text field. It strips surrounding whitespace. A blank
  field reads as 0. Text that is not an integer is rejected, and so is a
  negative value.
- `calcular` reads the four fields in order. It rejects a minutes field of
  60 or more, then a workday of zero minutes. It then splits the
  teleworking total into whole workdays plus a remainder, and normalises
  the remainder into hours and minutes.

The model has three modules:

- `Outcomes` (`outcomes.dfy`): the four error kinds, their messages, and a
  `Result` type that replaces the program's `ValueError`s.
- `FieldParser` (`safe_int.dfy`): `strip()`, `int()` restricted to ASCII
  sign and digits, and `safe_int`.
- `Calculator` (`calculator.dfy`): the arithmetic of `calcular` as the pure
  function `Convert`, the four-field pipeline `Calculate`, and the
  breakdown line.

Everything is a pure function, as the source is. So `Convert` and
`Calculate` depend only on their arguments: the same inputs always give the
same result, and there is no hidden state.

**Modelling assumption: exact arithmetic.** The program computes the split
in floating point: `dias = tele_min / jornada_min`, then `int(dias)`, then
`round((dias - dias_ent) * jornada_min)`. The model uses exact integer
division and remainder instead. `WholeDaysIsTruncation` and
`FractionIsRemainder` read the program's formulas in exact real
arithmetic. They show that `int(dias)` is the integer quotient, and that
`(dias - dias_ent) * jornada_min` is already the integer remainder. So
`round` changes nothing, and its tie-breaking rule never matters. With
binary floating point and realistic field values, the program computes the
same integers.

## Model

| member | source | states |
|---|---|---|
| Outcomes.Message | main.py:18-38 | every error has a non-empty message; the texts are those raised at main.py:18, 20, 32 and 38 |
| Outcomes.MessagesDistinct | main.py:18-38 | the four error messages are pairwise different, so each error is recognisable from its text |
| FieldParser.SkipSpaceForward | main.py:12 | the forward scan of `strip()` passes only whitespace and stops at the end or at a non-whitespace character |
| FieldParser.SkipSpaceBackward | main.py:12 | the backward scan of `strip()` passes only whitespace, never crosses the start bound, and stops just after a non-whitespace character |
| FieldParser.StripBounds | main.py:12 | the kept range has only whitespace outside it, and no whitespace at either end inside it |
| FieldParser.Strip | main.py:12-14 | the stripped text is empty exactly when the field is all whitespace; otherwise it neither starts nor ends with whitespace |
| FieldParser.StripPadded | main.py:12 | stripping whitespace padding from a text with non-blank ends gives that text back |
| FieldParser.ParseInt | main.py:15-18 | `int()` succeeds exactly on an optional sign followed by one or more digits; otherwise it fails as not an integer; the value is negative exactly for '-' with a non-zero magnitude |
| FieldParser.SafeInt | main.py:10-21 | a blank field gives 0; not-an-integer exactly when the stripped text is not integer text; negative exactly for '-' with non-zero digits, so "-0" is accepted; no other error; otherwise the value of the digits, never below 0 |
| FieldParser.DecimalText | main.py:54-55 | `str(n)` is non-empty decimal text whose digits denote `n`, with no leading zero: a single "0" for zero |
| FieldParser.SafeIntDecimal | main.py:12-21 | a field holding `str(n)` with any whitespace around it reads back as `n` |
| FieldParser.SafeIntUnsigned | main.py:12-21 | any non-empty digit string, leading zeros allowed (such as "007"), with whitespace around it, reads as the value of its digits |
| FieldParser.SafeIntSigned | main.py:15-21 | a signed field reads as its magnitude for '+', and for '-' with value 0; '-' with a positive value is rejected as negative |
| FieldParser.SafeIntRejectsForeignChar | main.py:15-18 | any character that is not whitespace, a digit or a sign makes the field fail as not an integer |
| FieldParser.SafeIntBlankExample | main.py:12-14 | "" and whitespace-only fields read as 0 |
| FieldParser.SafeIntPaddedExample | main.py:12-21 | "  12 " reads as 12 |
| FieldParser.SafeIntSignExamples | main.py:15-21 | "-1" is rejected as negative and "-0" reads as 0 |
| FieldParser.SafeIntWordExample | main.py:15-18 | "abc" fails as not an integer |
| Calculator.Convert | main.py:31-50 | the minutes error exactly when a minutes field is 60 or more; the zero-workday error exactly when the minutes are valid and the workday total is 0; success otherwise, with both totals in minutes and a split that rebuilds the teleworking total, a remainder shorter than a workday, and remainder minutes below 60 |
| Calculator.Calculate | main.py:25-50 | the fields are read in order and the first failing field's error is the result; when all four read, the result is `Convert` of their values |
| Calculator.DecompositionUnique | main.py:44-50 | two splits of the same totals that both meet the bounds are equal |
| Calculator.ConvertIsTheSplit | main.py:34-50 | on valid input, any split meeting the bounds that rebuilds the teleworking total is exactly what `Convert` returns |
| Calculator.WholeDaysIsQuotient | main.py:40-45 | the whole days are the integer quotient of the totals, the remainder is the integer remainder, and whole days times workday never exceeds the total and falls short of it by less than a workday |
| Calculator.DecimalDays | main.py:40 | `dias` is the exact quotient: non-negative, and times the workday total it gives back the teleworking total |
| Calculator.WholeDaysIsTruncation | main.py:40-44 | read in exact arithmetic, `int(dias)` equals the whole days: they lie at or below `dias` and less than one below it |
| Calculator.FractionIsRemainder | main.py:45-50 | read in exact arithmetic, `(dias - dias_ent) * jornada_min` is the integer remainder in minutes, so `round` is a no-op, and `// 60` and `% 60` give the remainder hours and minutes |
| Calculator.CalculateDecimalFields | main.py:25-28 | four fields holding the decimal text of four numbers, each with its own whitespace before and after, give what `Convert` gives on those numbers |
| Calculator.BlankWorkdayRejected | main.py:25-38 | with valid teleworking fields, blank workday fields read as 0 and are rejected as a zero-minute workday |
| Calculator.ConvertExamples | main.py:31-50 | 7 h 45 min against a 7 h 45 min workday is 1 day, 0 h, 0 min; no teleworking is 0 days for any valid workday; 60 minutes with a zero workday is the minutes error, not the zero-workday error |
| Calculator.BreakdownText | main.py:54-55 | the breakdown line opens with the whole days in decimal followed by " días, " and closes with " min)" |
| Calculator.BreakdownTextInjective | main.py:54-55 | different results never produce the same breakdown line |

## Left out

- Calculator.Convert: computes the split exactly instead of in binary floating point, as stated above. It does not model float rounding error, which matters only for totals of the order of 2^53 minutes. It also does not model two `OverflowError`s. The true division at main.py:40 raises one when the quotient is beyond the range of a float (for example an hours field of about 310 digits with a 1 h workday). The product `(dias - dias_ent) * jornada_min` at main.py:45 raises one when converting `jornada_min` to float, that is for a workday total of 2^1024 minutes or more (for example no teleworking against a workday of 10^307 hours). The program reports both through the catch-all at main.py:59-60 as an unexpected error; `Convert` returns `Ok`.
- The decimal "días" line (`round(dias, 4)` and Python's float formatting, main.py:41 and 53) is not modelled. It is float presentation with no exact counterpart. `DecimalDays` gives the exact quotient it approximates.
- FieldParser.ParseInt: does not accept everything Python's `int()` accepts. It leaves out underscores between digits (`"1_000"`) and non-ASCII Unicode digits, and takes only an optional ASCII sign followed by ASCII digits. So `SafeInt` rejects those texts where the program accepts them. It also does not model CPython's default limit of 4300 digits on `int()` of a string (since the September 2022 security releases: 3.7.14, 3.8.14, 3.9.14, 3.10.7, and 3.11). Over that limit `int()` raises `ValueError`, which main.py:17-18 reports as not an integer; `ParseInt` and `SafeInt` accept any number of digits.
- The Tkinter form is not modelled: the widgets, layout, Enter-key binding, default values, `root.mainloop()` and the "Limpiar" action `limpiar` (main.py:62-142). These are toolkit calls with no decisions in them.
- The `messagebox` error dialogs and the catch-all `except Exception` (main.py:57-60) are replaced by the model's `Err` results. `Outcomes.Message` gives each error's text.
- Writing the two result lines into the form (`StringVar.set`, main.py:53-55) is not modelled. The breakdown line's text is modelled as `BreakdownText`.
- Calculator.BreakdownText: does not model CPython's 4300-digit limit on converting an integer to text, and need not: every number in the line has far fewer digits whenever main.py:40 and main.py:45 have not already overflowed (the workday total is below 2^1024 and the teleworking total below 2^2048, at most 617 digits).
- `resource_path` (main.py:70-75) is not modelled. It looks up a file for the window icon through the environment and PyInstaller, and it does not affect the result.
