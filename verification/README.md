# pv-scanner barcode decoding, modelled in Dafny

pv-scanner is a desktop tool for weighing stations. An operator scans
barcodes into a two-column table (weight in kg, best-before date), the
tool keeps a running total and flags implausible weights, and the table is
exported as CSV. This project models the decoding core of `pv-scanner.py`
and proves properties of it:

- `formater_ligne` (module `Weight`) decodes a scanned line to a weight
  string with a decimal comma. A 13-character EAN-13 variable-measure code
  carries grams at characters 7..11. A GS1 element string of 26 or more
  characters carries AI 310n at characters 16..25.
- `valeur_formatee_vers_float` (module `Normalize`) reads a weight cell as a
  number. The comma is read as the decimal point, and blank or unparsable
  text reads as 0.0.
- `extraire_dlc_from_scan` (module `Expiry`) finds the first AI 15 (YYMMDD)
  match from character 26 on. It renders the date as "DD/MM/YYYY" when the
  calendar has that date.
- The loop of `mettre_a_jour_total` (module `Totals`) sums the non-blank
  weight cells and reports the 1-based row of the first implausible value.
  A value is implausible when it is above 50 kg, or above 0 and below
  0.01 kg.
- The row filter of `creer_csv_fichier` (module `Export`) leaves out rows
  whose two cells are both blank. It writes every other row's text
  unchanged.

Module `Text` holds Python's `str.strip()` and the ASCII digit helpers.
Module `Wrappers` holds `Option`, which stands for Python's `None`.

Python's `float` values are modelled as exact `real`s. The parser accepts:

- an optional sign;
- digits with at most one point;
- at least one digit.

The tests `valeur > 50` and `valeur > 0 and valeur < 0.01`, and the sum
`total += valeur`, are evaluated on these exact values. The program evaluates
them on doubles, so near the limits the two can differ. For example,
"0,00999999999999999999" rounds to the double 0.01 and is not flagged, while
its exact value is below 0.01 and is flagged here (see "## Left out").

Points where the code does less, or other, than its own comments say; the
model follows the code:

- The docstring of `formater_ligne` (pv-scanner.py:23-24) promises a weight
  "avec une virgule décimale". AI 3100 gives the six digits with no comma.
- Neither layout checks that the weight characters are digits. A
  13-character line with `-1234` at characters 7..11 decodes to "-1,234",
  which reads as -1.234. So a decoded weight does not always read as a
  non-negative number, and `Normalize.NegativeCommaDecimalValue` states the
  negative case.
- The guards `len(extrait) >= 5` (line 37) and `len(n) > 6 - k` (lines
  49-53) always hold, because the slices they test always have length 5
  and 6. The model keeps them, and the contracts show they never reject
  input.

## Model

| member | source | states |
|---|---|---|
| Weight.FormatLine | pv-scanner.py:21-58 | A missing line gives None. A line whose stripped form has 13 characters gives characters 7..8, a comma, then characters 9..11, and is never None. Any other length below 26 gives None. From 26 characters on, the result exists exactly when characters 16..18 are "310" and character 19 is '0'..'5'. Every result has 6 or 7 characters. |
| Weight.DecodeWeight | pv-scanner.py:35-58 | The layout dispatch on the stripped line, with the same cases as FormatLine. |
| Weight.ShortWeight | pv-scanner.py:35-39 | The 13-character layout always decodes, as characters 7..8, a comma, then characters 9..11. |
| Weight.NetWeight | pv-scanner.py:40-58 | The AI 310n branch decodes exactly when the code is 3100..3105. The result is the six digits at 20..25, with a comma before the last n of them when n > 0. |
| Weight.DecimalsFor | pv-scanner.py:47-56 | The format-code table knows a code exactly when it is "310" followed by a digit 0..5. That digit is the number of decimals. |
| Weight.InsertDecimal | pv-scanner.py:48-53 | A formatter gives a result exactly when k = 0 or the run is longer than 6 - k. With k = 0 the run is unchanged. Otherwise the comma sits at position 6 - k, and removing it gives the run back. |
| Weight.NetWeightLayout | pv-scanner.py:42-58 | With code 310k, the decoded weight is the six digits after the code, split by a comma before the last k of them. |
| Weight.DecodeOnce | pv-scanner.py:21-58 | Decoding a decoded weight gives None, because 6 or 7 characters match neither layout. |
| Weight.ShortLayoutExample | pv-scanner.py:35-38 | "1234567890123" decodes to "89,012". |
| Weight.NetWeightExample | pv-scanner.py:42-58 | A 26-character line with "3103123456" at 16..25 decodes to "123,456". |
| Normalize.ToNumber | pv-scanner.py:61-75 | A missing value, or one that is all whitespace, reads as 0.0. Any other text is stripped of surrounding whitespace and then read. |
| Normalize.PaddedExample | pv-scanner.py:68-75 | " 2,345" reads as "2,345" does. |
| Normalize.ToNumberOfTrimmed | pv-scanner.py:68-75 | Text without surrounding whitespace is read as it stands: commas become points, then the text is parsed, with 0.0 on failure. |
| Normalize.ReplaceCommas | pv-scanner.py:71 | The length is kept and no comma remains. Each comma becomes a point and every other character is unchanged. |
| Normalize.ParseUnsignedShape | pv-scanner.py:73 | Only non-empty text made of digits and points parses as an unsigned number. |
| Normalize.SignedValue | pv-scanner.py:73 | A leading '+' leaves the parse unchanged. A leading '-' negates it, and text that fails to parse still fails. |
| Normalize.MinusNegates | pv-scanner.py:71-75 | A cell with a leading '-' reads as minus the rest of the cell, where the rest reading 0.0 gives 0.0. |
| Normalize.DecimalValue | pv-scanner.py:73 | "whole.fraction" parses as the digits of whole and fraction, read as one integer and divided by 10^\|fraction\|. |
| Normalize.CommaDecimalValue | pv-scanner.py:71-73 | "whole,fraction" reads as the same number as "whole.fraction". |
| Normalize.NegativeCommaDecimalValue | pv-scanner.py:71-73 | "-whole,fraction" reads as minus that number. |
| Normalize.PlainDigitsValue | pv-scanner.py:71-73 | A run of digits reads as the integer it denotes. |
| Normalize.NoCommaUnchanged | pv-scanner.py:71 | Text without a comma is left alone by the replacement. |
| Normalize.ShortWeightValue | pv-scanner.py:35-38 | The 13-character layout's weight string reads as characters 7..11, taken as grams, in kilograms (scaled down by 10^3). |
| Normalize.WholeKilogramsValue | pv-scanner.py:48 | AI 3100's weight string reads as the six digits in whole kilograms. |
| Normalize.FractionalKilogramsValue | pv-scanner.py:49-53 | AI 310n's weight string, with n in 1..5, reads as the six digits divided by 10^n. |
| Normalize.SplitDigitsValue | pv-scanner.py:49-53 | A digit run with a comma at p reads as the run divided by 10^(length - p). |
| Normalize.CommaExample | pv-scanner.py:71-73 | "1,5" reads as 1.5. |
| Normalize.ZeroExamples | pv-scanner.py:66-75 | A missing cell, "", " \t" and "abc" each read as 0.0. |
| Expiry.ExtractExpiry | pv-scanner.py:78-106 | A missing text gives None, and so does a stripped text of 26 characters or fewer. Any date found has 10 characters and reads back as a valid date of 2000..2099. |
| Expiry.ExpiryOf | pv-scanner.py:91-106 | The decoder on a stripped line, with the same None case and the same shape of success. |
| Expiry.ExtractTrimmed | pv-scanner.py:90 | A line without surrounding whitespace is decoded as it stands. |
| Expiry.FindFrom | pv-scanner.py:94 | The search returns the leftmost position holding "15" and six digits, and None only when no position does. |
| Expiry.ExpiryOfFirstMatch | pv-scanner.py:93-106 | The leftmost match from character 26 decides. Its pairs are reordered as DD/MM/20YY when they form a real date, and the result is None otherwise. A later match is never used. |
| Expiry.MatchedDate | pv-scanner.py:97-106 | The matched YYMMDD converts to a date exactly when (2000+YY, MM, DD) is valid. That date renders as DD/MM/20YY with the scanned pairs carried through. |
| Expiry.DateOf | pv-scanner.py:98-103 | A converted date is a valid calendar date in 2000..2099. |
| Expiry.RenderedPairs | pv-scanner.py:99-106 | Rendering a date read from digit pairs gives the same pairs back. |
| Expiry.ExpiryWithoutMatch | pv-scanner.py:94-96 | With no match from character 26 on, there is no date. |
| Expiry.ExpiryIgnoresPrefix | pv-scanner.py:91-94 | Only characters 26 on are searched. Two lines that agree there decode alike. |
| Expiry.ExpiryAfterPrefix | pv-scanner.py:90-106 | 26 characters, then "15", six digits and any tail, decode to what those six digits give. |
| Expiry.ShortTailNoDate | pv-scanner.py:91-96 | A line without surrounding whitespace and shorter than 34 characters has no date: there is no room for "15" and six digits from character 26 on. |
| Expiry.DaysInMonth | pv-scanner.py:103 | A month has 28 to 31 days. It has 29 exactly in February of a leap year, 30 exactly in April, June, September and November, and 31 exactly in January, March, May, July, August, October and December. |
| Expiry.CenturyLeapYears | pv-scanner.py:102-103 | In 2000..2099, 20YY is a leap year exactly when YY is a multiple of 4. |
| Expiry.Render | pv-scanner.py:106 | The rendering has 10 characters, with slashes at positions 2 and 5. |
| Expiry.ParseRendered | pv-scanner.py:106 | Reading "DD/MM/YYYY" back gives fields within the padded widths. |
| Expiry.RenderRoundTrip | pv-scanner.py:106 | Reading a rendered date back gives the date. |
| Expiry.ParseRoundTrip | pv-scanner.py:106 | Every readable "DD/MM/YYYY" is the rendering of the date it reads as. |
| Expiry.ValidDateExample | pv-scanner.py:93-106 | "15230228" at character 26 gives "28/02/2023". |
| Expiry.LeapDayExample | pv-scanner.py:102-106 | "15240229" at character 26 gives "29/02/2024". |
| Expiry.InvalidDateExample | pv-scanner.py:103-105 | "15230230" at character 26 gives None. |
| Expiry.AprilThirtyFirstExample | pv-scanner.py:103-105 | "15230431" at character 26 gives None: April has 30 days. |
| Expiry.DayZeroExample | pv-scanner.py:103-105 | "15230200" at character 26 gives None: there is no day 00. |
| Expiry.MayThirtyFirstExample | pv-scanner.py:103-106 | "15230531" at character 26 gives "31/05/2023". |
| Expiry.LeftmostMatchExample | pv-scanner.py:94-105 | "1523130115230228" at character 26 gives None. The first match has month 13, and the valid date after it is not used. |
| Expiry.EarlyMatchExample | pv-scanner.py:91-96 | A valid date pattern at character 20 of a 38-character line is not found, because characters 26 on hold no match. |
| Totals.Aggregate | pv-scanner.py:482-498 | The total is the sum of the non-blank values, anomalous ones included. There is no report exactly when no value is anomalous. A report names the 1-based row of the first anomalous value. |
| Totals.UpdateTotal | pv-scanner.py:482-498 | The same facts over the weight column, with each cell read as the loop reads it. |
| Totals.CellValue | pv-scanner.py:485-495 | A cell counts as blank exactly when it is missing or all whitespace. |
| Totals.CellValues | pv-scanner.py:484-485 | The column is read cell by cell, keeping the row order. |
| Totals.SumAppend | pv-scanner.py:498 | The total of two stretches of rows is the sum of their totals. |
| Totals.BlankRowIgnored | pv-scanner.py:486-490 | A blank row adds nothing to the total. |
| Totals.ReportedRowIsKept | pv-scanner.py:496-497 | Rows after a reported anomaly never change the reported row. |
| Totals.ReportedRowAfterCleanPrefix | pv-scanner.py:484-498 | After clean rows, the reported row is the one the later rows report on their own, shifted by the number of clean rows. |
| Totals.FirstAnomalyRowUnique | pv-scanner.py:496-497 | The loop reports the first anomalous row, whichever row that is. |
| Totals.AggregationExample | pv-scanner.py:482-498 | The values 3.0, 0.005 and 10.0 give a total of 13.005 and report row 2. |
| Totals.DecodedCell | pv-scanner.py:488-493 | A non-blank cell whose stripped text decodes counts as the decoded weight read as a number, whitespace inside the decoded weight included. |
| Totals.UndecodedCell | pv-scanner.py:488-495 | A non-blank cell whose stripped text does not decode counts as that stripped text read as a number. |
| Totals.StoredWeightCell | pv-scanner.py:491-495 | A weight already stored as "whole,fraction", as the handlers store it, is too short to decode and counts as its digits scaled down by 10^\|fraction\|. |
| Totals.ShortScanCell | pv-scanner.py:488-493 | A 13-character scan counts as characters 7..11, taken as grams, in kilograms (scaled down by 10^3). |
| Export.CsvRows | pv-scanner.py:659-667 | Every written row has two fields and is not blank. Every non-blank table row is written. At most as many rows are written as the table has. |
| Export.CsvRowsAppend | pv-scanner.py:660-667 | Writing a table in two parts writes the parts' rows one after the other. |
| Export.CsvRowsCount | pv-scanner.py:659-667 | The number of rows written is the number of non-blank rows. |
| Export.CsvRowsSingle | pv-scanner.py:665-667 | A one-row table writes its row unless that row is blank. |
| Export.BlankRowSkipped | pv-scanner.py:665-666 | A blank row is left out, and the rows around it are written as they would be without it. |
| Export.RowWrittenInPlace | pv-scanner.py:663-667 | A non-blank row is written in its place. Its cells' text is unchanged, and a missing cell is written as "". |
| Export.VerbatimExample | pv-scanner.py:663-667 | " 1,5 " and a missing date are written as " 1,5 " and "". |
| Text.Strip | pv-scanner.py:34 | The strip is the middle slice that IsStripOf describes: whitespace before and after it, none at its ends. |
| Text.StripUnique | pv-scanner.py:34 | IsStripOf has one solution, so it describes strip completely. |
| Text.StripIdempotent | pv-scanner.py:34 | Stripping twice is stripping once. |
| Text.StripOfTrimmed | pv-scanner.py:34 | Text without whitespace at its ends is its own strip. |
| Text.StripEmpty | pv-scanner.py:68-69 | The strip is "" exactly when the text is all whitespace. |
| Text.FixedDigitsOfNatOf | pv-scanner.py:106 | Zero-padded rendering at a digit string's width gives the string back. |
| Text.NatOfAppend | pv-scanner.py:99-101 | The digits of the first string count 10^(length of the second) times what they count alone. |

## Left out

- The Qt interface is not modelled: the window, the scan field, the sound,
  message boxes and focus handling.
- File I/O is not modelled. Neither are CSV quoting, the header write,
  the utf-8-sig encoding and `resource_path`. The export is modelled as the
  list of rows written.
- Python's Unicode whitespace and digit classes are not modelled. `strip`,
  `\d` and `int` are modelled on ASCII only.
- Normalize.ToNumber: spellings that `float()` accepts beyond an optional
  sign and a decimal numeral read as 0.0 here. These are exponents, "inf",
  "nan" and digit underscores. IEEE rounding is not modelled either:
  values are exact reals.
- Expiry.ExtractExpiry: the century is fixed at 2000, as in the code. Dates
  from 2100 on are outside the model, as they are outside the program.
- Totals.UpdateTotal: the `f"{total:.3f}"` display and the error message box
  are not modelled. Only the total and the reported row are.
- The scan handlers that store decoded weights and dates in the table
  (the calls at lines 143/150, 378/384 and 452/457) are not modelled. They
  call only `formater_ligne` and `extraire_dlc_from_scan`, which are
  modelled; `valeur_formatee_vers_float` is called only at lines 493 and 495.
