/**
 The total and first-anomaly rule of `mettre_a_jour_total`: one pass over the
 weight column that sums every non-blank row and remembers the 1-based number
 of the first row whose value is implausible (above 50 kg, or above zero but
 below 0.01 kg).
 */
module Totals {
  import opened Wrappers
  import opened Text
  import Weight
  import Normalize

  /** Values above this many kilograms are reported. */
  const UpperLimit: real := 50.0
  /** Positive values below this many kilograms are reported. */
  const LowerLimit: real := 0.01

  predicate IsImplausible(v: real) {
    v > UpperLimit || (0.0 < v && v < LowerLimit)
  }

  /** A row's value: None for a missing or blank cell. */
  type Cell = Option<real>

  predicate IsAnomalous(cell: Cell) {
    cell.Some? && IsImplausible(cell.value)
  }

  /** The reference total: the values of the non-blank rows added up. */
  function Sum(cells: seq<Cell>): real {
    if |cells| == 0 then 0.0 else cells[0].GetOr(0.0) + Sum(cells[1..])
  }

  /** `row` (1-based) is the first anomalous row. */
  predicate IsFirstAnomalyRow(cells: seq<Cell>, row: nat) {
    && 1 <= row <= |cells|
    && IsAnomalous(cells[row - 1])
    && forall j :: 0 <= j < row - 1 ==> !IsAnomalous(cells[j])
  }

  /** The loop's two accumulators: `total` and `premiere_ligne_erreur`. */
  datatype Summary = Summary(total: real, firstError: Option<nat>)

  /** One iteration of the loop, for the row with 0-based index `r`. */
  function Step(acc: Summary, r: nat, cell: Cell): Summary {
    match cell
    case None => acc
    case Some(v) =>
      var firstError := if IsImplausible(v) && acc.firstError.None? then Some(r + 1) else acc.firstError;
      Summary(acc.total + v, firstError)
  }

  /** The loop over all rows, as a left fold of `Step`. */
  function Aggregate(cells: seq<Cell>): (s: Summary)
    ensures s.total == Sum(cells)
    ensures s.firstError.None? <==> forall j :: 0 <= j < |cells| ==> !IsAnomalous(cells[j])
    ensures s.firstError.Some? ==> IsFirstAnomalyRow(cells, s.firstError.value)
  {
    if |cells| == 0 then
      Summary(0.0, None)
    else
      var prior := cells[..|cells| - 1];
      var last := cells[|cells| - 1];
      SumAppend(prior, [last]);
      assert prior + [last] == cells;
      Step(Aggregate(prior), |cells| - 1, last)
  }

  /** The total of two stretches of rows is the sum of their totals. */
  lemma {:induction false} SumAppend(a: seq<Cell>, b: seq<Cell>)
    ensures Sum(a + b) == Sum(a) + Sum(b)
  {
    if |a| > 0 {
      assert (a + b)[1..] == a[1..] + b;
      SumAppend(a[1..], b);
    } else {
      assert a + b == b;
    }
  }

  /** A blank row adds nothing to the total. */
  lemma BlankRowIgnored(a: seq<Cell>, b: seq<Cell>)
    ensures Aggregate(a + [None] + b).total == Aggregate(a + b).total
  {
    SumAppend(a + [None], b);
    SumAppend(a, [None]);
    SumAppend(a, b);
  }

  /** Later rows never change a row already reported. */
  lemma ReportedRowIsKept(a: seq<Cell>, b: seq<Cell>)
    requires Aggregate(a).firstError.Some?
    ensures Aggregate(a + b).firstError == Aggregate(a).firstError
  {
    var row := Aggregate(a).firstError.value;
    assert forall j :: 0 <= j < |a| ==> (a + b)[j] == a[j];
    FirstAnomalyRowUnique(a + b, row, Aggregate(a + b).firstError);
  }

  /** With no anomaly in `a`, the row reported for `a + b` is the one for `b`, shifted by |a|. */
  lemma ReportedRowAfterCleanPrefix(a: seq<Cell>, b: seq<Cell>)
    requires Aggregate(a).firstError.None?
    ensures Aggregate(a + b).firstError ==
      match Aggregate(b).firstError
      case None => None
      case Some(row) => Some(row + |a|)
  {
    match Aggregate(b).firstError
    case None =>
      forall j | 0 <= j < |a + b|
        ensures !IsAnomalous((a + b)[j])
      {
        if j < |a| {
          assert (a + b)[j] == a[j];
        } else {
          assert (a + b)[j] == b[j - |a|];
        }
      }
    case Some(row) =>
      assert IsFirstAnomalyRow(a + b, row + |a|) by {
        assert (a + b)[row + |a| - 1] == b[row - 1];
        forall j | 0 <= j < row + |a| - 1
          ensures !IsAnomalous((a + b)[j])
        {
          if j < |a| {
            assert (a + b)[j] == a[j];
          } else {
            assert (a + b)[j] == b[j - |a|];
          }
        }
      }
      FirstAnomalyRowUnique(a + b, row + |a|, Aggregate(a + b).firstError);
  }

  /** There is only one first anomalous row. */
  lemma FirstAnomalyRowUnique(cells: seq<Cell>, row: nat, reported: Option<nat>)
    requires IsFirstAnomalyRow(cells, row)
    requires reported == Aggregate(cells).firstError
    ensures reported == Some(row)
  {
  }

  /** Values 3.0, 0.005, 10.0: row 2 is reported and the total is 13.005. */
  lemma AggregationExample()
    ensures Aggregate([Some(3.0), Some(0.005), Some(10.0)]) == Summary(13.005, Some(2))
  {
    var cells := [Some(3.0), Some(0.005), Some(10.0)];
    assert cells[..2] == [Some(3.0), Some(0.005)];
    assert cells[..2][..1] == [Some(3.0)];
    assert [Some(3.0)][..0] == [];
  }

  /** The value of one weight cell as the loop reads it: None for a missing or blank
      cell; otherwise the decoded weight when the text decodes, else the text itself,
      normalised. */
  function CellValue(cell: Option<string>): (v: Cell)
    ensures v.None? <==> cell.None? || AllSpace(cell.value)
  {
    if cell.None? then
      None
    else
      var text := Strip(cell.value);
      StripEmpty(cell.value);
      if text == "" then
        None
      else
        var formatted := Weight.FormatLine(Some(text));
        if formatted.Some? && formatted.value != "" then
          Some(Normalize.ToNumber(formatted))
        else
          Some(Normalize.ToNumber(Some(text)))
  }

  /** `mettre_a_jour_total` on the weight column. */
  function UpdateTotal(column: seq<Option<string>>): (s: Summary)
    ensures s.total == Sum(CellValues(column))
    ensures s.firstError.None? <==> forall j :: 0 <= j < |column| ==> !IsAnomalous(CellValue(column[j]))
    ensures s.firstError.Some? ==>
      var row := s.firstError.value;
      && 1 <= row <= |column|
      && IsAnomalous(CellValue(column[row - 1]))
      && forall j :: 0 <= j < row - 1 ==> !IsAnomalous(CellValue(column[j]))
  {
    Aggregate(CellValues(column))
  }

  /** The weight column read row by row. */
  function CellValues(column: seq<Option<string>>): (cells: seq<Cell>)
    ensures |cells| == |column|
    ensures forall j :: 0 <= j < |column| ==> cells[j] == CellValue(column[j])
  {
    seq(|column|, j requires 0 <= j < |column| => CellValue(column[j]))
  }

  /** A non-blank cell whose stripped text decodes counts as the decoded weight, read as a number. */
  lemma DecodedCell(scan: string, w: string)
    requires !AllSpace(scan) && Weight.DecodeWeight(Strip(scan)) == Some(w)
    ensures CellValue(Some(scan)) == Some(Normalize.ToNumber(Some(w)))
  {
    StripEmpty(scan);
    StripIdempotent(scan);
  }

  /** A non-blank cell whose stripped text does not decode counts as that text, read as a number. */
  lemma UndecodedCell(cell: string)
    requires !AllSpace(cell) && Weight.DecodeWeight(Strip(cell)).None?
    ensures CellValue(Some(cell)) == Some(Normalize.ToNumber(Some(Strip(cell))))
  {
    StripEmpty(cell);
    StripIdempotent(cell);
  }

  /** A weight already stored as "whole,fraction" is too short to decode, so it counts
      as its digits scaled down by 10^|fraction|. */
  lemma StoredWeightCell(whole: string, fraction: string)
    requires AllDigits(whole) && AllDigits(fraction) && |whole| > 0 && |fraction| > 0
    requires |whole| + 1 + |fraction| != Weight.ShortLength && |whole| + 1 + |fraction| < Weight.AiEnd
    ensures AllDigits(whole + fraction)
    ensures CellValue(Some(whole + "," + fraction)) == Some(Normalize.Scaled(NatOf(whole + fraction), |fraction|))
  {
    var s := whole + "," + fraction;
    assert s[0] == whole[0] && s[|s| - 1] == fraction[|fraction| - 1];
    StripOfTrimmed(s);
    UndecodedCell(s);
    Normalize.ToNumberOfTrimmed(s);
    Normalize.CommaDecimalValue(whole, fraction);
  }

  /** A 13-character scan in the weight column counts as its grams in kilograms:
      characters 7..11 scaled down by 10^3. */
  lemma ShortScanCell(scan: string)
    requires |Strip(scan)| == Weight.ShortLength && AllDigits(Strip(scan)[7..12])
    ensures CellValue(Some(scan)) == Some(Normalize.Scaled(NatOf(Strip(scan)[7..12]), 3))
  {
    var s := Strip(scan);
    var w := ShortWeightReading(s);
    StripEmpty(scan);
    DecodedCell(scan, w);
  }

  /** The decoded weight of a 13-character line and the number it reads as. */
  lemma ShortWeightReading(s: string) returns (w: string)
    requires |s| == Weight.ShortLength && AllDigits(s[7..12])
    ensures Weight.DecodeWeight(s) == Some(w) && Normalize.ToNumber(Some(w)) == Normalize.Scaled(NatOf(s[7..12]), 3)
  {
    ShortWeightTrimmed(s);
    Normalize.ShortWeightValue(s);
    w := Weight.DecodeWeight(s).value;
    Normalize.ToNumberOfTrimmed(w);
  }

  /** A 13-character weight with digits in characters 7..11 decodes to text with no surrounding whitespace. */
  lemma ShortWeightTrimmed(s: string)
    requires |s| == Weight.ShortLength && AllDigits(s[7..12])
    ensures Weight.DecodeWeight(s).Some?
    ensures |Weight.DecodeWeight(s).value| > 0 && NoEdgeSpace(Weight.DecodeWeight(s).value)
  {
    var w := s[7..9] + "," + s[9..12];
    assert w[0] == s[7] && w[5] == s[11];
    assert s[7] == s[7..12][0] && s[11] == s[7..12][4];
  }
}
