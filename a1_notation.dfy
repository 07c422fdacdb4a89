/**
 * A1 notation for rectangular ranges of one sheet, restricted to the form
 * the todo store writes: a single-letter column and a row number at each
 * corner, `<col><row>:<col><row>`, e.g. `A2:D2`.
 *
 * RowRange renders the range of one whole record row (columns A to D);
 * ParseRange reads a range back, so that what a rendered string addresses
 * can be stated (RowRangeAddresses).
 */
module A1Notation {
  import opened Wrappers
  import opened Decimal

  /** A range from (startColumn, startRow) to (endColumn, endRow), both inclusive. */
  datatype Range = Range(startColumn: char, startRow: int, endColumn: char, endRow: int)

  /** The first and the last column of a todo row: A holds the id, D the due date. */
  const FirstColumn: char := 'A'
  const LastColumn: char := 'D'

  predicate IsColumnLetter(c: char) {
    'A' <= c <= 'Z'
  }

  /** The number of columns a range spans, counting both ends. */
  function ColumnCount(r: Range): int {
    r.endColumn as int - r.startColumn as int + 1
  }

  /** Position of the first `c` in `s`, or `|s|` when there is none. */
  function IndexOf(s: string, c: char): (k: nat)
    ensures k <= |s|
    ensures k < |s| ==> s[k] == c
    ensures forall j :: 0 <= j < k ==> s[j] != c
    decreases |s|
  {
    if s == [] then 0 else if s[0] == c then 0 else 1 + IndexOf(s[1..], c)
  }

  /** The range string `A{row}:D{row}` built for a single-row write. */
  function RowRange(row: int): (s: string)
    ensures |s| == 2 * |IntToDecimal(row)| + 3
    ensures s[0] == FirstColumn && s[1..1 + |IntToDecimal(row)|] == IntToDecimal(row)
    ensures IndexOf(s, ':') == 1 + |IntToDecimal(row)|
  {
    var x := IntToDecimal(row);
    SeparatorAfterRow(x);
    [FirstColumn] + x + [':', LastColumn] + x
  }

  /** A row number's text holds no ':', so the first ':' ends it. */
  lemma SeparatorAfterRow(x: string)
    requires forall i :: 0 <= i < |x| ==> x[i] != ':'
    ensures IndexOf([FirstColumn] + x + [':', LastColumn] + x, ':') == 1 + |x|
  {
    var s := [FirstColumn] + x + [':', LastColumn] + x;
    var colon := 1 + |x|;
    assert s[colon] == ':';
    forall j | 0 <= j < colon ensures s[j] != ':' {
      if j > 0 { assert s[j] == x[j - 1]; }
    }
  }

  /**
   * Reads `<col><int>:<col><int>`; anything else is None. It is looser than
   * A1 notation: it also reads row numbers below 1 and leading zeros, which
   * address no sheet row (sheet rows are numbered from 1).
   */
  function ParseRange(s: string): (r: Option<Range>)
    ensures r.Some? ==> IsColumnLetter(r.value.startColumn) && IsColumnLetter(r.value.endColumn)
  {
    if |s| < 2 || !IsColumnLetter(s[0]) then None
    else
      var colon := IndexOf(s, ':');
      if colon + 1 >= |s| || !IsColumnLetter(s[colon + 1]) then None
      else
        match (ParseInt(s[1..colon]), ParseInt(s[colon + 2..]))
        case (Some(top), Some(bottom)) => Some(Range(s[0], top, s[colon + 1], bottom))
        case _ => None
  }

  /**
   * The range written for row `row` addresses exactly that one row, from
   * column A to column D: four columns, one per cell of a todo row. Only
   * for `row >= 1` is that a real sheet row; the string is built all the same.
   */
  lemma RowRangeAddresses(row: int)
    ensures ParseRange(RowRange(row)) == Some(Range(FirstColumn, row, LastColumn, row))
    ensures ColumnCount(ParseRange(RowRange(row)).value) == 4
  {
    var x := IntToDecimal(row);
    var s := RowRange(row);
    var colon := 1 + |x|;
    assert s[1..colon] == x;
    assert s[colon + 2..] == x;
    IntRoundTrip(row);
  }

  /** Two rows share a range string only when they are the same row. */
  lemma RowRangeInjective(a: int, b: int)
    requires RowRange(a) == RowRange(b)
    ensures a == b
  {
    RowRangeAddresses(a);
    RowRangeAddresses(b);
  }
}
