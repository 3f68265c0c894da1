/**
 * The prize-roster tuples written by the seeding, upload and document-sync
 * handlers, and the plain comma splitter the seeding and upload handlers
 * share: lines of `brand, department, Chinese name, English name, prize`.
 */
module PrizeRows {
  import opened JsString
  import opened Collections

  /** One row for the `prizes` table, keyed by `englishName`. */
  datatype PrizeRow = PrizeRow(brand: string, chineseName: string, englishName: string, prize: string)

  /** A row needs five cells; cell 1 (the department) is unused. */
  const MinCells := 5

  /** Cells 0, 2, 3 and 4 of a row. */
  function RowOf(cols: seq<string>): (r: PrizeRow)
    requires |cols| >= MinCells
    ensures r.brand == cols[0] && r.chineseName == cols[2]
    ensures r.englishName == cols[3] && r.prize == cols[4]
  {
    PrizeRow(cols[0], cols[2], cols[3], cols[4])
  }

  /** `text.trim().split('\n')` */
  function TextLines(text: string): seq<string> {
    Split(Trim(text), {'\n'})
  }

  /** `row.split(',').map(s => s.trim())`: no quote handling, and empty
      cells keep their place. */
  function PlainFields(line: string): (cols: seq<string>)
    ensures |cols| == CountIn(line, {','}) + 1
    ensures forall k :: 0 <= k < |cols| ==> IsTrimmed(cols[k])
  {
    var pieces := Split(line, {','});
    assert |pieces| == CountIn(line, {','}) + 1 by { SplitCount(line, {','}); }
    TrimAll(pieces)
  }

  /** The row filter: a non-blank line with at least five cells and a
      non-empty English name. */
  function LineRow(line: string): seq<PrizeRow> {
    if IsBlank(line) then []
    else
      var cols := PlainFields(line);
      if |cols| < MinCells || cols[3] == [] then [] else [RowOf(cols)]
  }

  /** The filter as the loops write it, with an early exit per test;
      returns the row or nothing. */
  method AcceptLine(line: string) returns (accepted: seq<PrizeRow>)
    ensures accepted == LineRow(line)
    ensures |accepted| <= 1
  {
    accepted := [];
    if IsBlank(line) { return; }
    var cols := PlainFields(line);
    if |cols| < MinCells { return; }
    var row := RowOf(cols);
    if row.englishName == [] { return; }
    accepted := [row];
  }

  /** The rows the filter accepts, in line order. */
  function AcceptedRows(lines: seq<string>): seq<PrizeRow> {
    FlatMap(lines, LineRow)
  }

  /** The English names of `rows`, in order. */
  function EnglishNames(rows: seq<PrizeRow>): (names: seq<string>)
    ensures |names| == |rows|
    ensures forall i :: 0 <= i < |rows| ==> names[i] == rows[i].englishName
  {
    if rows == [] then [] else EnglishNames(rows[..|rows| - 1]) + [rows[|rows| - 1].englishName]
  }

  /** A line yields a row exactly when it is not blank, has at least five
      comma-separated cells and a non-empty English name; the row holds the
      trimmed cells 0, 2, 3 and 4. */
  lemma LineRowMeaning(line: string, r: PrizeRow)
    ensures |LineRow(line)| <= 1
    ensures LineRow(line) == [r] <==>
      && !IsBlank(line)
      && CountIn(line, {','}) >= 4
      && r == RowOf(PlainFields(line))
      && r.englishName != []
  {
  }

  /** Every accepted row comes from some line and has a non-empty, trimmed
      English name. */
  lemma AcceptedRowsShape(lines: seq<string>, r: PrizeRow)
    ensures r in AcceptedRows(lines) <==> exists k :: 0 <= k < |lines| && LineRow(lines[k]) == [r]
    ensures r in AcceptedRows(lines) ==> r.englishName != [] && IsTrimmed(r.englishName)
  {
    FlatMapMember(lines, LineRow, r);
    forall k | 0 <= k < |lines| ensures r in LineRow(lines[k]) <==> LineRow(lines[k]) == [r] {
      LineRowMeaning(lines[k], r);
    }
  }

  lemma AcceptedRowsSnoc(lines: seq<string>, i: nat)
    requires i < |lines|
    ensures AcceptedRows(lines[..i + 1]) == AcceptedRows(lines[..i]) + LineRow(lines[i])
  {
    assert lines[..i + 1] == lines[..i] + [lines[i]];
    FlatMapSnoc(lines[..i], lines[i], LineRow);
  }

  /** One step of a row loop: a rejected line adds nothing, an accepted one
      adds its row. */
  lemma AcceptedRowsStep(lines: seq<string>, i: nat, accepted: seq<PrizeRow>)
    requires i < |lines| && accepted == LineRow(lines[i])
    ensures accepted == [] ==> AcceptedRows(lines[..i + 1]) == AcceptedRows(lines[..i])
    ensures accepted != [] ==> AcceptedRows(lines[..i + 1]) == AcceptedRows(lines[..i]) + accepted
  {
    AcceptedRowsSnoc(lines, i);
    assert AcceptedRows(lines[..i]) + [] == AcceptedRows(lines[..i]);
  }
}
