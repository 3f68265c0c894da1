/**
 * The document sync (`POST /api/sync_docx`): fetch the roster document,
 * take its extracted text line by line, split each line into cells on a
 * comma, a full-width comma or a tab, drop empty cells, and upsert every
 * line with five cells and an English name of at least two characters.
 */
module SyncDocx {
  import opened JsString
  import opened Wrappers
  import opened Collections
  import opened Roster
  import opened PrizeRows

  /** `/,|，|\t/` */
  const CellSeparators: set<char> := {',', '，', '\t'}
  const MinEnglishLength := 2
  const FetchFailedPrefix := "Failed to fetch DOCX: "

  datatype Response =
    | MethodNotAllowed                                     // 405
    | ServerError(message: string)                         // 500
    | Synced(updated: nat, debugFirstLine: Option<string>) // 200

  /** `text.split('\n').map(l => l.trim()).filter(Boolean)` */
  function DocLines(text: string): (lines: seq<string>)
    ensures forall k :: 0 <= k < |lines| ==> lines[k] != [] && IsTrimmed(lines[k])
  {
    var trimmed := TrimAll(Split(text, {'\n'}));
    var lines := NonEmpty(trimmed);
    assert forall k :: 0 <= k < |lines| ==> lines[k] in trimmed;
    lines
  }

  /** `line.split(/,|，|\t/).map(p => p.trim()).filter(p => p !== "")` */
  function Cells(line: string): (cols: seq<string>)
    ensures forall k :: 0 <= k < |cols| ==> cols[k] != [] && IsTrimmed(cols[k])
  {
    var trimmed := TrimAll(Split(line, CellSeparators));
    var cols := NonEmpty(trimmed);
    assert forall k :: 0 <= k < |cols| ==> cols[k] in trimmed;
    cols
  }

  /** At least `MinEnglishLength` (two) characters, stated without the
      length, which keeps the solver's arithmetic small. */
  predicate LongName(s: string) {
    s != [] && s[1..] != []
  }

  lemma LongNameIsLength(s: string)
    ensures LongName(s) <==> |s| >= MinEnglishLength
  {
  }

  /** What one line contributes: its row when it has five cells and an
      English name of at least two characters. */
  function Candidate(line: string): seq<PrizeRow> {
    var cols := Cells(line);
    if |cols| >= MinCells && LongName(cols[3]) then [RowOf(cols)] else []
  }

  function SyncRows(lines: seq<string>): seq<PrizeRow> {
    FlatMap(lines, Candidate)
  }

  lemma SyncRowsSnoc(lines: seq<string>, i: nat)
    requires i < |lines|
    ensures SyncRows(lines[..i + 1]) == SyncRows(lines[..i]) + Candidate(lines[i])
  {
    assert lines[..i + 1] == lines[..i] + [lines[i]];
    FlatMapSnoc(lines[..i], lines[i], Candidate);
  }

  lemma SyncRowsStep(lines: seq<string>, i: nat, candidate: seq<PrizeRow>)
    requires i < |lines| && candidate == Candidate(lines[i])
    ensures candidate == [] ==> SyncRows(lines[..i + 1]) == SyncRows(lines[..i])
    ensures candidate != [] ==> SyncRows(lines[..i + 1]) == SyncRows(lines[..i]) + candidate
    ensures |candidate| <= 1
  {
    SyncRowsSnoc(lines, i);
    assert SyncRows(lines[..i]) + [] == SyncRows(lines[..i]);
  }

  /** `lines[0]`, absent from the answer when there is no line. */
  function FirstLine(lines: seq<string>): Option<string> {
    if lines == [] then None else Some(lines[0])
  }

  /** One pass of the line loop: the cells, the candidate test and the
      English-name test, whose failure is the loop's `continue`. */
  method CandidateOf(line: string) returns (candidate: seq<PrizeRow>)
    ensures candidate == Candidate(line)
    ensures |candidate| <= 1
  {
    candidate := [];
    var cols := Cells(line);
    if |cols| >= MinCells {
      var row := RowOf(cols);
      if row.englishName == [] || |row.englishName| < MinEnglishLength { return; }
      candidate := [row];
    }
  }

  /** The line loop, with the English-name test as its `continue`. */
  method UpsertCandidates(lines: seq<string>) returns (upserts: seq<PrizeRow>, updatedCount: nat)
    ensures upserts == SyncRows(lines)
    ensures updatedCount == |upserts|
  {
    upserts, updatedCount := [], 0;
    var i := 0;
    assert lines[..0] == [];
    while i < |lines|
      invariant 0 <= i <= |lines|
      invariant upserts == SyncRows(lines[..i])
      invariant updatedCount == |upserts|
    {
      var candidate := CandidateOf(lines[i]);
      SyncRowsStep(lines, i, candidate);
      if candidate != [] {
        assert candidate == [candidate[0]];
        upserts := upserts + [candidate[0]];
        updatedCount := updatedCount + 1;
      }
      i := i + 1;
    }
    assert lines[..i] == lines;
  }

  /** The handler. The document's extracted text stands for the fetched
      body. */
  method Handle(verb: string, fetch: Fetch) returns (response: Response, upserts: seq<PrizeRow>)
    ensures verb != "POST" ==> response == MethodNotAllowed && upserts == []
    ensures verb == "POST" && fetch.NetworkError? ==> response == ServerError(fetch.message) && upserts == []
    ensures verb == "POST" && fetch.Response? && !OkStatus(fetch.status) ==>
      response == ServerError(FetchFailedPrefix + NatToString(fetch.status) + " " + fetch.statusText)
      && upserts == []
    ensures verb == "POST" && fetch.Response? && OkStatus(fetch.status) ==>
      upserts == SyncRows(DocLines(fetch.body))
      && response == Synced(|upserts|, FirstLine(DocLines(fetch.body)))
  {
    upserts := [];
    if verb != "POST" {
      return MethodNotAllowed, upserts;
    }
    match fetch {
      case NetworkError(m) =>
        response := ServerError(m);
      case Response(status, statusText, body) =>
        if !OkStatus(status) {
          return ServerError(FetchFailedPrefix + NatToString(status) + " " + statusText), upserts;
        }
        var lines := DocLines(body);
        var updated;
        upserts, updated := UpsertCandidates(lines);
        response := Synced(updated, FirstLine(lines));
    }
  }

  // ---------------------------------------------------------------------
  // What the cell splitter does.

  /** A separator cuts a line into two independent halves. */
  lemma CellsConcat(u: string, c: char, v: string)
    requires c in CellSeparators
    ensures Cells(u + [c] + v) == Cells(u) + Cells(v)
  {
    SplitConcat(u, c, v, CellSeparators);
    TrimAllConcat(Split(u, CellSeparators), Split(v, CellSeparators));
    NonEmptyConcat(TrimAll(Split(u, CellSeparators)), TrimAll(Split(v, CellSeparators)));
  }

  /** A cell that is empty or only white space leaves no trace: the cells
      after it move one column to the left. */
  lemma BlankCellShiftsColumns(u: string, c: char, w: string, d: char, v: string)
    requires c in CellSeparators && d in CellSeparators
    requires IsBlank(w) && forall i :: 0 <= i < |w| ==> w[i] !in CellSeparators
    ensures Cells(u + [c] + w + [d] + v) == Cells(u) + Cells(v)
  {
    var tail := w + [d] + v;
    assert u + [c] + w + [d] + v == u + [c] + tail;
    CellsConcat(u, c, tail);
    CellsConcat(w, d, v);
    BlankCellVanishes(w);
    assert Cells(tail) == Cells(v);
  }

  lemma BlankCellVanishes(w: string)
    requires IsBlank(w) && forall i :: 0 <= i < |w| ==> w[i] !in CellSeparators
    ensures Cells(w) == []
  {
    SplitWithout(w, CellSeparators);
    assert TrimAll([w]) == [Trim(w)];
  }

  /** By contrast the upload's plain splitter keeps the empty cell in its
      column: its cells always number the commas plus one. */
  lemma PlainSplitKeepsColumns(u: string, v: string)
    ensures |PlainFields(u + [','] + [','] + v)| == |PlainFields(u)| + |PlainFields(v)| + 1
  {
    var w := [','] + v;
    assert u + [','] + [','] + v == u + [','] + w;
    CountInConcat(u + [','], w, {','});
    CountInConcat(u, [','], {','});
    CountInConcat([','], v, {','});
  }

  lemma {:induction false} CountInConcat(a: string, b: string, cs: set<char>)
    ensures CountIn(a + b, cs) == CountIn(a, cs) + CountIn(b, cs)
  {
    if a != [] {
      assert (a + b)[1..] == a[1..] + b;
      CountInConcat(a[1..], b, cs);
    } else {
      assert [] + b == b;
    }
  }

  /** Every synced row has non-empty trimmed cells and an English name of at
      least two characters; a row is counted each time it occurs. */
  lemma SyncRowShape(lines: seq<string>, r: PrizeRow)
    ensures r in SyncRows(lines) <==> exists k :: 0 <= k < |lines| && Candidate(lines[k]) == [r]
    ensures r in SyncRows(lines) ==>
      && |r.englishName| >= MinEnglishLength && IsTrimmed(r.englishName)
      && r.brand != [] && r.chineseName != [] && r.prize != []
  {
    FlatMapMember(lines, Candidate, r);
    forall k | 0 <= k < |lines| ensures r in Candidate(lines[k]) <==> Candidate(lines[k]) == [r] { }
  }

  /** The debug line is the first non-empty trimmed line of the text. */
  lemma FirstLineMeaning(text: string)
    ensures FirstLine(DocLines(text)).Some? ==>
      var l := FirstLine(DocLines(text)).value;
      l != [] && IsTrimmed(l) && l in TrimAll(Split(text, {'\n'}))
    ensures FirstLine(DocLines(text)).None? <==> forall l :: l in Split(text, {'\n'}) ==> IsBlank(l)
  {
    var parts := Split(text, {'\n'});
    var trimmed := TrimAll(parts);
    var lines := DocLines(text);
    assert lines == NonEmpty(trimmed);
    if lines != [] {
      assert lines[0] in trimmed;
      var k :| 0 <= k < |trimmed| && trimmed[k] == lines[0];
      assert parts[k] in parts && !IsBlank(parts[k]);
    } else {
      forall l | l in parts
        ensures IsBlank(l)
      {
        var k :| 0 <= k < |parts| && parts[k] == l;
        assert trimmed[k] !in lines;
      }
    }
  }

  /** The debug line is the trimmed text of the FIRST line that is not
      blank: every line before it is blank. */
  lemma FirstLineIsFirst(text: string)
    ensures FirstLine(DocLines(text)).Some? ==>
      exists k {:trigger FirstNonBlank(Split(text, {'\n'}), k)} ::
        FirstNonBlank(Split(text, {'\n'}), k) && Trim(Split(text, {'\n'})[k]) == FirstLine(DocLines(text)).value
  {
    var parts := Split(text, {'\n'});
    var lines := DocLines(text);
    if FirstLine(lines).Some? {
      assert lines == NonEmpty(TrimAll(parts));
      assert FirstLine(lines) == Some(lines[0]);
      TrimmedFirst(parts);
      var k :| FirstNonBlank(parts, k) && Trim(parts[k]) == lines[0];
      assert FirstNonBlank(parts, k) && Trim(parts[k]) == FirstLine(lines).value;
    }
  }
}
