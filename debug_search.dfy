/**
 * The diagnostic search (`GET /api/debug_search?name=...&company=...`): the
 * same roster and the same line splitter as the winner lookup, but every
 * row whose name merely contains the search name is logged, with the two
 * company containment tests the lookup would make.
 */
module DebugSearch {
  import opened JsString
  import opened Wrappers
  import opened Roster
  import CsvLine
  import Winner

  datatype Request = Request(verb: string, name: Option<string>, company: Option<string>)

  /** The company comparison of a log entry: both cleaned companies and
      whether each contains the other. */
  datatype CompanyCheck = CompanyCheck(rowCompClean: string, searchCompClean: string, match1: bool, match2: bool)

  /** One logged row: its line index, name and company (absent when the row
      is too short to have one), the search terms, whether the name matches
      exactly, and the company comparison when both companies are
      non-empty. */
  datatype LogEntry = LogEntry(
    rowIndex: nat,
    rowName: string,
    rowCompany: Option<string>,
    searchName: string,
    searchCompany: string,
    exactNameMatch: bool,
    companyCheck: Option<CompanyCheck>)

  datatype Response =
    | MethodNotAllowed              // 405
    | NameRequired                  // 400
    | ServerError(message: string)  // 500
    | Logs(logs: seq<LogEntry>)     // 200

  /** `row[k]`, undefined past the end of the row. */
  function Cell(row: seq<string>, k: nat): Option<string> {
    if k < |row| then Some(row[k]) else None
  }

  /** `text.split('\n').filter(l => l.trim().length > 0)`: no byte-order
      mark removal and no CR LF clean-up. */
  function DebugLines(text: string): seq<string> {
    NonBlank(Split(text, {'\n'}))
  }

  function Check(rowCompany: string, searchCompany: string): CompanyCheck {
    var rowCompClean := RemoveSpaces(ToLower(rowCompany));
    var searchCompClean := RemoveSpaces(ToLower(searchCompany));
    CompanyCheck(rowCompClean, searchCompClean,
                 Contains(rowCompClean, searchCompClean), Contains(searchCompClean, rowCompClean))
  }

  /** What line `i` pushes onto `logs`. */
  function LineLog(i: nat, line: string, searchName: string, searchCompany: string): seq<LogEntry> {
    var row := CsvLine.Fields(line);
    var rowName := Cell(row, WinnerRoster.nameColumn);
    var rowCompany := Cell(row, WinnerRoster.companyColumn);
    if Truthy(rowName) && Contains(rowName.value, searchName) then
      [LogEntry(i, rowName.value, rowCompany, searchName, searchCompany, rowName.value == searchName,
                if searchCompany != [] && Truthy(rowCompany) then Some(Check(rowCompany.value, searchCompany)) else None)]
    else []
  }

  /** What lines 1 to `n - 1` push, in line order; line 0 is the header. */
  function LogsBefore(lines: seq<string>, n: nat, searchName: string, searchCompany: string): seq<LogEntry>
    requires n <= |lines|
  {
    if n <= 1 then []
    else LogsBefore(lines, n - 1, searchName, searchCompany) + LineLog(n - 1, lines[n - 1], searchName, searchCompany)
  }

  function AllLogs(lines: seq<string>, searchName: string, searchCompany: string): seq<LogEntry> {
    LogsBefore(lines, |lines|, searchName, searchCompany)
  }

  /** One pass of the row loop: the entry is built with its fixed fields,
      then given the company comparison when both companies are
      non-empty. */
  method LogLine(i: nat, line: string, searchName: string, searchCompany: string) returns (pushed: seq<LogEntry>)
    ensures pushed == LineLog(i, line, searchName, searchCompany)
  {
    pushed := [];
    var row := CsvLine.ParseCsvLine(line);
    var rowName := Cell(row, WinnerRoster.nameColumn);
    var rowCompany := Cell(row, WinnerRoster.companyColumn);
    if Truthy(rowName) && Contains(rowName.value, searchName) {
      var logEntry := LogEntry(i, rowName.value, rowCompany, searchName, searchCompany,
                               rowName.value == searchName, None);
      if searchCompany != [] && Truthy(rowCompany) {
        var rowCompClean := RemoveSpaces(ToLower(rowCompany.value));
        var searchCompClean := RemoveSpaces(ToLower(searchCompany));
        logEntry := logEntry.(companyCheck := Some(CompanyCheck(rowCompClean, searchCompClean,
          Contains(rowCompClean, searchCompClean), Contains(searchCompClean, rowCompClean))));
      }
      pushed := [logEntry];
    }
  }

  /** The row loop, from line 1. */
  method ScanLogs(lines: seq<string>, searchName: string, searchCompany: string) returns (logs: seq<LogEntry>)
    ensures logs == AllLogs(lines, searchName, searchCompany)
  {
    logs := [];
    var i := 1;
    while i < |lines|
      invariant 1 <= i
      invariant lines != [] ==> i <= |lines| && logs == LogsBefore(lines, i, searchName, searchCompany)
      invariant lines == [] ==> logs == []
    {
      var pushed := LogLine(i, lines[i], searchName, searchCompany);
      logs := logs + pushed;
      i := i + 1;
    }
  }

  /** The handler: the method and name checks, then the scan. The response
      status is not looked at. */
  method Handle(request: Request, fetch: Fetch) returns (response: Response)
    ensures request.verb != "GET" ==> response == MethodNotAllowed
    ensures request.verb == "GET" && !Truthy(request.name) ==> response == NameRequired
    ensures request.verb == "GET" && Truthy(request.name) ==>
      response == match fetch
        case NetworkError(m) => ServerError(m)
        case Response(_, _, body) =>
          Logs(AllLogs(DebugLines(body), Trim(request.name.value), Winner.SearchCompany(request.company)))
  {
    if request.verb != "GET" {
      return MethodNotAllowed;
    }
    if !Truthy(request.name) {
      return NameRequired;
    }
    match fetch {
      case NetworkError(m) =>
        response := ServerError(m);
      case Response(_, _, body) =>
        var lines := DebugLines(body);
        var searchName := Trim(request.name.value);
        var searchCompany := Winner.SearchCompany(request.company);
        var logs := ScanLogs(lines, searchName, searchCompany);
        response := Logs(logs);
    }
  }

  // ---------------------------------------------------------------------
  // What the log says.

  /** A line is logged exactly when its field 8 exists, is non-empty and
      contains the search name; the entry records the line index, whether
      the name is an exact match, and the company comparison exactly when
      both companies are non-empty. */
  lemma LineLogMeaning(i: nat, line: string, searchName: string, searchCompany: string, e: LogEntry)
    ensures |LineLog(i, line, searchName, searchCompany)| <= 1
    ensures var row := CsvLine.Fields(line);
      LineLog(i, line, searchName, searchCompany) == [e] <==>
        && |row| > WinnerRoster.nameColumn
        && row[WinnerRoster.nameColumn] != []
        && Contains(row[WinnerRoster.nameColumn], searchName)
        && e == LogEntry(i, row[WinnerRoster.nameColumn], Cell(row, WinnerRoster.companyColumn),
                         searchName, searchCompany, e.exactNameMatch, e.companyCheck)
        && (e.exactNameMatch <==> row[WinnerRoster.nameColumn] == searchName)
        && (e.companyCheck.Some? <==>
              searchCompany != [] && |row| > WinnerRoster.companyColumn && row[WinnerRoster.companyColumn] != [])
        && (e.companyCheck.Some? ==> e.companyCheck.value == Check(row[WinnerRoster.companyColumn], searchCompany))
  {
  }

  /** The comparison: `match1` says the cleaned row company contains the
      cleaned search company, `match2` the reverse. */
  lemma CheckMeaning(rowCompany: string, searchCompany: string)
    ensures var c := Check(rowCompany, searchCompany);
      && c.rowCompClean == Winner.CleanCompany(rowCompany)
      && c.searchCompClean == Winner.CleanCompany(searchCompany)
      && (c.match1 <==> Contains(c.rowCompClean, c.searchCompClean))
      && (c.match2 <==> Contains(c.searchCompClean, c.rowCompClean))
      && (forall k :: 0 <= k < |c.rowCompClean| ==> !IsSpace(c.rowCompClean[k]))
  {
  }

  lemma LogsBeforeSnoc(lines: seq<string>, n: nat, searchName: string, searchCompany: string)
    requires 1 <= n < |lines|
    ensures LogsBefore(lines, n + 1, searchName, searchCompany)
         == LogsBefore(lines, n, searchName, searchCompany) + LineLog(n, lines[n], searchName, searchCompany)
  {
  }

  /** A line pushes at most one entry, and it carries the line's index. */
  lemma LineLogShape(i: nat, line: string, searchName: string, searchCompany: string)
    ensures var pushed := LineLog(i, line, searchName, searchCompany);
      |pushed| <= 1 && (pushed != [] ==> pushed[0].rowIndex == i)
  {
  }

  /** `e` is what data line `e.rowIndex` pushes, and that line comes
      before line `n`. */
  predicate PushedBy(lines: seq<string>, n: nat, e: LogEntry, searchName: string, searchCompany: string) {
    && 1 <= e.rowIndex < n
    && e.rowIndex < |lines|
    && LineLog(e.rowIndex, lines[e.rowIndex], searchName, searchCompany) == [e]
  }

  /** Every entry comes from a data line (never line 0), and the entry is
      what that line pushes. */
  lemma {:induction false} LogsFromDataLines(lines: seq<string>, n: nat, searchName: string, searchCompany: string)
    requires n <= |lines|
    ensures forall j :: 0 <= j < |LogsBefore(lines, n, searchName, searchCompany)| ==>
      PushedBy(lines, n, LogsBefore(lines, n, searchName, searchCompany)[j], searchName, searchCompany)
  {
    if n > 1 {
      LogsFromDataLines(lines, n - 1, searchName, searchCompany);
      var prefix := LogsBefore(lines, n - 1, searchName, searchCompany);
      var pushed := LineLog(n - 1, lines[n - 1], searchName, searchCompany);
      LineLogShape(n - 1, lines[n - 1], searchName, searchCompany);
      var logs := prefix + pushed;
      assert LogsBefore(lines, n, searchName, searchCompany) == logs;
      forall j | 0 <= j < |logs| ensures PushedBy(lines, n, logs[j], searchName, searchCompany) {
        if j < |prefix| {
          assert logs[j] == prefix[j];
          assert PushedBy(lines, n - 1, prefix[j], searchName, searchCompany);
        } else {
          assert logs[j] == pushed[0] && pushed == [pushed[0]];
        }
      }
    }
  }

  /** The entries are in line order, so no line is logged twice. */
  lemma {:induction false} LogsInRosterOrder(lines: seq<string>, n: nat, searchName: string, searchCompany: string)
    requires n <= |lines|
    ensures forall j, k :: 0 <= j < k < |LogsBefore(lines, n, searchName, searchCompany)| ==>
      LogsBefore(lines, n, searchName, searchCompany)[j].rowIndex
        < LogsBefore(lines, n, searchName, searchCompany)[k].rowIndex
  {
    if n > 1 {
      LogsInRosterOrder(lines, n - 1, searchName, searchCompany);
      LogsFromDataLines(lines, n - 1, searchName, searchCompany);
      var prefix := LogsBefore(lines, n - 1, searchName, searchCompany);
      var pushed := LineLog(n - 1, lines[n - 1], searchName, searchCompany);
      LineLogShape(n - 1, lines[n - 1], searchName, searchCompany);
      var logs := prefix + pushed;
      assert LogsBefore(lines, n, searchName, searchCompany) == logs;
      forall j, k | 0 <= j < k < |logs| ensures logs[j].rowIndex < logs[k].rowIndex {
        assert logs[j] == prefix[j];
        if k < |prefix| {
          assert logs[k] == prefix[k];
        } else {
          assert logs[k] == pushed[0];
        }
      }
    }
  }

  /** Every data line that qualifies is logged. */
  lemma {:induction false} LogsComplete(lines: seq<string>, n: nat, searchName: string, searchCompany: string, k: nat)
    requires n <= |lines| && 1 <= k < n
    requires LineLog(k, lines[k], searchName, searchCompany) != []
    ensures LineLog(k, lines[k], searchName, searchCompany)[0] in LogsBefore(lines, n, searchName, searchCompany)
  {
    var e := LineLog(k, lines[k], searchName, searchCompany)[0];
    var rest := LogsBefore(lines, n - 1, searchName, searchCompany);
    var last := LineLog(n - 1, lines[n - 1], searchName, searchCompany);
    assert LogsBefore(lines, n, searchName, searchCompany) == rest + last;
    if k < n - 1 {
      LogsComplete(lines, n - 1, searchName, searchCompany, k);
      assert e in rest;
    } else {
      assert last[0] == e;
    }
  }

  /** Line 0 is never read: replacing it changes no entry. */
  lemma {:induction false} HeaderIgnored(lines: seq<string>, n: nat, header: string, searchName: string, searchCompany: string)
    requires 1 <= n <= |lines|
    ensures LogsBefore(lines[0 := header], n, searchName, searchCompany) == LogsBefore(lines, n, searchName, searchCompany)
  {
    if n > 1 {
      HeaderIgnored(lines, n - 1, header, searchName, searchCompany);
    }
  }

  /** The log agrees with the winner lookup: for a row of the winner
      roster's width and the same company parameter, the lookup keeps the
      row exactly when it is logged as an exact name match whose company
      comparison, when made, holds one way or the other. */
  lemma AgreesWithWinner(i: nat, line: string, searchName: string, company: Option<string>)
    requires |CsvLine.Fields(line)| >= WinnerRoster.minColumns
    ensures Winner.RowMatches(CsvLine.Fields(line), searchName, Winner.SearchCompany(company)) <==>
      var log := LineLog(i, line, searchName, Winner.SearchCompany(company));
      && log != []
      && log[0].exactNameMatch
      && (log[0].companyCheck.Some? ==> log[0].companyCheck.value.match1 || log[0].companyCheck.value.match2)
  {
    if Truthy(company) {
      Winner.LowerIdempotent(Trim(company.value));
    }
    var row := CsvLine.Fields(line);
    var name := row[WinnerRoster.nameColumn];
    ContainsAt(name, name, 0);
    assert name[0..] == name;
  }

  /** A line that still ends in the carriage return of a CR LF line ending
      is logged exactly as the same line without it: trimming the last
      field removes it, so the missing clean-up is harmless. */
  lemma CarriageReturnHarmless(i: nat, line: string, searchName: string, searchCompany: string)
    ensures LineLog(i, line + "\r", searchName, searchCompany) == LineLog(i, line, searchName, searchCompany)
  {
    CsvLine.TrailingSpaceIgnored(line, '\r');
  }
}
