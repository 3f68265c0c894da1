/**
 * The winner lookup (`GET /api/winner?name=...&company=...`): scan the prize
 * roster, keep the rows whose company loosely matches and whose name matches
 * exactly, compose each row's prize text and join the distinct results.
 */
module Winner {
  import opened JsString
  import opened Wrappers
  import opened Collections
  import opened Roster
  import CsvLine

  /** Columns of the prize roster besides the name and company columns of
      `Roster.WinnerRoster`. */
  const IdColumn := 0
  const ItemColumn := 2
  const BrandColumn := 6
  const AmountColumn := 7

  /** The generic "gift voucher" item text. */
  const VoucherItem := "禮券"
  /** Joins an item and a voucher of one row. */
  const ItemVoucherJoiner := "|||+"
  /** Joins the prizes of several rows. */
  const PrizeJoiner := "|||"
  const IdJoiner := ", "
  const FetchFailedMessage := "Failed to fetch prize list"

  datatype Request = Request(verb: string, name: Option<string>, company: Option<string>)

  datatype Response =
    | MethodNotAllowed                                   // 405
    | NameRequired                                       // 400
    | ServerError(message: string)                       // 500
    | Found(prize: Option<string>, id: Option<string>)   // 200

  /** Lower-case, then remove all white space. */
  function CleanCompany(s: string): string {
    RemoveSpaces(ToLower(s))
  }

  /** `company ? company.trim().toLowerCase() : ''` */
  function SearchCompany(company: Option<string>): string {
    if Truthy(company) then ToLower(Trim(company.value)) else []
  }

  /** The company filter: it applies only when both the search company and the
      row company are non-empty, and then either cleaned text may contain the
      other. */
  predicate CompanyAccepts(searchCompany: string, rowCompany: string) {
    || searchCompany == []
    || rowCompany == []
    || Contains(CleanCompany(rowCompany), RemoveSpaces(searchCompany))
    || Contains(RemoveSpaces(searchCompany), CleanCompany(rowCompany))
  }

  lemma {:induction false} LowerIdempotent(s: string)
    ensures ToLower(ToLower(s)) == ToLower(s)
  {
    if s != [] {
      LowerIdempotent(s[1..]);
      assert ToLower(ToLower(s)) == [LowerChar(LowerChar(s[0]))] + ToLower(ToLower(s[1..]));
    }
  }

  /** The company rule does not care which side is the roster and which the
      search: swapping the two (the search side lower-cased as the handler
      does) gives the same verdict. */
  lemma CompanyAcceptsSymmetric(a: string, b: string)
    ensures CompanyAccepts(ToLower(a), b) <==> CompanyAccepts(ToLower(b), a)
  {
    LowerIdempotent(a);
    LowerIdempotent(b);
    assert CleanCompany(b) == RemoveSpaces(ToLower(b));
    assert CleanCompany(a) == RemoveSpaces(ToLower(ToLower(a)));
    assert ToLower(a) == [] <==> a == [];
    assert ToLower(b) == [] <==> b == [];
  }

  /** The amount as printed: quote characters removed, then trimmed; every
      other character that is not white space, the thousands comma among
      them, is kept as often as it occurs. */
  function AmountText(amount: string): (r: string)
    ensures '\'' !in r && '"' !in r
    ensures IsTrimmed(r)
    ensures forall c :: c != '\'' && c != '"' && !IsSpace(c) ==> multiset(r)[c] == multiset(amount)[c]
  {
    var noQuotes := RemoveChars(amount, {'\'', '"'});
    var r := Trim(noQuotes);
    assert forall c :: c in r ==> c in noQuotes;
    TrimKeepsCounts(noQuotes);
    r
  }

  /** The voucher text of a row: empty when the brand is empty or the "none"
      marker, otherwise the brand, the amount when there is one, and the
      voucher suffix. */
  function Voucher(brand: string, amount: string): (v: string)
    ensures v == [] <==> brand == [] || brand == NoneMarker || Trim(brand) == []
    ensures v != [] ==> brand + " " <= v
    ensures v != [] && (amount == [] || Trim(amount) == "-" || Trim(amount) == []) ==> v == brand + " 禮券"
    ensures v != [] && !(amount == [] || Trim(amount) == "-" || Trim(amount) == []) ==>
      v == brand + " " + AmountText(amount) + "元 禮券"
  {
    if brand != [] && brand != NoneMarker && Trim(brand) != [] then
      if amount != [] && Trim(amount) != "-" && Trim(amount) != [] then
        brand + " " + AmountText(amount) + "元 禮券"
      else
        brand + " 禮券"
    else []
  }

  /** The prize text of one row from its trimmed item and its voucher: the
      voucher replaces the generic voucher item, otherwise both are kept
      around the joiner, or whichever exists alone. */
  function ComposePrize(item: string, voucher: string): (r: string)
    ensures r == [] <==> Trim(item) == [] && voucher == []
    ensures voucher != [] ==> |voucher| <= |r| && r[|r| - |voucher|..] == voucher
    ensures voucher != [] && Trim(item) != VoucherItem && Trim(item) != [] ==>
      r == Trim(item) + ItemVoucherJoiner + voucher
    ensures voucher == [] ==> r == Trim(item)
    ensures Trim(item) == VoucherItem && voucher != [] ==> r == voucher
    ensures Trim(item) == [] && voucher != [] ==> r == voucher
  {
    var pItem := Trim(item);
    if pItem == VoucherItem && voucher != [] then voucher
    else if pItem != [] && voucher != [] then pItem + ItemVoucherJoiner + voucher
    else if pItem != [] then pItem
    else voucher
  }

  /** The two filters of one row: wide enough, a non-empty name, the company
      rule, and a name exactly equal to the search name. */
  predicate RowMatches(row: seq<string>, searchName: string, searchCompany: string) {
    && |row| >= WinnerRoster.minColumns
    && row[WinnerRoster.nameColumn] != []
    && CompanyAccepts(searchCompany, row[WinnerRoster.companyColumn])
    && row[WinnerRoster.nameColumn] == searchName
  }

  function RowPrize(row: seq<string>): string
    requires |row| >= WinnerRoster.minColumns
  {
    ComposePrize(row[ItemColumn], Voucher(row[BrandColumn], row[AmountColumn]))
  }

  /** A matching row with a non-empty prize: only such rows contribute. */
  predicate Contributes(row: seq<string>, searchName: string, searchCompany: string) {
    RowMatches(row, searchName, searchCompany) && RowPrize(row) != []
  }

  /** What one data line pushes onto `matchedPrizes`. */
  function LinePrize(searchName: string, searchCompany: string, line: string): seq<string> {
    var row := CsvLine.Fields(line);
    if Contributes(row, searchName, searchCompany) then [RowPrize(row)] else []
  }

  /** What one data line pushes onto `matchedIds`: the trimmed id of a
      contributing row whose id is non-empty. */
  function LineId(searchName: string, searchCompany: string, line: string): seq<string> {
    var row := CsvLine.Fields(line);
    if Contributes(row, searchName, searchCompany) && row[IdColumn] != [] then [Trim(row[IdColumn])] else []
  }

  /** The prizes pushed while scanning `data` (the roster lines after the
      header), in roster order. */
  function MatchedPrizes(data: seq<string>, searchName: string, searchCompany: string): seq<string> {
    FlatMap(data, line => LinePrize(searchName, searchCompany, line))
  }

  function MatchedIds(data: seq<string>, searchName: string, searchCompany: string): seq<string> {
    FlatMap(data, line => LineId(searchName, searchCompany, line))
  }

  lemma MatchedSnoc(data: seq<string>, line: string, searchName: string, searchCompany: string)
    ensures MatchedPrizes(data + [line], searchName, searchCompany)
         == MatchedPrizes(data, searchName, searchCompany) + LinePrize(searchName, searchCompany, line)
    ensures MatchedIds(data + [line], searchName, searchCompany)
         == MatchedIds(data, searchName, searchCompany) + LineId(searchName, searchCompany, line)
  {
    FlatMapSnoc(data, line, line => LinePrize(searchName, searchCompany, line));
    FlatMapSnoc(data, line, line => LineId(searchName, searchCompany, line));
  }

  lemma ScanStep(data: seq<string>, i: nat, searchName: string, searchCompany: string)
    requires i < |data|
    ensures MatchedPrizes(data[..i + 1], searchName, searchCompany)
         == MatchedPrizes(data[..i], searchName, searchCompany) + LinePrize(searchName, searchCompany, data[i])
    ensures MatchedIds(data[..i + 1], searchName, searchCompany)
         == MatchedIds(data[..i], searchName, searchCompany) + LineId(searchName, searchCompany, data[i])
  {
    assert data[..i + 1] == data[..i] + [data[i]];
    MatchedSnoc(data[..i], data[i], searchName, searchCompany);
  }

  /** The response once the roster lines are known. */
  function Resolution(lines: seq<string>, searchName: string, searchCompany: string): Response {
    var prizes := MatchedPrizes(DataLines(lines), searchName, searchCompany);
    var ids := MatchedIds(DataLines(lines), searchName, searchCompany);
    if prizes == [] then Found(None, None)
    else Found(Some(Join(Dedup(prizes), PrizeJoiner)), Some(Join(Dedup(ids), IdJoiner)))
  }

  /** One pass of the handler's row loop: parse the line, apply the filters
      in the handler's order and compose the prize; returns what the pass
      pushes onto `matchedPrizes` and `matchedIds`. */
  method ScanLine(line: string, searchName: string, searchCompany: string)
    returns (prizePushed: seq<string>, idPushed: seq<string>)
    ensures prizePushed == LinePrize(searchName, searchCompany, line)
    ensures idPushed == LineId(searchName, searchCompany, line)
  {
    prizePushed, idPushed := [], [];
    var row := CsvLine.ParseCsvLine(line);
    if |row| < WinnerRoster.minColumns { return; }
    var rowName := row[WinnerRoster.nameColumn];
    var rowCompany := row[WinnerRoster.companyColumn];
    if rowName == [] { return; }
    if searchCompany != [] && rowCompany != [] {
      var rowCompClean := CleanCompany(rowCompany);
      var searchCompClean := RemoveSpaces(searchCompany);
      if !Contains(rowCompClean, searchCompClean) && !Contains(searchCompClean, rowCompClean) {
        return;
      }
    }
    if rowName != searchName { return; }
    var finalPrize := ComposePrize(row[ItemColumn], Voucher(row[BrandColumn], row[AmountColumn]));
    if finalPrize != [] {
      prizePushed := [finalPrize];
      if row[IdColumn] != [] {
        idPushed := [Trim(row[IdColumn])];
      }
    }
  }

  /** The row loop of the handler, from line 1 (line 0 is the header),
      pushing into `matchedPrizes` and `matchedIds`. */
  method ScanRoster(lines: seq<string>, searchName: string, searchCompany: string)
    returns (matchedPrizes: seq<string>, matchedIds: seq<string>)
    ensures matchedPrizes == MatchedPrizes(DataLines(lines), searchName, searchCompany)
    ensures matchedIds == MatchedIds(DataLines(lines), searchName, searchCompany)
  {
    matchedPrizes, matchedIds := [], [];
    var data := DataLines(lines);
    var i := 0;
    assert data[..0] == [];
    while i < |data|
      invariant 0 <= i <= |data|
      invariant matchedPrizes == MatchedPrizes(data[..i], searchName, searchCompany)
      invariant matchedIds == MatchedIds(data[..i], searchName, searchCompany)
    {
      var prizePushed, idPushed := ScanLine(data[i], searchName, searchCompany);
      ScanStep(data, i, searchName, searchCompany);
      matchedPrizes := matchedPrizes + prizePushed;
      matchedIds := matchedIds + idPushed;
      i := i + 1;
    }
    assert data[..i] == data;
  }

  /** The handler: method and name checks before any fetch, then the roster
      scan. */
  method Handle(request: Request, fetch: Fetch) returns (response: Response)
    ensures request.verb != "GET" ==> response == MethodNotAllowed
    ensures request.verb == "GET" && !Truthy(request.name) ==> response == NameRequired
    ensures request.verb == "GET" && Truthy(request.name) ==>
      response == match fetch
        case NetworkError(m) => ServerError(m)
        case Response(status, _, body) =>
          if !OkStatus(status) then ServerError(FetchFailedMessage)
          else Resolution(RosterLines(body), Trim(request.name.value), SearchCompany(request.company))
  {
    if request.verb != "GET" {
      return MethodNotAllowed;
    }
    if !Truthy(request.name) {
      return NameRequired;
    }
    match fetch {
      case NetworkError(m) =>
        response := ServerError(m);
      case Response(status, _, body) =>
        if !OkStatus(status) {
          return ServerError(FetchFailedMessage);
        }
        var lines := RosterLines(body);
        var searchName := Trim(request.name.value);
        var searchCompany := SearchCompany(request.company);
        var matchedPrizes, matchedIds := ScanRoster(lines, searchName, searchCompany);
        if |matchedPrizes| > 0 {
          response := Found(Some(Join(Dedup(matchedPrizes), PrizeJoiner)),
                            Some(Join(Dedup(matchedIds), IdJoiner)));
        } else {
          response := Found(None, None);
        }
    }
  }

  // ---------------------------------------------------------------------
  // What the resolution means, stated over the roster lines.

  lemma MatchedPrizesMembers(data: seq<string>, searchName: string, searchCompany: string, p: string)
    ensures p in MatchedPrizes(data, searchName, searchCompany) <==>
      exists k :: 0 <= k < |data| && Contributes(CsvLine.Fields(data[k]), searchName, searchCompany)
                  && RowPrize(CsvLine.Fields(data[k])) == p
  {
    FlatMapMember(data, line => LinePrize(searchName, searchCompany, line), p);
  }

  lemma MatchedPrizesEmpty(data: seq<string>, searchName: string, searchCompany: string)
    ensures MatchedPrizes(data, searchName, searchCompany) == [] <==>
      forall k :: 0 <= k < |data| ==> !Contributes(CsvLine.Fields(data[k]), searchName, searchCompany)
  {
    FlatMapEmpty(data, line => LinePrize(searchName, searchCompany, line));
  }

  /** `prize` is null exactly when no data row (line 1 onwards) matches both
      filters with a non-empty prize; `id` is null exactly then too. */
  lemma NoWinnerIff(lines: seq<string>, searchName: string, searchCompany: string)
    ensures Resolution(lines, searchName, searchCompany).Found?
    ensures Resolution(lines, searchName, searchCompany).prize.None? <==>
      forall k :: 1 <= k < |lines| ==> !Contributes(CsvLine.Fields(lines[k]), searchName, searchCompany)
    ensures Resolution(lines, searchName, searchCompany).prize.None? <==>
      Resolution(lines, searchName, searchCompany).id.None?
  {
    var data := DataLines(lines);
    MatchedPrizesEmpty(data, searchName, searchCompany);
    assert forall k :: 1 <= k < |lines| ==> lines[k] == data[k - 1];
  }

  /** A prize string appears in the joined answer exactly when some data row
      matches both filters and composes to it; the joined parts are distinct
      and in order of first appearance. */
  lemma WinnerPrizeParts(lines: seq<string>, searchName: string, searchCompany: string, p: string)
    ensures var prizes := MatchedPrizes(DataLines(lines), searchName, searchCompany);
      && NoDuplicates(Dedup(prizes))
      && (p in Dedup(prizes) <==>
          exists k :: 1 <= k < |lines| && Contributes(CsvLine.Fields(lines[k]), searchName, searchCompany)
                      && RowPrize(CsvLine.Fields(lines[k])) == p)
      && (forall i, j :: 0 <= i < j < |Dedup(prizes)| ==>
            FirstIndex(prizes, Dedup(prizes)[i]) < FirstIndex(prizes, Dedup(prizes)[j]))
  {
    var data := DataLines(lines);
    var prizes := MatchedPrizes(data, searchName, searchCompany);
    MatchedPrizesMembers(data, searchName, searchCompany, p);
    DedupFirstOccurrenceOrder(prizes);
    assert p in Dedup(prizes) <==> p in prizes;
    if p in prizes {
      var k :| 0 <= k < |data| && Contributes(CsvLine.Fields(data[k]), searchName, searchCompany)
               && RowPrize(CsvLine.Fields(data[k])) == p;
      assert lines[k + 1] == data[k];
    }
    if exists k :: 1 <= k < |lines| && Contributes(CsvLine.Fields(lines[k]), searchName, searchCompany)
                   && RowPrize(CsvLine.Fields(lines[k])) == p {
      var k :| 1 <= k < |lines| && Contributes(CsvLine.Fields(lines[k]), searchName, searchCompany)
               && RowPrize(CsvLine.Fields(lines[k])) == p;
      assert data[k - 1] == lines[k];
    }
  }

  lemma MatchedIdsMembers(data: seq<string>, searchName: string, searchCompany: string, i: string)
    ensures i in MatchedIds(data, searchName, searchCompany) <==>
      exists k :: 0 <= k < |data| && Contributes(CsvLine.Fields(data[k]), searchName, searchCompany)
                  && CsvLine.Fields(data[k])[IdColumn] != [] && Trim(CsvLine.Fields(data[k])[IdColumn]) == i
  {
    FlatMapMember(data, line => LineId(searchName, searchCompany, line), i);
  }

  /** An id appears in the joined `id` answer exactly when some data row
      contributes a prize and has a non-empty id cell that trims to it; the
      joined ids are trimmed, distinct and in order of first appearance. */
  lemma WinnerIdParts(lines: seq<string>, searchName: string, searchCompany: string, i: string)
    ensures var ids := MatchedIds(DataLines(lines), searchName, searchCompany);
      && NoDuplicates(Dedup(ids))
      && (i in Dedup(ids) <==>
          exists k :: 1 <= k < |lines| && Contributes(CsvLine.Fields(lines[k]), searchName, searchCompany)
                      && CsvLine.Fields(lines[k])[IdColumn] != [] && Trim(CsvLine.Fields(lines[k])[IdColumn]) == i)
      && (i in Dedup(ids) ==> IsTrimmed(i))
      && (forall a, b :: 0 <= a < b < |Dedup(ids)| ==>
            FirstIndex(ids, Dedup(ids)[a]) < FirstIndex(ids, Dedup(ids)[b]))
  {
    var data := DataLines(lines);
    var ids := MatchedIds(data, searchName, searchCompany);
    MatchedIdsMembers(data, searchName, searchCompany, i);
    DedupFirstOccurrenceOrder(ids);
    assert i in Dedup(ids) <==> i in ids;
    if i in ids {
      var k :| 0 <= k < |data| && Contributes(CsvLine.Fields(data[k]), searchName, searchCompany)
               && CsvLine.Fields(data[k])[IdColumn] != [] && Trim(CsvLine.Fields(data[k])[IdColumn]) == i;
      assert lines[k + 1] == data[k];
    }
    if exists k :: 1 <= k < |lines| && Contributes(CsvLine.Fields(lines[k]), searchName, searchCompany)
                   && CsvLine.Fields(lines[k])[IdColumn] != [] && Trim(CsvLine.Fields(lines[k])[IdColumn]) == i {
      var k :| 1 <= k < |lines| && Contributes(CsvLine.Fields(lines[k]), searchName, searchCompany)
               && CsvLine.Fields(lines[k])[IdColumn] != [] && Trim(CsvLine.Fields(lines[k])[IdColumn]) == i;
      assert data[k - 1] == lines[k];
    }
  }

  /** A winner whose contributing rows all leave the id cell empty gets the
      empty string as `id`, not null: a prize was found, and no id was
      pushed. */
  lemma EmptyIdsJoinToEmpty(lines: seq<string>, searchName: string, searchCompany: string)
    requires Resolution(lines, searchName, searchCompany).prize.Some?
    requires forall k :: 1 <= k < |lines| && Contributes(CsvLine.Fields(lines[k]), searchName, searchCompany) ==>
      CsvLine.Fields(lines[k])[IdColumn] == []
    ensures Resolution(lines, searchName, searchCompany).id == Some("")
  {
    var data := DataLines(lines);
    FlatMapEmpty(data, line => LineId(searchName, searchCompany, line));
    assert forall k :: 0 <= k < |data| ==> data[k] == lines[k + 1];
    assert MatchedIds(data, searchName, searchCompany) == [];
  }

  /** Name matching is strict: a row whose name differs from the trimmed
      search name in any way (case, a missing or an extra character) never
      contributes, whatever its company. */
  lemma NameMatchIsExact(row: seq<string>, searchName: string, searchCompany: string)
    requires Contributes(row, searchName, searchCompany)
    ensures |row| >= WinnerRoster.minColumns && row[WinnerRoster.nameColumn] == searchName
    ensures searchName != []
  {
  }

  lemma {:induction false} JoinNonEmpty(parts: seq<string>, sep: string)
    requires |parts| >= 1 && parts[0] != []
    ensures Join(parts, sep) != []
  {
  }

  /** A found prize is never the empty string: every composed part is
      non-empty. */
  lemma FoundPrizeNonEmpty(lines: seq<string>, searchName: string, searchCompany: string)
    requires Resolution(lines, searchName, searchCompany).prize.Some?
    ensures Resolution(lines, searchName, searchCompany).prize.value != []
  {
    var data := DataLines(lines);
    var prizes := MatchedPrizes(data, searchName, searchCompany);
    var d := Dedup(prizes);
    MatchedPrizesMembers(data, searchName, searchCompany, d[0]);
    JoinNonEmpty(d, PrizeJoiner);
  }

  /** A search name that is only white space is accepted by the name check
      (it is truthy) but finds nobody, since a row needs a non-empty name. */
  lemma BlankNameFindsNobody(lines: seq<string>, name: string, searchCompany: string)
    requires IsBlank(name)
    ensures Resolution(lines, Trim(name), searchCompany) == Found(None, None)
  {
    NoWinnerIff(lines, Trim(name), searchCompany);
  }
}
