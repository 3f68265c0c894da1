/**
 * The company directory (`GET /api/companies`): read column 5 of the
 * directory roster, clean each value, drop the excluded ones, collect the
 * distinct values in a Set, force the "SSC" entry in and sort. Any failure
 * answers with a fixed list instead.
 */
module Companies {
  import opened JsString
  import opened Wrappers
  import opened Collections
  import opened Roster
  import opened StringOrder
  import opened CompanyNames
  import CsvLine

  /** The entry the directory always offers. */
  const Sentinel := "SSC"

  /** The list answered when the roster cannot be read, before sorting. */
  const FallbackCompanies: seq<string> := [
    "LEO", "Starcom", "Zenith", "Prodigious", "Digitas",
    "Performics", "MSL", "PMX", "Saatchi & Saatchi",
    "SSC", "Human Resource", "Finance",
    "Administration", "Management", "Growth Intelligence",
    "Collective", "Commercial", "Spark", "Core"]

  /** The same list in sorted order. */
  const SortedFallback: seq<string> := [
    "Administration", "Collective", "Commercial", "Core", "Digitas",
    "Finance", "Growth Intelligence", "Human Resource", "LEO", "MSL",
    "Management", "PMX", "Performics", "Prodigious", "SSC",
    "Saatchi & Saatchi", "Spark", "Starcom", "Zenith"]

  datatype Response =
    | MethodNotAllowed            // 405
    | Companies(list: seq<string>) // 200, live or fallback

  /** What one data line adds to the Set: its cleaned company, or nothing. */
  function LineCompany(line: string): seq<string> {
    var row := CsvLine.Fields(line);
    if |row| < DirectoryRoster.minColumns then []
    else
      var raw := row[DirectoryRoster.companyColumn];
      if !RawAccepted(raw) then []
      else
        var clean := CleanValue(raw);
        if !Kept(clean) || Excluded(clean) then [] else [clean]
  }

  /** The Set's contents in insertion order after the row loop. */
  function Collected(data: seq<string>): seq<string> {
    Dedup(FlatMap(data, LineCompany))
  }

  /** `if (!companies.has("SSC")) companies.add("SSC")` */
  function WithSentinel(companies: seq<string>): seq<string> {
    if Sentinel in companies then companies else companies + [Sentinel]
  }

  /** The live answer for the roster lines. */
  function Directory(lines: seq<string>): seq<string> {
    Sort(WithSentinel(Collected(DataLines(lines))))
  }

  /** One pass of the row loop: parse, apply the tests in the handler's
      order, and return what the pass adds. */
  method DirectoryLine(line: string) returns (added: seq<string>)
    ensures added == LineCompany(line)
  {
    added := [];
    var row := CsvLine.ParseCsvLine(line);
    if |row| < DirectoryRoster.minColumns { return; }
    var comp := row[DirectoryRoster.companyColumn];
    assert RawAccepted(comp) <==> comp != [] && comp != NoneMarker && |comp| > 1;
    if comp != [] && comp != NoneMarker && |comp| > 1 {
      var cleanComp := CleanValue(comp);
      assert Kept(cleanComp) <==> cleanComp != [] && cleanComp != Dash && |cleanComp| > 1;
      if cleanComp != [] && cleanComp != Dash && |cleanComp| > 1 {
        var lower := ToLower(cleanComp);
        if lower == "publicis" || Contains(lower, "resource") {
          assert Excluded(cleanComp);
          return;
        }
        assert !Excluded(cleanComp);
        added := [cleanComp];
      }
    }
  }

  lemma CollectedStep(data: seq<string>, i: nat)
    requires i < |data|
    ensures Collected(data[..i + 1]) ==
      if LineCompany(data[i]) == [] || LineCompany(data[i])[0] in Collected(data[..i])
      then Collected(data[..i])
      else Collected(data[..i]) + LineCompany(data[i])
  {
    assert data[..i + 1] == data[..i] + [data[i]];
    FlatMapSnoc(data[..i], data[i], LineCompany);
    var pushed := FlatMap(data[..i], LineCompany);
    if LineCompany(data[i]) == [] {
      assert pushed + [] == pushed;
    } else {
      DedupSnoc(pushed, LineCompany(data[i])[0]);
    }
  }

  /** The row loop from line 1, the forced sentinel and the sort. */
  method BuildDirectory(lines: seq<string>) returns (sorted: seq<string>)
    ensures sorted == Directory(lines)
  {
    var companies: seq<string> := [];
    var data := DataLines(lines);
    var i := 0;
    assert data[..0] == [];
    while i < |data|
      invariant 0 <= i <= |data|
      invariant companies == Collected(data[..i])
    {
      var added := DirectoryLine(data[i]);
      CollectedStep(data, i);
      if added != [] && added[0] !in companies {
        companies := companies + added;
      }
      i := i + 1;
    }
    assert data[..i] == data;
    if Sentinel !in companies {
      companies := companies + [Sentinel];
    }
    sorted := Sort(companies);
  }

  /** The handler: 405 for anything but GET; the fixed list, sorted, when the
      roster cannot be fetched; otherwise the live directory. */
  method Handle(verb: string, fetch: Fetch) returns (response: Response)
    ensures verb != "GET" ==> response == MethodNotAllowed
    ensures verb == "GET" ==> response == Companies(
      match fetch
        case NetworkError(_) => Sort(FallbackCompanies)
        case Response(status, _, body) => if OkStatus(status) then Directory(RosterLines(body)) else Sort(FallbackCompanies))
  {
    if verb != "GET" {
      return MethodNotAllowed;
    }
    match fetch {
      case NetworkError(_) =>
        response := Companies(Sort(FallbackCompanies));
      case Response(status, _, body) =>
        if !OkStatus(status) {
          return Companies(Sort(FallbackCompanies));
        }
        var sorted := BuildDirectory(RosterLines(body));
        response := Companies(sorted);
    }
  }

  // ---------------------------------------------------------------------
  // What the directory means.

  /** A line adds at most one value, and it adds `x` exactly when the row
      has the company column, the raw cell passes, `x` is its cleaned form,
      and `x` is kept and not excluded. */
  lemma LineCompanyMeaning(line: string, x: string)
    ensures |LineCompany(line)| <= 1
    ensures LineCompany(line) == [x] <==>
      var row := CsvLine.Fields(line);
      && |row| >= DirectoryRoster.minColumns
      && RawAccepted(row[DirectoryRoster.companyColumn])
      && x == CleanValue(row[DirectoryRoster.companyColumn])
      && Kept(x) && !Excluded(x)
  {
  }

  /** Every value a line adds is trimmed, free of ideographs, longer than
      one character, not the dash and not excluded. */
  lemma AddedValueShape(line: string)
    requires LineCompany(line) != []
    ensures var x := LineCompany(line)[0];
      && IsTrimmed(x) && |x| > 1 && x != Dash && !Excluded(x)
      && forall i :: 0 <= i < |x| ==> !IsCjk(x[i])
  {
  }

  /** The separate tests against the empty string and the one-character
      markers are implied by the length tests. */
  lemma GuardsAreLengthTests(raw: string, clean: string)
    ensures RawAccepted(raw) <==> |raw| > 1
    ensures Kept(clean) <==> |clean| > 1
  {
  }

  lemma CollectedMembers(data: seq<string>, x: string)
    ensures NoDuplicates(Collected(data))
    ensures x in Collected(data) <==> exists k :: 0 <= k < |data| && LineCompany(data[k]) == [x]
  {
    FlatMapMember(data, LineCompany, x);
    var pushed := FlatMap(data, LineCompany);
    assert x in Collected(data) <==> x in pushed;
    forall k | 0 <= k < |data| ensures x in LineCompany(data[k]) <==> LineCompany(data[k]) == [x] {
      LineCompanyMeaning(data[k], x);
    }
  }

  lemma WithSentinelMembers(companies: seq<string>)
    requires NoDuplicates(companies)
    ensures NoDuplicates(WithSentinel(companies))
    ensures forall x :: x in WithSentinel(companies) <==> x in companies || x == Sentinel
  {
  }

  lemma DataLineAdds(lines: seq<string>, x: string)
    ensures (exists k :: 0 <= k < |DataLines(lines)| && LineCompany(DataLines(lines)[k]) == [x]) <==>
            (exists k :: 1 <= k < |lines| && LineCompany(lines[k]) == [x])
  {
    DataLinesShift(lines, LineCompany, [x]);
  }

  /** The data line at `k` is the line at `k + 1`, stated for any function of
      a line. */
  lemma DataLinesShift<T>(lines: seq<string>, f: string -> T, y: T)
    ensures (exists k :: 0 <= k < |DataLines(lines)| && f(DataLines(lines)[k]) == y) <==>
            (exists k :: 1 <= k < |lines| && f(lines[k]) == y)
  {
    var data := DataLines(lines);
    if exists k :: 0 <= k < |data| && f(data[k]) == y {
      var k :| 0 <= k < |data| && f(data[k]) == y;
      assert lines[k + 1] == data[k];
    }
    if exists k :: 1 <= k < |lines| && f(lines[k]) == y {
      var k :| 1 <= k < |lines| && f(lines[k]) == y;
      assert data[k - 1] == lines[k];
    }
  }

  lemma SortedWithSentinel(companies: seq<string>, x: string)
    requires NoDuplicates(companies)
    ensures StrictlySorted(Sort(WithSentinel(companies)))
    ensures Sentinel in Sort(WithSentinel(companies))
    ensures x in Sort(WithSentinel(companies)) <==> x == Sentinel || x in companies
  {
    WithSentinelMembers(companies);
    var w := WithSentinel(companies);
    var d := Sort(w);
    SortedDistinctIsStrict(d);
    assert Sentinel in multiset(w);
    assert x in d <==> x in multiset(w);
  }

  /** The live directory is strictly ascending (so free of duplicates),
      always holds "SSC", and holds any other value exactly when some data
      line (line 1 onwards) adds it. */
  lemma DirectoryShape(lines: seq<string>, x: string)
    ensures StrictlySorted(Directory(lines))
    ensures Sentinel in Directory(lines)
    ensures x in Directory(lines) <==>
      x == Sentinel || exists k :: 1 <= k < |lines| && LineCompany(lines[k]) == [x]
  {
    CollectedMembers(DataLines(lines), x);
    SortedWithSentinel(Collected(DataLines(lines)), x);
    DataLineAdds(lines, x);
  }

  /** The directory depends only on which values the lines add, not on the
      order in which they first appear. */
  lemma DirectoryIsSortedSet(lines: seq<string>, other: seq<string>)
    requires Sorted(other) && NoDuplicates(other)
    requires forall x :: x in other <==> x in Directory(lines)
    ensures other == Directory(lines)
  {
    var d := Directory(lines);
    var y := "";
    DirectoryShape(lines, y);
    StrictlySortedIsSorted(d);
    DistinctSameElements(other, d);
    SortedUnique(other, d);
  }

  lemma FallbackMembers()
    ensures NoDuplicates(FallbackCompanies) && NoDuplicates(SortedFallback)
    ensures forall x :: x in FallbackCompanies <==> x in SortedFallback
  {
    FallbackDistinct();
    FallbackStrict();
    StrictlySortedIsSorted(SortedFallback);
  }

  lemma FallbackDistinct()
    ensures NoDuplicates(FallbackCompanies)
  {
    FallbackDistinctFrom(0, 6);
    FallbackDistinctFrom(6, 12);
    FallbackDistinctFrom(12, 19);
  }

  /** The entries at `lo` to `hi - 1` each differ from every later one. */
  lemma FallbackDistinctFrom(lo: nat, hi: nat)
    requires (lo, hi) == (0, 6) || (lo, hi) == (6, 12) || (lo, hi) == (12, 19)
    ensures forall i, j :: lo <= i < hi && i < j < |FallbackCompanies| ==> FallbackCompanies[i] != FallbackCompanies[j]
  {
  }

  lemma FallbackAdjacent()
    ensures forall i :: 0 <= i < |SortedFallback| - 1 ==> Less(SortedFallback[i], SortedFallback[i + 1])
  {
    FallbackAdjacentLow();
    FallbackAdjacentHigh();
  }

  lemma FallbackAdjacentLow()
    ensures forall i :: 0 <= i < 9 ==> Less(SortedFallback[i], SortedFallback[i + 1])
  {
  }

  lemma FallbackAdjacentHigh()
    ensures forall i :: 9 <= i < |SortedFallback| - 1 ==> Less(SortedFallback[i], SortedFallback[i + 1])
  {
  }

  lemma FallbackStrict()
    ensures StrictlySorted(SortedFallback)
  {
    FallbackAdjacent();
    AdjacentStrict(SortedFallback);
  }

  /** The fallback list, sorted, is the list written out above. */
  lemma FallbackSorted()
    ensures Sort(FallbackCompanies) == SortedFallback
    ensures StrictlySorted(SortedFallback)
  {
    FallbackStrict();
    StrictlySortedIsSorted(SortedFallback);
    FallbackMembers();
    DistinctSameElements(FallbackCompanies, SortedFallback);
    SortedUnique(Sort(FallbackCompanies), SortedFallback);
  }

  /** "Human Resource", which the fallback list offers, would not pass the
      live exclusion rule. */
  lemma FallbackOffersExcluded()
    ensures Excluded("Human Resource") && "Human Resource" in SortedFallback
  {
    HumanResourceExcluded("Human Resource");
  }
}
