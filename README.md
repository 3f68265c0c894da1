# Lucky-draw scratch card: a Dafny model

The system is an event app. A guest signs in with name, company and phone. The page looks up the guest's prize in a winners roster, with a weighted fallback pool when the lookup finds nothing. An action video plays, and the guest scratches a card to reveal the prize.

Around it sit small serverless handlers:
- the winner lookup (`api/winner.ts`);
- the company directory for the sign-in form (`api/companies.ts`);
- three roster importers (`api/seed.ts`, `api/upload_prizes.ts`, `api/sync_docx.ts`);
- a diagnostic search (`api/debug_search.ts`);
- the sign-up CSV export (`api/export_signups.ts`).

The client side is an in-memory user and department store (`src/context/AppContext.tsx`), the page state machine (`src/App.tsx`) and the reusable scratch card (`src/components/game/ScratchCard.tsx`).

One module per source file:
- `Winner`, `Companies`, `Seed`, `UploadPrizes`, `SyncDocx`, `DebugSearch`, `ExportSignups`;
- `AppContext`, with the store as class `AppStore`;
- `App`, with the page as class `GameApp`;
- `ScratchCard`, with the card as class `Card`.

Shared modules:
- `JsString`: the JavaScript string built-ins the handlers use. Trimming uses ECMAScript's exact white-space set.
- `CsvLine`: the quote-toggling `parseCSVLine` that three handlers copy.
- `Roster`: the roster text clean-up, a column-layout descriptor, and the fetch outcome that each handler receives as a parameter.
- `CompanyNames`: the company clean-up rules.
- `PrizeRows`: the row filter that `seed.ts` and `upload_prizes.ts` share.
- `Collections`: `Set` de-duplication, `filter`-style removal, flat-map, plus `StringOrder` for the default `Array.prototype.sort` order.
- `Pixels`: the alpha-sampling loop over canvas bytes, used by both scratch layers.

Modelling choices:
- **Handlers.** Each handler is a method over its inputs. The fetched body or the queried rows are parameters, and so is a fetch failure.
- **Loops.** Each loop is a `while` loop proved equal to a recursive specification function. The properties the code promises are lemmas about that function.
- **Random draws.** `Math.random()` values are `real` parameters.
- **Percentages.** Percentage thresholds are integer cross-multiplications.
- **Timers.** `setTimeout` callbacks are separate methods that the environment calls later.

Two facts about the code as written are proved and not changed:
- `Companies.FallbackOffersExcluded`: the fixed fallback directory offers "Human Resource", a name the live rule always excludes.
- `App.AskServerAsWritten`: the page asks the winner lookup with the wrong query parameter (see Findings).

## Model

| member | source | states |
|---|---|---|
| JsString.Trim | api/winner.ts:62 | `trim()` gives a value with no leading or trailing white space, empty exactly when the input is all white space, no longer than the input and made of its characters |
| JsString.RemoveSpaces | api/winner.ts:88-89 | `replace(/\s/g, '')` leaves no white-space character; the result is a subsequence of the text (order kept) holding every other character as many times as the text does |
| JsString.ToLower | api/winner.ts:63 | `toLowerCase()` keeps the length and lower-cases each character in place |
| JsString.RemoveChars | api/winner.ts:107 | removing a character class drops exactly those characters; the result is a subsequence of the text holding every other character as many times as the text does |
| JsString.Split | api/seed.ts:429 | `split` gives at least one piece and no piece contains a separator |
| JsString.SplitCount | api/seed.ts:429 | `split` gives one more piece than the text has separators |
| JsString.JoinSplit | src/context/AppContext.tsx:83 | joining the pieces of a one-character split with that character restores the text |
| JsString.StripBom | api/winner.ts:56 | one leading U+FEFF is removed, and nothing else changes |
| JsString.NormalizeNewlines | api/winner.ts:56 | CR LF to LF keeps the number of line feeds and never lengthens the text; split on LF, the result has as many lines as the text, each line the text's line with the CR before its LF dropped, and the last line unchanged |
| JsString.NonBlank | api/winner.ts:57 | `filter(l => l.trim().length > 0)` keeps exactly the non-blank lines, in their order and with their multiplicities |
| JsString.TrimAll | api/seed.ts:429 | `map(s => s.trim())` trims each piece in place |
| JsString.NonEmpty | api/sync_docx.ts:57 | `filter(p => p !== "")` keeps exactly the non-empty pieces, in their order and with their multiplicities |
| JsString.NatToString | api/sync_docx.ts:19 | a status number renders as decimal digits with no leading zero |
| JsString.NatToStringValue | api/sync_docx.ts:19 | the rendered digits read back as the number |
| Collections.Dedup | api/winner.ts:139 | `[...new Set(xs)]` is duplicate-free and has exactly the elements of `xs` |
| Collections.DedupSnoc | api/companies.ts:64 | `Set.add` appends a new value and ignores one already present |
| Collections.DedupFirstOccurrenceOrder | api/winner.ts:139 | the de-duplicated values are in order of first occurrence |
| Collections.RemoveAll | src/context/AppContext.tsx:110 | `filter(d => d !== x)` removes every `x`, keeps every other element and changes nothing when `x` is absent |
| Collections.RemoveAllKeepsOrder | src/context/AppContext.tsx:110 | the survivors keep their relative order, and only the copies of `x` are lost |
| Collections.RemoveAllPreservesDistinct | src/context/AppContext.tsx:110 | removal keeps a duplicate-free list duplicate-free |
| StringOrder.LessTransitive | api/companies.ts:74 | the default sort order is transitive |
| StringOrder.LessTotal | api/companies.ts:74 | any two different strings are ordered one way or the other |
| StringOrder.Sort | api/companies.ts:74 | `sort()` returns an ascending permutation, duplicate-free when its input is |
| StringOrder.SortedUnique | api/companies.ts:74 | two ascending permutations of the same values are equal, so the sorted answer is determined by its set |
| CsvLine.ParseCsvLine | api/winner.ts:8-26 | the splitting loop returns exactly the specified fields: one more than there are commas outside quotes, each trimmed and free of `"` |
| CsvLine.FieldsShape | api/winner.ts:8-26 | a line has one field per comma outside quotes, plus one; every field is trimmed and has no double quote |
| CsvLine.JoinedFieldsRoundTrip | api/winner.ts:8-26 | joining clean comma-free fields with commas and splitting the line gives the fields back |
| CsvLine.DoubledQuoteIgnored | api/winner.ts:15-16 | a doubled quote `""` anywhere on a line changes no field, so this is not the quoting rule of section 2 of RFC 4180 |
| CsvLine.TrailingSpaceIgnored | api/winner.ts:18-24 | a trailing white-space character, such as a stray CR, changes no field |
| CsvLine.Scan | api/winner.ts:13-23 | defines the splitter's state machine: a quote flips the in-quote flag and is dropped, a comma outside quotes closes the trimmed entry, any other character joins the entry |
| CsvLine.Fields | api/winner.ts:8-26 | defines the fields of a line: the machine started outside quotes with no entry, the last entry closed at the end of the line |
| Roster.RosterLines | api/winner.ts:56-57 | the cleaned roster lines are exactly the non-blank lines of the text after BOM removal and CR LF folding, in their order and with their multiplicities |
| Winner.CompanyAcceptsSymmetric | api/winner.ts:87-94 | the company rule is containment either way, so swapping roster and search side gives the same verdict |
| Winner.AmountText | api/winner.ts:107 | the amount loses every `'` and `"` and is trimmed; every other character that is not white space, the thousands comma included, occurs as often as in the cell |
| Winner.Voucher | api/winner.ts:104-113 | no voucher for an empty, blank or `無` brand; otherwise `brand 禮券` when the amount is empty, blank or `-`, else `brand amount元 禮券` |
| Winner.ComposePrize | api/winner.ts:100-126 | the voucher replaces the generic item `禮券`; an item and a voucher are joined by `\|\|\|+`; an item without a voucher is used as it is; a voucher with a blank item is used as it is; empty exactly when both are empty |
| Winner.ScanLine | api/winner.ts:70-131 | one pass of the row loop pushes exactly the specified prize and id: nothing for short rows, nameless rows, rows the company or name filter rejects, or an empty prize |
| Winner.ScanRoster | api/winner.ts:65-132 | the row loop from line 1 accumulates exactly the specified prizes and ids |
| Winner.Handle | api/winner.ts:28-164 | non-GET gives 405; a missing or empty name gives 400 before any fetch; a failed fetch gives 500 with its message; otherwise the resolution of the cleaned roster with the trimmed name and lower-cased company |
| Winner.MatchedPrizesMembers | api/winner.ts:128-129 | a prize is pushed exactly when some data row passes both filters and composes to it |
| Winner.MatchedPrizesEmpty | api/winner.ts:137 | nothing is pushed exactly when no data row contributes |
| Winner.NoWinnerIff | api/winner.ts:134-147 | the answer is always a 200; `prize` is null exactly when no row after the header contributes, and `id` is null exactly then |
| Winner.WinnerPrizeParts | api/winner.ts:137-140 | the joined parts are distinct, in first-match order, and are exactly the prizes of contributing rows after the header |
| Winner.NameMatchIsExact | api/winner.ts:97 | a contributing row's name equals the trimmed search name exactly, with no case folding or substring match |
| Winner.FoundPrizeNonEmpty | api/winner.ts:128-140 | a found prize is never the empty string |
| Winner.BlankNameFindsNobody | api/winner.ts:37-84 | a name of only white space passes the 400 check but finds nobody |
| Winner.RowMatches | api/winner.ts:70-97 | defines the row filters in the handler's order: at least ten cells, a non-empty name, the company rule, a name equal to the search name |
| Winner.LinePrize | api/winner.ts:69-129 | defines what one data line pushes onto `matchedPrizes`: its composed prize when the row matches and the prize is non-empty |
| Winner.LineId | api/winner.ts:73-130 | defines what one data line pushes onto `matchedIds`: the trimmed id of a contributing row whose id cell is non-empty |
| Winner.Resolution | api/winner.ts:134-147 | defines the 200 answer: both fields null without a contributing row, otherwise the distinct prizes joined by the triple-bar separator and the distinct ids joined by `, ` |
| Winner.MatchedIdsMembers | api/winner.ts:128-130 | an id is pushed exactly when some data row contributes a prize and has a non-empty id cell that trims to it |
| Winner.WinnerIdParts | api/winner.ts:128-145 | the ids joined into `id` are distinct and trimmed, each comes from a contributing row with a non-empty id cell, every such id appears, and they keep the order of first appearance |
| Winner.EmptyIdsJoinToEmpty | api/winner.ts:128-145 | a winner whose contributing rows all have an empty id cell gets `id` equal to the empty string, not null |
| CompanyNames.StripCjk | api/companies.ts:57 | removing the range U+4E00 to U+9FA5 keeps exactly the characters outside it, in their order and with their multiplicities, and changes nothing when there are none |
| CompanyNames.CleanValue | api/companies.ts:57 | the cleaned value has no CJK ideograph and is trimmed |
| CompanyNames.PublicisExamples | api/companies.ts:61 | "PUBLICIS" is excluded but "Publicis Media" is not: the publicis test is an exact match after lower-casing |
| CompanyNames.HumanResourceExcluded | api/companies.ts:61 | "Human Resource" is excluded, because its lower-case form contains "resource" |
| Companies.DirectoryLine | api/companies.ts:50-66 | one pass of the row loop adds exactly the specified value, with the guards in the handler's order |
| Companies.BuildDirectory | api/companies.ts:46-74 | the loop, the forced "SSC" and the sort give exactly the specified directory |
| Companies.Handle | api/companies.ts:28-98 | non-GET gives 405; a failed or non-OK fetch gives the sorted fallback list; otherwise the directory of the cleaned roster |
| Companies.LineCompanyMeaning | api/companies.ts:50-64 | a line adds at most one value, and adds `x` exactly when it has 6 fields, field 5 passes the raw test, `x` is its cleaned form, and `x` is kept and not excluded |
| Companies.AddedValueShape | api/companies.ts:56-64 | an added value is trimmed, longer than one character, not `-`, not excluded and free of CJK ideographs |
| Companies.GuardsAreLengthTests | api/companies.ts:56-60 | the truthiness, `無` and `-` checks are implied by the length test |
| Companies.CollectedMembers | api/companies.ts:46-64 | the set holds no duplicate and holds exactly the values some data line adds |
| Companies.WithSentinelMembers | api/companies.ts:70-72 | forcing "SSC" keeps the set duplicate-free and adds only "SSC" |
| Companies.SortedWithSentinel | api/companies.ts:70-74 | the sorted answer is strictly ascending, contains "SSC" and has exactly the set's values plus "SSC" |
| Companies.DirectoryShape | api/companies.ts:46-74 | the directory is strictly ascending, always contains "SSC", and otherwise holds exactly the values data lines from line 1 on add |
| Companies.DirectoryIsSortedSet | api/companies.ts:74 | any ascending duplicate-free list with the directory's values is the directory |
| Companies.FallbackMembers | api/companies.ts:86-93 | the 19 fallback names are distinct, and sorting keeps exactly them |
| Companies.FallbackSorted | api/companies.ts:86-93 | the sorted fallback list is the given constant, and it is strictly ascending |
| Companies.FallbackOffersExcluded | api/companies.ts:61-90 | the fallback list offers "Human Resource", which the live exclusion rule always drops |
| Companies.LineCompany | api/companies.ts:50-64 | defines what one data line adds to the Set: the cleaned company when the row is wide enough, the raw cell passes its test and the cleaned value is kept and not excluded |
| Companies.Directory | api/companies.ts:46-74 | defines the live answer: the collected companies with "SSC" added when missing, sorted |
| PrizeRows.RowOf | api/seed.ts:438-441 | brand is field 0, Chinese name field 2, English name field 3, prize field 4; field 1 is ignored |
| PrizeRows.PlainFields | api/seed.ts:429 | a plain comma split has one trimmed field per comma, plus one, with no quote handling |
| PrizeRows.AcceptLine | api/upload_prizes.ts:40-50 | the per-line filter returns exactly the specified row or nothing |
| PrizeRows.LineRowMeaning | api/upload_prizes.ts:40-50 | a line gives a row exactly when it is not blank, has at least four commas, and its English name is non-empty |
| PrizeRows.AcceptedRowsShape | api/upload_prizes.ts:39-50 | the accepted rows are exactly the rows of accepted lines, each with a trimmed non-empty English name |
| PrizeRows.LineRow | api/upload_prizes.ts:40-50 | defines the row filter: a non-blank line with at least five cells and a non-empty English name gives its row |
| Seed.NameMap.Set | api/seed.ts:445 | `map.set(k, v)` stores `v` under `k` and keeps the other entries; a new key goes last, an existing key keeps its place, and the keys stay distinct |
| Seed.NameMap.Values | api/seed.ts:448 | `map.values()` lists one value per key, in key order |
| Seed.CollectRows | api/seed.ts:427-446 | the first loop builds exactly the map that sets every accepted row under its English name |
| Seed.UpsertAll | api/seed.ts:448-458 | the second loop upserts the map's values in order and counts each one |
| Seed.Handle | api/seed.ts:404-466 | the upserts and the count are those of the trimmed, line-split roster |
| Seed.FoldMeaning | api/seed.ts:445 | the keys are the distinct English names in first-insertion order, and each maps to the last row with that name |
| Seed.ValuesMeaning | api/seed.ts:445-448 | the upserted rows carry the distinct names in first-insertion order, each row the last one with its name |
| Seed.UpsertsMeaning | api/seed.ts:420-458 | for any roster text: one upsert per distinct English name, in first-appearance order, last row winning |
| Seed.RepeatedNameLowersCount | api/seed.ts:448-458 | `inserted` never exceeds the accepted rows and is below them exactly when an English name repeats |
| Seed.Fold | api/seed.ts:427-446 | the map after setting every collected row under its English name is well formed: its key list is duplicate-free and matches its entries |
| UploadPrizes.UpsertRows | api/upload_prizes.ts:39-61 | the loop upserts exactly the accepted rows and counts every one |
| UploadPrizes.Handle | api/upload_prizes.ts:7-76 | non-POST gives 405; an unreadable form gives 500; a wrong password gives 401; no file gives 400; otherwise every accepted row is upserted and counted; the response is always the one `Outcome` gives for the request |
| UploadPrizes.Outcome | api/upload_prizes.ts:8-69 | the upload succeeds exactly for a POST with the right password and a file |
| UploadPrizes.PasswordCheckedFirst | api/upload_prizes.ts:18-24 | a wrong password gives 401 even when the file is missing |
| UploadPrizes.UploadCountsRepeats | api/upload_prizes.ts:52-61 | the reported count is at least the seed's distinct count and exceeds it exactly when an English name repeats |
| SyncDocx.DocLines | api/sync_docx.ts:45 | every kept line is non-empty and trimmed |
| SyncDocx.Cells | api/sync_docx.ts:54-57 | every cell is non-empty and trimmed |
| SyncDocx.CellsConcat | api/sync_docx.ts:54-57 | any of `,`, `，` and tab splits cells the same way |
| SyncDocx.BlankCellShiftsColumns | api/sync_docx.ts:54-57 | a blank cell between two separators disappears, so later columns shift left |
| SyncDocx.PlainSplitKeepsColumns | api/seed.ts:429 | the seed's plain split keeps the empty cell between two commas, so its columns do not shift |
| SyncDocx.LongNameIsLength | api/sync_docx.ts:68 | the English-name test is a length of at least 2 |
| SyncDocx.CandidateOf | api/sync_docx.ts:54-68 | one pass of the line loop gives exactly the specified candidate, at most one row |
| SyncDocx.UpsertCandidates | api/sync_docx.ts:52-80 | the loop upserts exactly the candidates in line order and counts every one |
| SyncDocx.Handle | api/sync_docx.ts:10-100 | non-POST gives 405; a failed fetch gives 500 with a message naming the status; otherwise the candidates are upserted and counted, and the first line is reported |
| SyncDocx.SyncRowShape | api/sync_docx.ts:59-68 | a row is upserted exactly when some line is a candidate for it; its English name is trimmed and at least 2 long, and its other columns are non-empty |
| SyncDocx.FirstLineMeaning | api/sync_docx.ts:45-89 | the debug line is a non-empty trimmed line of the text, and it is absent exactly when every line is blank |
| SyncDocx.FirstLineIsFirst | api/sync_docx.ts:45-89 | the debug line is the trimmed text of the first line that is not blank; every line before it is blank |
| SyncDocx.Candidate | api/sync_docx.ts:54-68 | defines what one document line contributes: its row when it has five cells and an English name of at least two characters |
| DebugSearch.LogLine | api/debug_search.ts:49-75 | one pass builds exactly the specified entry, or nothing |
| DebugSearch.ScanLogs | api/debug_search.ts:46-76 | the loop from line 1 collects exactly the specified logs |
| DebugSearch.Handle | api/debug_search.ts:27-85 | non-GET gives 405; a missing name gives 400; a failed fetch gives 500; otherwise the logs of the raw lines with the trimmed name and lower-cased company |
| DebugSearch.LineLogMeaning | api/debug_search.ts:49-72 | a line is logged exactly when field 8 exists, is non-empty and contains the search name; `exactNameMatch` is name equality; the company fields are present exactly when both companies are non-empty |
| DebugSearch.CheckMeaning | api/debug_search.ts:64-71 | the clean values are lower-cased with white space removed, `match1` is row contains search, and `match2` is the reverse |
| DebugSearch.LogsFromDataLines | api/debug_search.ts:48-74 | every log entry is what its own data line pushes, with `rowIndex` that line's index, never 0 |
| DebugSearch.LogsInRosterOrder | api/debug_search.ts:48-74 | the logs are in strictly increasing line order |
| DebugSearch.LogsComplete | api/debug_search.ts:48-75 | every data line that qualifies is logged |
| DebugSearch.HeaderIgnored | api/debug_search.ts:48 | replacing line 0 changes no log |
| DebugSearch.AgreesWithWinner | api/debug_search.ts:49-71 | for a row of the winner roster's width, the winner lookup keeps the row exactly when it is logged as an exact match whose company comparison, when made, holds one way |
| DebugSearch.CarriageReturnHarmless | api/debug_search.ts:40-41 | the missing CR LF folding is harmless: a trailing CR changes no log entry |
| DebugSearch.Check | api/debug_search.ts:64-71 | defines the company comparison logged for a row: both values lower-cased with white space removed, and containment in each direction |
| DebugSearch.LineLog | api/debug_search.ts:49-75 | defines what line `i` logs: an entry when the row's name is truthy and contains the search name, with the company comparison only when both companies are truthy |
| ExportSignups.DoubleQuotes | api/export_signups.ts:15 | doubling adds one character per quote and leaves quote-free text as it is |
| ExportSignups.RowTexts | api/export_signups.ts:13-19 | one text per row, in query order |
| ExportSignups.HeaderIsJoin | api/export_signups.ts:12 | the header is the five column names joined by commas, then a line feed |
| ExportSignups.EscapedFieldRoundTrip | api/export_signups.ts:15-16 | a reader following section 2 of RFC 4180 recovers a name or company exactly, or the empty string for a falsy one |
| ExportSignups.PhoneFieldRoundTrip | api/export_signups.ts:17 | a non-empty phone reads back exactly when it has no double quote |
| ExportSignups.QuotedPhoneIsLost | api/export_signups.ts:17 | a phone with a double quote does not read back |
| ExportSignups.RowRoundTrip | api/export_signups.ts:13-19 | a row whose id, time and phone are plain reads back as its five values in order |
| ExportSignups.RowsRoundTrip | api/export_signups.ts:13-20 | the joined rows read back as the rows' values, in order |
| ExportSignups.ExportRoundTrip | api/export_signups.ts:12-22 | the whole body reads back as the header record followed by every row's values |
| ExportSignups.HeaderEndsRecord | api/export_signups.ts:12-22 | with no rows, the body reads as the header record alone |
| ExportSignups.BodyShape | api/export_signups.ts:20-22 | the body starts with the header and equals it exactly when there are no rows |
| ExportSignups.EscapedField | api/export_signups.ts:15-16 | defines the name and company cells: empty when falsy, otherwise quoted with every quote doubled |
| ExportSignups.PhoneField | api/export_signups.ts:17 | defines the phone cell: empty when falsy, otherwise quoted without escaping |
| ExportSignups.Body | api/export_signups.ts:12-22 | defines the response body: the header, then the row texts joined by LF with no line break after the last row |
| ExportSignups.ReadRecord | api/export_signups.ts:12-20 | the reference reader for one CSV record of RFC 4180, section 2, against which the export is read back: what it leaves is no longer than its input |
| AppContext.FindUser | src/context/AppContext.tsx:59-63 | `find` is absent exactly when no user matches all three fields, and otherwise the first matching user |
| AppContext.CollectImports | src/context/AppContext.tsx:83-96 | the `forEach` pushes exactly the specified users, in line order |
| AppContext.AppStore.constructor | src/context/AppContext.tsx:33-55 | no current user, the default config, the three mock users and the five departments |
| AppContext.AppStore.Login | src/context/AppContext.tsx:58-71 | success when some user matches, with the first match as current user; otherwise failure with the fixed message and no change; the other cells are not touched |
| AppContext.AppStore.Logout | src/context/AppContext.tsx:73-75 | no current user, and nothing else changes |
| AppContext.AppStore.UpdateConfig | src/context/AppContext.tsx:77-79 | the config takes the supplied keys, and nothing else changes |
| AppContext.AppStore.ImportUsers | src/context/AppContext.tsx:81-101 | the users are the old ones followed by one per qualifying line, and nothing else changes |
| AppContext.AppStore.AddDepartment | src/context/AppContext.tsx:103-107 | the department is appended unless present; the list stays duplicate-free |
| AppContext.AppStore.RemoveDepartment | src/context/AppContext.tsx:109-111 | every copy is removed; the list stays duplicate-free |
| AppContext.PatchOverwritesSupplied | src/context/AppContext.tsx:77-79 | supplied keys are overwritten, the others kept, and an empty patch changes nothing |
| AppContext.PatchesCompose | src/context/AppContext.tsx:77-79 | two updates equal one merged update in which the later wins, and repeating an update changes nothing |
| AppContext.ImportMembers | src/context/AppContext.tsx:86-96 | a user is imported exactly when some line has at least four fields and the user is made of its first four, trimmed |
| AppContext.ImportNothing | src/context/AppContext.tsx:98-100 | nothing is imported exactly when no line has four fields, and then the users are unchanged |
| AppContext.ImportCount | src/context/AppContext.tsx:86-96 | one user per qualifying line |
| AppContext.ImportLineRoundTrip | src/context/AppContext.tsx:87-94 | a line made by joining four trimmed comma-free fields imports exactly that user |
| AppContext.WithDepartmentDistinct | src/context/AppContext.tsx:103-107 | adding keeps the list duplicate-free, contains the department, only appends, and is idempotent |
| AppContext.RemoveAfterAdd | src/context/AppContext.tsx:103-111 | removing after adding is removing alone; adding after removing appends exactly once |
| AppContext.ApplyPatch | src/context/AppContext.tsx:77-79 | defines `{ ...prev, ...patch }`: each supplied key replaces the current value, the others are kept |
| AppContext.WithDepartment | src/context/AppContext.tsx:103-107 | defines the department list after an add: unchanged when the name is present, the name appended otherwise |
| Pixels.CountClear | src/components/game/ScratchCard.tsx:105-112 | the sampling loop counts exactly the zero alpha bytes at 3, 3 + step, ... (also src/App.tsx:222-226) |
| Pixels.ClearAtMostSlots | src/components/game/ScratchCard.tsx:108-114 | the count never exceeds the number of sample positions |
| Pixels.AllClear | src/components/game/ScratchCard.tsx:108-114 | the count equals the number of positions exactly when every sampled byte is 0 |
| Pixels.ClearingIsMonotone | src/components/game/ScratchCard.tsx:131-134 | erasing more of the coating never lowers the count |
| Pixels.UntouchedNeverPasses | src/components/game/ScratchCard.tsx:108-117 | an unscratched layer counts nothing and passes no threshold |
| Pixels.FullyClearedPasses | src/components/game/ScratchCard.tsx:114-117 | a whole layer scratched clean passes any threshold below 100% |
| Pixels.Exceeds | src/components/game/ScratchCard.tsx:114-117 | defines the completion test `(transparent / (length / step)) * 100 > percent` with the division cleared, so an empty buffer never passes |
| ScratchCard.CompletesMeaning | src/components/game/ScratchCard.tsx:103-121 | the 45% test survives more scratching, never holds before any scratch, and holds once the coating is clean |
| ScratchCard.Card.constructor | src/components/game/ScratchCard.tsx:15-17 | not completed, not scratching, no confetti |
| ScratchCard.Card.FireConfetti | src/components/game/ScratchCard.tsx:65-94 | the confetti starts at most once: a second call changes nothing |
| ScratchCard.Card.CheckCompletion | src/components/game/ScratchCard.tsx:96-122 | the completion flag is set afterwards exactly when it was already set, or there is a canvas and the 45% test passes; the parent is told once in all, with one confetti burst |
| ScratchCard.Card.Scratch | src/components/game/ScratchCard.tsx:124-140 | after completion a stroke does nothing; otherwise completion is checked when the roll is above 0.3 |
| ScratchCard.Card.HandleMove | src/components/game/ScratchCard.tsx:142-153 | a move scratches only while scratching |
| ScratchCard.Card.PointerDown | src/components/game/ScratchCard.tsx:174-178 | mouse-down and touch-start set scratching and nothing else |
| ScratchCard.Card.PointerUp | src/components/game/ScratchCard.tsx:175-179 | mouse-up, mouse-leave and touch-end clear scratching and nothing else |
| App.LandingFrom | src/App.tsx:44-47 | the loop stops at the first item whose running total exceeds the draw, or at none when no total does |
| App.FallbackPick | src/App.tsx:42-48 | the weighted loop returns the pick of the draw scaled by the total weight |
| App.DrawLandsInPool | src/App.tsx:42-48 | with non-negative weights, a draw in `[0, total)` lands on the item `i` with total below `i` at most the draw, below the total through `i`; the default name is unreachable |
| App.ScaledDrawInRange | src/App.tsx:43 | `Math.random() * totalWeight` lies in `[0, totalWeight)` |
| App.PickFrom | src/App.tsx:42-48 | defines the fallback pick: the name of the pool item the draw lands in, the default prize when it lands in none |
| App.FallbackIsScratchCard | src/App.tsx:25-27 | with the one-entry pool the fallback always gives the scratch-card prize |
| App.LookupPrize | src/App.tsx:33-36 | a prize is taken exactly from an OK answer with a truthy prize, and it is non-empty |
| App.AssignPrize | src/App.tsx:30-49 | a looked-up prize is returned unchanged without consulting the pool, otherwise the fallback pick |
| App.AskServerAsWritten | src/App.tsx:32 | the request as written is refused for want of a name, so no roster prize reaches the page |
| App.AskServer | src/App.tsx:32 | with the name and company sent, the page receives the lookup's resolution; without a name or roster, no prize |
| App.ServerPrizeReaches | src/App.tsx:33-36 | a resolved answer's prize reaches the page as it is |
| App.EditTouchesOneField | src/App.tsx:79-82 | an input change sets the named field and keeps the other two |
| App.CoveredMeaning | src/App.tsx:218-232 | the 50% test survives more scratching, never holds before any scratch, and holds once the layer is clean |
| App.GameApp.constructor | src/App.tsx:53-61 | login view, empty form, not loading, no prize, not scratched |
| App.GameApp.HandleVideoEnded | src/App.tsx:73-77 | the action view goes to the card; any other view stays |
| App.GameApp.HandleInputChange | src/App.tsx:79-82 | only the form changes, by the one field |
| App.GameApp.HandleLogin | src/App.tsx:107-114 | loading starts; the lookup sends only the phone, so the prize is always the fallback pool's pick for the draw; the view is not yet changed |
| App.GameApp.HandleLoginCorrected | src/App.tsx:107-114 | with the name and company sent instead: the prize is the roster prize when the lookup finds one, the fallback pick otherwise; the view is not yet changed |
| App.GameApp.LoginDelayElapsed | src/App.tsx:120-122 | loading ends and the action video view starts |
| App.GameApp.EnterScratch | src/App.tsx:147-195 | entering the card resets the scratched flag, the drawing flag and the move count |
| App.GameApp.Scratch | src/App.tsx:210-216 | with a context, each stroke adds exactly one move |
| App.GameApp.CheckTransparency | src/App.tsx:218-232 | with a context, not yet scratched and at least 20 moves, the card becomes scratched and the result is scheduled exactly when the 50% test passes; otherwise nothing changes |
| App.GameApp.ResultTimerFired | src/App.tsx:230 | the scheduled result view is shown |
| App.GameApp.HandleStart | src/App.tsx:234 | drawing starts with one stroke |
| App.GameApp.HandleMove | src/App.tsx:235 | a move strokes only while drawing |
| App.GameApp.HandleEnd | src/App.tsx:236 | drawing stops, then transparency is checked |

## Left out

- Network, storage and decoders.
  - The roster and document fetches are inputs: the body, or the failure message.
  - `TextDecoder`, `mammoth.extractRawText` and the `sql` statements (CREATE, upsert, SELECT) are not modelled; the model starts from the decoded text and the queried rows.
  - An upsert is the row it would write, in order.
  - A failing SQL statement (the 500 branches of `seed.ts`, `upload_prizes.ts`, `sync_docx.ts` and `export_signups.ts`) is not modelled.
- Seed.Handle: the roster embedded in `api/seed.ts` is a parameter, not a transcribed constant. The repeated names in it are covered only by the general `Seed.RepeatedNameLowersCount`.
- Winner.Handle: a failure while reading the response body (`response.arrayBuffer()` rejecting, answered 500 "Decoding Failed: <message>") is not modelled, because the fetch outcome is given with its body already decoded. A default `TextDecoder` itself does not throw. The `timestamp` field of the answer is left out.
- DebugSearch.Handle: a failure of `response.text()` after a successful fetch is left out.
- UploadPrizes.Handle: a form entry `file` that is a string, not a `File`, is not distinguished from a file.
- ExportSignups: `id` and `created_at` are taken as already-rendered text. The 500 answer is left out.
- JsString.ToLower: only ASCII letters are folded, not the full Unicode case mapping.
- StringOrder.Sort: compares code points, where JavaScript compares UTF-16 code units. The two differ only for characters outside the Basic Multilingual Plane.
- JsString: `length` counts characters, not UTF-16 code units, as in `|raw| > 1` and the length tests of `companies.ts` and `sync_docx.ts`.
- App.GameApp.HandleLogin:
  - The Google Form submission is I/O and is left out.
  - Video playback and muting are left out.
  - The `catch` branch is left out because `assignPrize` never throws.
- Timers and React state.
  - Each `setTimeout` callback is a method the environment calls, with the delay itself left out.
  - Every state cell is a plain field that an update changes at once, so there are no stale closures and no batching.
  - `ScratchCard.Card.CheckCompletion` therefore assumes that the `isCompleted` update is seen by the next stroke.
- Canvas.
  - Drawing is modelled only through its effect on the pixel buffer, which the caller passes in after each stroke.
  - Stroke coordinates, the brush radius, watermarks, confetti animation, `getBoundingClientRect`, and the coating image's `onload` repaint are left out.
- App: the idle-loop video time check (`handleTimeUpdate`, `IDLE_LOOP_END`) is floating point and media and is left out.
- The debug scripts (`debug_csv.ts`, `debug_user.ts`, `debug_docx.ts`, `debug_xlsx.ts`), `api/signup.ts` and the presentation components are not part of this model.

## Findings

| source | as written | input that shows it | evidently intended | confidence | as-written member | corrected member |
|---|---|---|---|---|---|---|
| src/App.tsx:32 | the page requests `/api/winner?phone=...`, but the handler reads only `name` and `company` (api/winner.ts:34-42) and answers 400 "Name is required" | any guest whose name is in the roster, e.g. name "Winnie Lo" with any phone | send the form's name and company, so a roster prize reaches the page | not executed | App.AskServerAsWritten | App.AskServer |

`App.LookupRequestAsWritten` builds the request as written. `App.AskServerAsWritten` proves that the page then never gets a roster prize, so `App.AssignPrize` always falls back to the pool. `App.LookupRequest` carries the name and company. `App.AskServer` proves that the lookup's resolution then reaches the page. `App.GameApp.HandleLogin` is the login as written, whose prize is always the fallback pick. `App.GameApp.HandleLoginCorrected` is the login with the corrected request.
