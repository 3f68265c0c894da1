/**
 * What the roster readers share: the outcome of fetching the roster, the
 * clean-up of its text into lines, and a format descriptor that says which
 * columns a roster revision puts its fields in.
 */
module Roster {
  import opened JsString
  import opened Wrappers
  import Collections

  /** The outcome of fetching a roster: the request failed outright (its
      rejection message), or an HTTP response with its status code, status
      text and decoded body text. */
  datatype Fetch = NetworkError(message: string) | Response(status: nat, statusText: string, body: string)

  /** `response.ok`: the status is in the range 200-299. */
  predicate OkStatus(status: nat) {
    200 <= status <= 299
  }

  /** The column layout of one roster revision. */
  datatype RosterFormat = RosterFormat(minColumns: nat, nameColumn: nat, companyColumn: nat)

  /** The prize roster read by the winner lookup: ..., 8 name, 9 company, at
      least ten columns. */
  const WinnerRoster := RosterFormat(10, 8, 9)

  /** The roster read by the company directory: 0 id, 1 count, 2 prize,
      3 voucher, 4 name, 5 company, at least six columns. */
  const DirectoryRoster := RosterFormat(6, 4, 5)

  /** The "none" marker a roster cell holds when it has no value. */
  const NoneMarker := "無"

  /** A JavaScript value that is truthy: present and not the empty string. */
  predicate Truthy(v: Option<string>) {
    v.Some? && v.value != []
  }

  /** One leading byte-order mark removed, CR LF turned into LF, split on LF,
      and lines that are only white space dropped. */
  function RosterLines(text: string): (lines: seq<string>)
    ensures forall k :: 0 <= k < |lines| ==> !IsBlank(lines[k])
    ensures forall l :: l in lines <==> l in Split(NormalizeNewlines(StripBom(text)), {'\n'}) && !IsBlank(l)
    ensures Collections.IsSubsequence(lines, Split(NormalizeNewlines(StripBom(text)), {'\n'}))
    ensures forall l :: multiset(lines)[l] == if IsBlank(l) then 0 else multiset(Split(NormalizeNewlines(StripBom(text)), {'\n'}))[l]
  {
    NonBlank(Split(NormalizeNewlines(StripBom(text)), {'\n'}))
  }

  /** The lines after the header line 0. */
  function DataLines(lines: seq<string>): seq<string> {
    if lines == [] then [] else lines[1..]
  }
}
