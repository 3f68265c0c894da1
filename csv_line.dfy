/**
 * The roster line splitter shared by the winner lookup, the company
 * directory and the debug search: a double quote toggles an "inside quotes"
 * flag and is itself dropped, a comma outside quotes ends a field, and each
 * field is trimmed.
 */
module CsvLine {
  import opened JsString

  function QuoteCount(s: string): nat {
    CountIn(s, {'"'})
  }

  /** The number of commas that stand outside quotes, that is, after an even
      number of double quotes on the line. */
  function SeparatorCount(s: string): nat {
    if s == [] then 0
    else
      var p := s[..|s| - 1];
      SeparatorCount(p) + (if s[|s| - 1] == ',' && QuoteCount(p) % 2 == 0 then 1 else 0)
  }

  /** What every field of a parsed line looks like. */
  predicate CleanField(f: string) {
    IsTrimmed(f) && '"' !in f
  }

  /** The splitter's state machine, consuming `rest` one character at a time
      with the flag, the current entry and the fields produced so far. */
  function Scan(rest: string, inQuote: bool, entry: string, res: seq<string>): seq<string>
    decreases |rest|
  {
    if rest == [] then res + [Trim(entry)]
    else if rest[0] == '"' then Scan(rest[1..], !inQuote, entry, res)
    else if rest[0] == ',' && !inQuote then Scan(rest[1..], inQuote, [], res + [Trim(entry)])
    else Scan(rest[1..], inQuote, entry + [rest[0]], res)
  }

  /** The fields `parseCSVLine(text)` returns. */
  function Fields(text: string): seq<string> {
    Scan(text, false, [], [])
  }

  lemma {:induction false} CountInSnoc(s: string, c: char, cs: set<char>)
    ensures CountIn(s + [c], cs) == CountIn(s, cs) + (if c in cs then 1 else 0)
  {
    if s != [] {
      assert (s + [c])[1..] == s[1..] + [c];
      CountInSnoc(s[1..], c, cs);
    }
  }

  /** How the two counts grow when the prefix takes one more character. */
  lemma PrefixStep(text: string, i: nat)
    requires i < |text|
    ensures QuoteCount(text[..i + 1]) == QuoteCount(text[..i]) + (if text[i] == '"' then 1 else 0)
    ensures SeparatorCount(text[..i + 1]) ==
      SeparatorCount(text[..i]) + (if text[i] == ',' && QuoteCount(text[..i]) % 2 == 0 then 1 else 0)
  {
    assert text[..i + 1] == text[..i] + [text[i]];
    assert text[..i + 1][..i] == text[..i];
    CountInSnoc(text[..i], text[i], {'"'});
  }

  lemma {:induction false} ScanShape(text: string, i: nat, inQuote: bool, entry: string, res: seq<string>)
    requires i <= |text|
    requires inQuote == (QuoteCount(text[..i]) % 2 == 1)
    requires |res| == SeparatorCount(text[..i])
    requires forall k :: 0 <= k < |res| ==> CleanField(res[k])
    requires '"' !in entry
    ensures |Scan(text[i..], inQuote, entry, res)| == SeparatorCount(text) + 1
    ensures forall k :: 0 <= k < |Scan(text[i..], inQuote, entry, res)| ==>
      CleanField(Scan(text[i..], inQuote, entry, res)[k])
    decreases |text| - i
  {
    if i == |text| {
      assert text[..i] == text;
      assert text[i..] == [];
    } else {
      var c := text[i];
      assert text[i..][1..] == text[i + 1..];
      PrefixStep(text, i);
      if c == '"' {
        ScanShape(text, i + 1, !inQuote, entry, res);
      } else if c == ',' && !inQuote {
        ScanShape(text, i + 1, inQuote, [], res + [Trim(entry)]);
      } else {
        ScanShape(text, i + 1, inQuote, entry + [c], res);
      }
    }
  }

  /** One field per comma outside quotes, plus one; every field trimmed and
      free of double quotes. */
  lemma FieldsShape(text: string)
    ensures |Fields(text)| == SeparatorCount(text) + 1
    ensures forall k :: 0 <= k < |Fields(text)| ==> CleanField(Fields(text)[k])
  {
    assert text[..0] == [] && text[0..] == text;
    ScanShape(text, 0, false, [], []);
  }

  /** `parseCSVLine`: the loop with the `inQuote` flag and the `entry` and
      `res` buffers. */
  method ParseCsvLine(text: string) returns (res: seq<string>)
    ensures res == Fields(text)
    ensures |res| == SeparatorCount(text) + 1
    ensures forall k :: 0 <= k < |res| ==> CleanField(res[k])
  {
    res := [];
    var entry: string := [];
    var inQuote := false;
    var i := 0;
    while i < |text|
      invariant 0 <= i <= |text|
      invariant Scan(text[i..], inQuote, entry, res) == Fields(text)
    {
      assert text[i..][1..] == text[i + 1..];
      var c := text[i];
      if c == '"' {
        inQuote := !inQuote;
      } else if c == ',' && !inQuote {
        res := res + [Trim(entry)];
        entry := [];
      } else {
        entry := entry + [c];
      }
      i := i + 1;
    }
    res := res + [Trim(entry)];
    FieldsShape(text);
  }

  lemma {:induction false} ScanPlain(f: string, rest: string, entry: string, res: seq<string>)
    requires ',' !in f && '"' !in f
    ensures Scan(f + rest, false, entry, res) == Scan(rest, false, entry + f, res)
    decreases |f|
  {
    if f != [] {
      assert (f + rest)[0] == f[0] && f[0] in f;
      assert (f + rest)[1..] == f[1..] + rest;
      ScanPlain(f[1..], rest, entry + [f[0]], res);
      assert entry + [f[0]] + f[1..] == entry + f;
    } else {
      assert [] + rest == rest && entry + [] == entry;
    }
  }

  lemma {:induction false} ScanComma(tail: string, entry: string, res: seq<string>)
    ensures Scan([','] + tail, false, entry, res) == Scan(tail, false, [], res + [Trim(entry)])
  {
    assert ([','] + tail)[1..] == tail;
  }

  lemma {:induction false} ScanJoin(fields: seq<string>, res: seq<string>)
    requires |fields| >= 1
    requires forall k :: 0 <= k < |fields| ==> CleanField(fields[k]) && ',' !in fields[k]
    ensures Scan(Join(fields, ","), false, [], res) == res + fields
  {
    var f := fields[0];
    TrimOfTrimmed(f);
    if |fields| == 1 {
      assert Join(fields, ",") == f + [] && fields == [f];
      ScanPlain(f, [], [], res);
      assert [] + f == f;
      assert Scan([], false, f, res) == res + [f];
    } else {
      var tail := Join(fields[1..], ",");
      assert Join(fields, ",") == f + ([','] + tail);
      ScanPlain(f, [','] + tail, [], res);
      assert [] + f == f;
      ScanComma(tail, f, res);
      ScanJoin(fields[1..], res + [f]);
      assert Scan(Join(fields, ","), false, [], res) == Scan(tail, false, [], res + [f]);
      assert res + [f] + fields[1..] == res + fields;
    }
  }

  /** Joining clean, comma-free fields with commas and splitting the line
      again gives the fields back. */
  lemma JoinedFieldsRoundTrip(fields: seq<string>)
    requires |fields| >= 1
    requires forall k :: 0 <= k < |fields| ==> CleanField(fields[k]) && ',' !in fields[k]
    ensures Fields(Join(fields, ",")) == fields
  {
    ScanJoin(fields, []);
  }

  /** A doubled quote anywhere on a line is two toggles and disappears, so
      `"a""b"` reads as `ab`: the doubled-quote escape of RFC 4180 (section 2,
      rule 7) is not honoured. */
  lemma {:induction false} DoubledQuoteVanishes(u: string, v: string, inQuote: bool, entry: string, res: seq<string>)
    ensures Scan(u + "\"\"" + v, inQuote, entry, res) == Scan(u + v, inQuote, entry, res)
    decreases |u|
  {
    if u == [] {
      assert [] + "\"\"" + v == ['"'] + (['"'] + v);
      assert (['"'] + (['"'] + v))[1..] == ['"'] + v;
      assert (['"'] + v)[1..] == v;
      assert Scan(['"'] + (['"'] + v), inQuote, entry, res) == Scan(['"'] + v, !inQuote, entry, res);
      assert Scan(['"'] + v, !inQuote, entry, res) == Scan(v, inQuote, entry, res);
      assert [] + v == v;
    } else {
      var c := u[0];
      assert (u + "\"\"" + v)[0] == c && (u + v)[0] == c;
      assert (u + "\"\"" + v)[1..] == u[1..] + "\"\"" + v;
      assert (u + v)[1..] == u[1..] + v;
      if c == '"' {
        DoubledQuoteVanishes(u[1..], v, !inQuote, entry, res);
      } else if c == ',' && !inQuote {
        DoubledQuoteVanishes(u[1..], v, inQuote, [], res + [Trim(entry)]);
      } else {
        DoubledQuoteVanishes(u[1..], v, inQuote, entry + [c], res);
      }
    }
  }

  lemma DoubledQuoteIgnored(u: string, v: string)
    ensures Fields(u + "\"\"" + v) == Fields(u + v)
  {
    DoubledQuoteVanishes(u, v, false, [], []);
  }

  lemma {:induction false} ScanSpaceSuffix(rest: string, c: char, inQuote: bool, entry: string, res: seq<string>)
    requires IsSpace(c)
    ensures Scan(rest + [c], inQuote, entry, res) == Scan(rest, inQuote, entry, res)
    decreases |rest|
  {
    if rest == [] {
      assert [] + [c] == [c] && [c][1..] == [];
      TrimSpaceSuffix(entry, c);
    } else {
      assert (rest + [c])[0] == rest[0];
      assert (rest + [c])[1..] == rest[1..] + [c];
      if rest[0] == '"' {
        ScanSpaceSuffix(rest[1..], c, !inQuote, entry, res);
      } else if rest[0] == ',' && !inQuote {
        ScanSpaceSuffix(rest[1..], c, inQuote, [], res + [Trim(entry)]);
      } else {
        ScanSpaceSuffix(rest[1..], c, inQuote, entry + [rest[0]], res);
      }
    }
  }

  /** A white-space character at the end of a line, such as the carriage
      return of a CR LF line ending, changes none of the fields. */
  lemma TrailingSpaceIgnored(line: string, c: char)
    requires IsSpace(c)
    ensures Fields(line + [c]) == Fields(line)
  {
    ScanSpaceSuffix(line, c, false, [], []);
  }
}
