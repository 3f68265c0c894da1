/**
 * The signup export (`GET /api/export_signups`): one CSV line per signup
 * row, in query order, under a fixed header. Name and company are quoted
 * with embedded double quotes doubled; the phone is quoted as is.
 *
 * The partner of the writer is a reader for the format of RFC 4180,
 * section 2 (quoted fields, a doubled quote inside a quoted field standing
 * for one quote), with LF as the record separator the writer uses.
 */
module ExportSignups {
  import opened JsString
  import opened Wrappers
  import opened Roster

  /** A row of `SELECT * FROM signups`: the `id` and `created_at` columns as
      their template-literal text, the others as nullable text. */
  datatype Signup = Signup(id: string, name: Option<string>, company: Option<string>,
                           phone: Option<string>, createdAt: string)

  const HeaderFields: seq<string> := ["ID", "Name", "Company", "Phone", "Time"]
  const Header := "ID,Name,Company,Phone,Time\n"

  function EscapeChar(c: char): string {
    if c == '"' then "\"\"" else [c]
  }

  /** `v.replace(/"/g, '""')` */
  function DoubleQuotes(s: string): (r: string)
    ensures |r| == |s| + CountIn(s, {'"'})
    ensures '"' !in s ==> r == s
  {
    if s == [] then [] else EscapeChar(s[0]) + DoubleQuotes(s[1..])
  }

  /** The name and company cells: empty when the value is falsy, otherwise
      quoted with its quotes doubled. */
  function EscapedField(v: Option<string>): string {
    if Truthy(v) then "\"" + DoubleQuotes(v.value) + "\"" else ""
  }

  /** The phone cell: empty when falsy, otherwise quoted without escaping. */
  function PhoneField(v: Option<string>): string {
    if Truthy(v) then "\"" + v.value + "\"" else ""
  }

  /** `${row.id},${name},${company},${phone},${time}` */
  function RowText(r: Signup): string {
    r.id + "," + EscapedField(r.name) + "," + EscapedField(r.company) + "," + PhoneField(r.phone) + "," + r.createdAt
  }

  function RowTexts(rows: seq<Signup>): (texts: seq<string>)
    ensures |texts| == |rows|
    ensures forall i :: 0 <= i < |rows| ==> texts[i] == RowText(rows[i])
  {
    if rows == [] then [] else [RowText(rows[0])] + RowTexts(rows[1..])
  }

  /** The response body: the header, then the rows joined by LF, with no
      line break after the last row. */
  function Body(rows: seq<Signup>): string {
    Header + Join(RowTexts(rows), "\n")
  }

  // ---------------------------------------------------------------------
  // A reader for the format of RFC 4180, section 2.

  /** The text of a falsy cell is empty. */
  function Text(v: Option<string>): string {
    if Truthy(v) then v.value else []
  }

  /** The cells a reader recovers from a row. */
  function Values(r: Signup): seq<string> {
    [r.id, Text(r.name), Text(r.company), Text(r.phone), r.createdAt]
  }

  /** The rest of a quoted field after its opening quote: a doubled quote
      stands for one quote and a lone quote closes the field. The value
      and what follows the closing quote, or nothing when the field is not
      closed. */
  function ReadQuoted(s: string): (r: Option<(string, string)>)
    ensures r.Some? ==> |r.value.1| < |s|
    decreases |s|
  {
    if s == [] then None
    else if s[0] == '"' then
      if |s| >= 2 && s[1] == '"' then
        match ReadQuoted(s[2..])
        case None => None
        case Some((v, rest)) => Some(("\"" + v, rest))
      else Some(([], s[1..]))
    else
      match ReadQuoted(s[1..])
      case None => None
      case Some((v, rest)) => Some(([s[0]] + v, rest))
  }

  /** An unquoted field runs up to the next comma or line break; a quote
      inside it is malformed (RFC 4180, section 2, rule 5). */
  function ReadPlain(s: string): (r: Option<(string, string)>)
    ensures r.Some? ==> |r.value.1| <= |s|
  {
    if s == [] || s[0] == ',' || s[0] == '\n' then Some(([], s))
    else if s[0] == '"' then None
    else
      match ReadPlain(s[1..])
      case None => None
      case Some((v, rest)) => Some(([s[0]] + v, rest))
  }

  function ReadField(s: string): (r: Option<(string, string)>)
    ensures r.Some? ==> |r.value.1| <= |s|
  {
    if s != [] && s[0] == '"' then ReadQuoted(s[1..]) else ReadPlain(s)
  }

  /** Where a field may end: at the end of the text, a comma or a line
      break. */
  predicate FieldEnd(tail: string) {
    tail == [] || tail[0] == ',' || tail[0] == '\n'
  }

  /** One record: fields separated by commas, up to a line break outside
      quotes or the end of the text; the fields and the text from the line
      break on. */
  function ReadRecord(s: string): (r: Option<(seq<string>, string)>)
    ensures r.Some? ==> |r.value.1| <= |s|
    decreases |s|
  {
    match ReadField(s)
    case None => None
    case Some((v, rest)) =>
      if rest != [] && rest[0] == ',' then
        match ReadRecord(rest[1..])
        case None => None
        case Some((vs, after)) => Some(([v] + vs, after))
      else if rest == [] || rest[0] == '\n' then Some(([v], rest))
      else None
  }

  /** Records separated by line breaks; the last one may or may not have a
      line break after it (RFC 4180, section 2, rule 2). */
  function ReadDocument(s: string): Option<seq<seq<string>>>
    decreases |s|
  {
    match ReadRecord(s)
    case None => None
    case Some((fields, rest)) =>
      if rest == [] || rest == "\n" then Some([fields])
      else
        match ReadDocument(rest[1..])
        case None => None
        case Some(more) => Some([fields] + more)
  }

  // ---------------------------------------------------------------------
  // The writer and the reader agree.

  /** Text that needs no quoting: no comma, quote or line break. */
  predicate Plain(s: string) {
    forall i :: 0 <= i < |s| ==> s[i] != ',' && s[i] != '"' && s[i] != '\n'
  }

  lemma {:induction false} ReadPlainText(u: string, tail: string)
    requires Plain(u) && FieldEnd(tail)
    ensures ReadField(u + tail) == Some((u, tail))
    ensures ReadPlain(u + tail) == Some((u, tail))
  {
    if u != [] {
      assert (u + tail)[0] == u[0] && (u + tail)[1..] == u[1..] + tail;
      ReadPlainText(u[1..], tail);
      assert [u[0]] + u[1..] == u;
    } else {
      assert u + tail == tail;
    }
  }

  lemma QuotedQuote(rest: string)
    ensures ReadQuoted(['"', '"'] + rest) ==
      match ReadQuoted(rest)
      case None => None
      case Some((v, after)) => Some((['"'] + v, after))
  {
    assert (['"', '"'] + rest)[2..] == rest;
  }

  lemma QuotedChar(c: char, rest: string)
    requires c != '"'
    ensures ReadQuoted([c] + rest) ==
      match ReadQuoted(rest)
      case None => None
      case Some((v, after)) => Some(([c] + v, after))
  {
    assert ([c] + rest)[1..] == rest;
  }

  lemma QuotedClose(tail: string)
    requires FieldEnd(tail)
    ensures ReadQuoted(['"'] + tail) == Some(([], tail))
  {
    assert (['"'] + tail)[1..] == tail;
  }

  lemma {:induction false} ReadQuotedText(v: string, tail: string)
    requires FieldEnd(tail)
    ensures ReadQuoted(DoubleQuotes(v) + (['"'] + tail)) == Some((v, tail))
  {
    var close := ['"'] + tail;
    if v == [] {
      assert DoubleQuotes(v) + close == close;
      QuotedClose(tail);
    } else {
      var d := DoubleQuotes(v[1..]);
      ReadQuotedText(v[1..], tail);
      assert DoubleQuotes(v) + close == EscapeChar(v[0]) + (d + close);
      if v[0] == '"' {
        QuotedQuote(d + close);
      } else {
        QuotedChar(v[0], d + close);
      }
      assert [v[0]] + v[1..] == v;
    }
  }

  lemma ReadFieldQuoted(inner: string)
    ensures ReadField(['"'] + inner) == ReadQuoted(inner)
  {
    assert (['"'] + inner)[1..] == inner;
  }

  /** A name or company cell reads back as the value it was written from;
      a falsy value reads back as the empty text. */
  lemma EscapedFieldRoundTrip(v: Option<string>, tail: string)
    requires FieldEnd(tail)
    ensures ReadField(EscapedField(v) + tail) == Some((Text(v), tail))
  {
    if Truthy(v) {
      var inner := DoubleQuotes(v.value) + (['"'] + tail);
      assert EscapedField(v) + tail == ['"'] + inner;
      ReadFieldQuoted(inner);
      ReadQuotedText(v.value, tail);
    } else {
      ReadPlainText([], tail);
    }
  }

  /** What a quoted field consumes: its value, one extra character per quote
      in the value, and the closing quote. */
  lemma {:induction false} ReadQuotedLength(s: string)
    requires ReadQuoted(s).Some?
    ensures |s| == |ReadQuoted(s).value.0| + CountIn(ReadQuoted(s).value.0, {'"'}) + 1 + |ReadQuoted(s).value.1|
    decreases |s|
  {
    if s[0] == '"' {
      if |s| >= 2 && s[1] == '"' {
        ReadQuotedLength(s[2..]);
        var v := ReadQuoted(s[2..]).value.0;
        assert ("\"" + v)[1..] == v;
      }
    } else {
      ReadQuotedLength(s[1..]);
      var v := ReadQuoted(s[1..]).value.0;
      assert ([s[0]] + v)[1..] == v;
    }
  }

  lemma {:induction false} CountPositive(s: string, c: char)
    requires c in s
    ensures CountIn(s, {c}) > 0
  {
    if s[0] != c {
      CountPositive(s[1..], c);
    }
  }

  /** The phone cell reads back as the phone exactly when the phone has no
      double quote in it: the missing escape is harmless only then. */
  lemma PhoneFieldRoundTrip(p: string, tail: string)
    requires p != [] && FieldEnd(tail)
    ensures ReadField(PhoneField(Some(p)) + tail) == Some((p, tail)) <==> '"' !in p
  {
    var inner := p + (['"'] + tail);
    assert PhoneField(Some(p)) + tail == ['"'] + inner;
    assert (['"'] + inner)[1..] == inner;
    if '"' !in p {
      ReadQuotedText(p, tail);
    } else if ReadField(PhoneField(Some(p)) + tail) == Some((p, tail)) {
      ReadQuotedLength(inner);
      CountPositive(p, '"');
    }
  }

  /** A phone holding a double quote does not survive the export: the
      reader does not give it back. */
  lemma QuotedPhoneIsLost(p: string, tail: string)
    requires '"' in p && FieldEnd(tail)
    ensures ReadField(PhoneField(Some(p)) + tail) != Some((p, tail))
  {
    PhoneFieldRoundTrip(p, tail);
  }

  lemma ReadRecordMore(cell: string, v: string, more: string)
    requires ReadField(cell + ([','] + more)) == Some((v, [','] + more))
    requires ReadRecord(more).Some?
    ensures ReadRecord(cell + ([','] + more)) ==
      Some(([v] + ReadRecord(more).value.0, ReadRecord(more).value.1))
  {
    assert ([','] + more)[1..] == more;
  }

  lemma ReadRecordLast(s: string, v: string, tail: string)
    requires ReadField(s) == Some((v, tail)) && (tail == [] || tail[0] == '\n')
    ensures ReadRecord(s) == Some(([v], tail))
  {
  }

  lemma Assoc(a: string, b: string, c: string)
    ensures a + b + c == a + (b + c)
  {
  }

  /** The row text followed by `tail`, with its four commas made explicit. */
  lemma RowTextParts(r: Signup, tail: string)
    ensures RowText(r) + tail ==
      r.id + ([','] + (EscapedField(r.name) + ([','] + (EscapedField(r.company) + ([','] +
        (PhoneField(r.phone) + ([','] + (r.createdAt + tail))))))))
  {
    var n, c, p, t := EscapedField(r.name), EscapedField(r.company), PhoneField(r.phone), r.createdAt;
    var s4 := [','] + (t + tail);
    var s3 := [','] + (p + s4);
    var s2 := [','] + (c + s3);
    Assoc(r.id + "," + n + "," + c + "," + p + ",", t, tail);
    Assoc(r.id + "," + n + "," + c + "," + p, [','], t + tail);
    Assoc(r.id + "," + n + "," + c + ",", p, s4);
    Assoc(r.id + "," + n + "," + c, [','], p + s4);
    Assoc(r.id + "," + n + ",", c, s3);
    Assoc(r.id + "," + n, [','], c + s3);
    Assoc(r.id + ",", n, s2);
    Assoc(r.id, [','], n + s2);
  }

  /** The cells of a row whose id and time need no quoting and whose phone
      has no double quote, read back as the row's values. */
  predicate Exportable(r: Signup) {
    Plain(r.id) && Plain(r.createdAt) && (Truthy(r.phone) ==> '"' !in r.phone.value)
  }

  lemma PhoneCell(v: Option<string>, tail: string)
    requires (Truthy(v) ==> '"' !in v.value) && FieldEnd(tail)
    ensures ReadField(PhoneField(v) + tail) == Some((Text(v), tail))
  {
    if Truthy(v) {
      PhoneFieldRoundTrip(v.value, tail);
    } else {
      ReadPlainText([], tail);
    }
  }

  /** One exported row reads back as one record of its values. */
  lemma RowRoundTrip(r: Signup, tail: string)
    requires Exportable(r) && (tail == [] || tail[0] == '\n')
    ensures ReadRecord(RowText(r) + tail) == Some((Values(r), tail))
  {
    var n, c, p, t := EscapedField(r.name), EscapedField(r.company), PhoneField(r.phone), r.createdAt;
    var s4 := t + tail;
    var s3 := p + ([','] + s4);
    var s2 := c + ([','] + s3);
    var s1 := n + ([','] + s2);
    RowTextParts(r, tail);
    ReadPlainText(t, tail);
    ReadRecordLast(s4, t, tail);
    PhoneCell(r.phone, [','] + s4);
    ReadRecordMore(p, Text(r.phone), s4);
    EscapedFieldRoundTrip(r.company, [','] + s3);
    ReadRecordMore(c, Text(r.company), s3);
    EscapedFieldRoundTrip(r.name, [','] + s2);
    ReadRecordMore(n, Text(r.name), s2);
    ReadPlainText(r.id, [','] + s1);
    ReadRecordMore(r.id, r.id, s1);
    Cons5(r.id, Text(r.name), Text(r.company), Text(r.phone), t);
  }

  lemma Cons5<T>(a: T, b: T, c: T, d: T, e: T)
    ensures [a] + ([b] + ([c] + ([d] + [e]))) == [a, b, c, d, e]
  {
  }

  lemma RowTextHasComma(r: Signup)
    ensures RowText(r) != []
  {
    RowTextParts(r, []);
  }

  lemma JoinCons(texts: seq<string>)
    requires |texts| >= 2
    ensures Join(texts, "\n") == texts[0] + (['\n'] + Join(texts[1..], "\n"))
  {
    Assoc(texts[0], "\n", Join(texts[1..], "\n"));
  }

  /** The exported rows, joined by line breaks, read back as the rows'
      values in query order. */
  lemma {:induction false} RowsRoundTrip(rows: seq<Signup>)
    requires rows != []
    requires forall i :: 0 <= i < |rows| ==> Exportable(rows[i])
    ensures ReadDocument(Join(RowTexts(rows), "\n")) == Some(RowValues(rows))
  {
    var texts := RowTexts(rows);
    if |rows| == 1 {
      assert Join(texts, "\n") == RowText(rows[0]) + [];
      RowRoundTrip(rows[0], []);
      DocumentLast(Join(texts, "\n"), Values(rows[0]));
      assert RowValues(rows) == [Values(rows[0])];
    } else {
      var more := Join(texts[1..], "\n");
      assert texts[1..] == RowTexts(rows[1..]);
      JoinCons(texts);
      RowRoundTrip(rows[0], ['\n'] + more);
      RowsRoundTrip(rows[1..]);
      RowTextHasComma(rows[1]);
      JoinFirstNonEmpty(texts[1..]);
      DocumentMore(Join(texts, "\n"), Values(rows[0]), more);
      assert RowValues(rows) == [Values(rows[0])] + RowValues(rows[1..]);
    }
  }

  lemma JoinFirstNonEmpty(texts: seq<string>)
    requires |texts| >= 1 && texts[0] != []
    ensures Join(texts, "\n") != []
  {
    if |texts| > 1 {
      assert Join(texts, "\n") == texts[0] + "\n" + Join(texts[1..], "\n");
    }
  }

  lemma DocumentLast(s: string, fields: seq<string>)
    requires ReadRecord(s) == Some((fields, []))
    ensures ReadDocument(s) == Some([fields])
  {
  }

  lemma DocumentMore(s: string, fields: seq<string>, more: string)
    requires ReadRecord(s) == Some((fields, ['\n'] + more)) && more != []
    requires ReadDocument(more).Some?
    ensures ReadDocument(s) == Some([fields] + ReadDocument(more).value)
  {
    assert (['\n'] + more)[1..] == more;
    assert ['\n'] + more != "\n";
  }

  /** The values of each row, in order. */
  function RowValues(rows: seq<Signup>): (vs: seq<seq<string>>)
    ensures |vs| == |rows|
    ensures forall i :: 0 <= i < |rows| ==> vs[i] == Values(rows[i])
  {
    if rows == [] then [] else [Values(rows[0])] + RowValues(rows[1..])
  }

  /** Plain cells joined by commas read back as those cells. */
  lemma {:induction false} ReadPlainRecord(cells: seq<string>, tail: string)
    requires |cells| >= 1 && forall i :: 0 <= i < |cells| ==> Plain(cells[i])
    requires tail == [] || tail[0] == '\n'
    ensures ReadRecord(Join(cells, ",") + tail) == Some((cells, tail))
  {
    if |cells| == 1 {
      assert Join(cells, ",") == cells[0];
      ReadPlainText(cells[0], tail);
      ReadRecordLast(cells[0] + tail, cells[0], tail);
      assert [cells[0]] == cells;
    } else {
      var more := Join(cells[1..], ",") + tail;
      Assoc(cells[0] + ",", Join(cells[1..], ","), tail);
      Assoc(cells[0], ",", more);
      ReadPlainText(cells[0], [','] + more);
      ReadPlainRecord(cells[1..], tail);
      ReadRecordMore(cells[0], cells[0], more);
      assert [cells[0]] + cells[1..] == cells;
    }
  }

  /** The header is the column names joined by commas, then a line break. */
  lemma HeaderIsJoin()
    ensures Header == Join(HeaderFields, ",") + "\n"
  {
  }

  /** The header line reads as the five column names. */
  lemma HeaderRead(more: string)
    ensures ReadRecord(Header + more) == Some((HeaderFields, ['\n'] + more))
  {
    HeaderIsJoin();
    Assoc(Join(HeaderFields, ","), "\n", more);
    assert forall i :: 0 <= i < |HeaderFields| ==> Plain(HeaderFields[i]);
    ReadPlainRecord(HeaderFields, ['\n'] + more);
  }

  /** The export reads back, under RFC 4180, as the header record followed
      by one record per row, in query order, each holding the row's id,
      name, company, phone and time. No rows give the header alone. */
  lemma ExportRoundTrip(rows: seq<Signup>)
    requires forall i :: 0 <= i < |rows| ==> Exportable(rows[i])
    ensures ReadDocument(Body(rows)) == Some([HeaderFields] + RowValues(rows))
  {
    var joined := Join(RowTexts(rows), "\n");
    HeaderRead(joined);
    if rows == [] {
      assert Body(rows) == Header + [];
      HeaderEndsRecord();
      AppendNothing([HeaderFields], RowValues(rows));
    } else {
      RowsRoundTrip(rows);
      RowTextHasComma(rows[0]);
      JoinFirstNonEmpty(RowTexts(rows));
      DocumentMore(Header + joined, HeaderFields, joined);
    }
  }

  lemma AppendNothing<T>(a: seq<T>, b: seq<T>)
    requires b == []
    ensures a + b == a
  {
  }

  lemma HeaderEndsRecord()
    ensures ReadDocument(Header) == Some([HeaderFields])
  {
    HeaderRead([]);
    assert Header + [] == Header;
    assert ['\n'] + [] == "\n";
  }

  /** The body starts with the header, and with no rows it is the header. */
  lemma BodyShape(rows: seq<Signup>)
    ensures Header <= Body(rows)
    ensures rows == [] <==> Body(rows) == Header
  {
    if rows != [] {
      RowTextHasComma(rows[0]);
      JoinFirstNonEmpty(RowTexts(rows));
    }
  }
}
