/**
 * The roster upload (`POST /api/upload_prizes`): a password gate, a file
 * gate, then one upsert per accepted row of the uploaded text, every one of
 * them counted.
 */
module UploadPrizes {
  import opened JsString
  import opened Wrappers
  import opened Collections
  import opened PrizeRows
  import Seed

  const AdminPassword := "admin888"

  /** The submitted form: it could not be read (the error's message), or its
      `password` entry when it is a string and the text of its `file` entry
      when there is one. */
  datatype Form = Unreadable(message: string) | Fields(password: Option<string>, file: Option<string>)

  datatype Response =
    | MethodNotAllowed            // 405
    | Unauthorized                // 401
    | NoFile                      // 400
    | ServerError(message: string) // 500
    | Updated(count: nat)         // 200

  /** The row loop: an upsert and a count for every accepted row. */
  method UpsertRows(lines: seq<string>) returns (upserts: seq<PrizeRow>, insertedCount: nat)
    ensures upserts == AcceptedRows(lines)
    ensures insertedCount == |upserts|
  {
    upserts, insertedCount := [], 0;
    var i := 0;
    assert lines[..0] == [];
    while i < |lines|
      invariant 0 <= i <= |lines|
      invariant upserts == AcceptedRows(lines[..i])
      invariant insertedCount == |upserts|
    {
      var accepted := AcceptLine(lines[i]);
      AcceptedRowsStep(lines, i, accepted);
      if accepted != [] {
        assert accepted == [accepted[0]];
        upserts := upserts + [accepted[0]];
        insertedCount := insertedCount + 1;
      }
      i := i + 1;
    }
    assert lines[..i] == lines;
  }

  /** The handler: the method gate, then the password gate before the file
      gate, then the rows. */
  method Handle(verb: string, form: Form) returns (response: Response, upserts: seq<PrizeRow>)
    ensures verb != "POST" ==> response == MethodNotAllowed && upserts == []
    ensures verb == "POST" && form.Unreadable? ==> response == ServerError(form.message) && upserts == []
    ensures verb == "POST" && form.Fields? && form.password != Some(AdminPassword) ==>
      response == Unauthorized && upserts == []
    ensures verb == "POST" && form.Fields? && form.password == Some(AdminPassword) && form.file.None? ==>
      response == NoFile && upserts == []
    ensures verb == "POST" && form.Fields? && form.password == Some(AdminPassword) && form.file.Some? ==>
      upserts == AcceptedRows(TextLines(form.file.value)) && response == Updated(|upserts|)
    ensures response == Outcome(verb, form)
  {
    upserts := [];
    if verb != "POST" {
      return MethodNotAllowed, upserts;
    }
    match form {
      case Unreadable(m) =>
        response := ServerError(m);
      case Fields(password, file) =>
        if password != Some(AdminPassword) {
          return Unauthorized, upserts;
        }
        if file.None? {
          return NoFile, upserts;
        }
        var count;
        upserts, count := UpsertRows(TextLines(file.value));
        response := Updated(count);
    }
  }

  /** Without a file, a wrong password is still reported as 401: the
      password is checked first. */
  lemma PasswordCheckedFirst(password: Option<string>)
    requires password != Some(AdminPassword)
    ensures Outcome("POST", Fields(password, None)) == Unauthorized
  {
  }

  /** The response as a function of the request, matching `Handle`. */
  function Outcome(verb: string, form: Form): (r: Response)
    ensures r.Updated? <==> verb == "POST" && form.Fields? && form.password == Some(AdminPassword) && form.file.Some?
  {
    if verb != "POST" then MethodNotAllowed
    else match form
      case Unreadable(m) => ServerError(m)
      case Fields(password, file) =>
        if password != Some(AdminPassword) then Unauthorized
        else if file.None? then NoFile
        else Updated(|AcceptedRows(TextLines(file.value))|)
  }

  /** The upload counts every accepted row, so it counts at least as many as
      seeding the same text inserts, and more exactly when an English name
      repeats. */
  lemma UploadCountsRepeats(text: string)
    ensures Outcome("POST", Fields(Some(AdminPassword), Some(text))).count >= |Seed.Upserts(text)|
    ensures Outcome("POST", Fields(Some(AdminPassword), Some(text))).count > |Seed.Upserts(text)| <==>
      !NoDuplicates(EnglishNames(AcceptedRows(TextLines(text))))
  {
    Seed.RepeatedNameLowersCount(text);
  }
}
