/**
 * The client's in-memory store: the signed-in user, the user list, the
 * department list and the display configuration, with the actions that
 * update them.
 */
module AppContext {
  import opened Wrappers
  import opened JsString
  import opened Collections

  datatype User = User(name: string, phone: string, department: string, prize: string, isRedeemed: Option<bool>)

  datatype AppConfig = AppConfig(mainVisualUrl: string, eventVideoUrl: string)

  /** A `Partial<AppConfig>`: the keys it supplies. */
  datatype ConfigPatch = ConfigPatch(mainVisualUrl: Option<string>, eventVideoUrl: Option<string>)

  datatype LoginResult = LoginResult(success: bool, message: Option<string>)

  const NotFoundMessage := "找無此人，請確認姓名電話與部門是否正確。"

  const InitialUsers := [
    User("王小明", "0912345678", "業務部", "特獎：iPhone 16 Pro", None),
    User("李大同", "0900000000", "工程部", "頭獎：PS5 Pro", None),
    User("測試員", "0911111111", "行政部", "安慰獎：衛生紙一包", None)]

  const InitialDepartments := ["業務部", "工程部", "人資部", "行政部", "設計部"]

  const DefaultConfig := AppConfig(
    "https://placehold.co/1920x1080/2e1065/FFF?text=Lucky+Draw+Event",
    "https://cdn.pixabay.com/video/2022/12/13/142750-781033230_large.mp4")

  /** The login test: name, phone and department all equal. */
  predicate Matches(u: User, name: string, phone: string, department: string) {
    u.name == name && u.phone == phone && u.department == department
  }

  /** `allUsers.find(...)`: the first user that matches, if any. */
  function FindUser(users: seq<User>, name: string, phone: string, department: string): (r: Option<User>)
    ensures r.None? <==> forall i :: 0 <= i < |users| ==> !Matches(users[i], name, phone, department)
    ensures r.Some? ==> exists i :: 0 <= i < |users| && users[i] == r.value
                           && Matches(r.value, name, phone, department)
                           && forall j :: 0 <= j < i ==> !Matches(users[j], name, phone, department)
  {
    if users == [] then None
    else if Matches(users[0], name, phone, department) then Some(users[0])
    else
      var r := FindUser(users[1..], name, phone, department);
      assert forall i :: 0 < i < |users| ==> users[i] == users[1..][i - 1];
      r
  }

  /** `{ ...prev, ...patch }` */
  function ApplyPatch(config: AppConfig, patch: ConfigPatch): AppConfig {
    AppConfig(
      if patch.mainVisualUrl.Some? then patch.mainVisualUrl.value else config.mainVisualUrl,
      if patch.eventVideoUrl.Some? then patch.eventVideoUrl.value else config.eventVideoUrl)
  }

  /** `{ ...p, ...q }` for two patches: a key of `q` wins over the same key
      of `p`. */
  function MergePatches(p: ConfigPatch, q: ConfigPatch): ConfigPatch {
    ConfigPatch(
      if q.mainVisualUrl.Some? then q.mainVisualUrl else p.mainVisualUrl,
      if q.eventVideoUrl.Some? then q.eventVideoUrl else p.eventVideoUrl)
  }

  /** The trimmed comma fields of an imported line. */
  function ImportFields(line: string): seq<string> {
    TrimAll(Split(line, {','}))
  }

  /** What one line of an import adds: a user from its first four trimmed
      comma fields, when it has at least four. */
  function ImportedUser(line: string): seq<User> {
    var parts := ImportFields(line);
    if |parts| >= 4 then [User(parts[0], parts[1], parts[2], parts[3], None)] else []
  }

  /** Every user an import adds, in line order. */
  function ImportedUsers(lines: seq<string>): seq<User> {
    FlatMap(lines, ImportedUser)
  }

  /** `departments` with `dept` added unless it is already there. */
  function WithDepartment(departments: seq<string>, dept: string): seq<string> {
    if dept in departments then departments else departments + [dept]
  }

  /** The `forEach` over the lines: a user from every line with four or
      more fields, pushed in line order. */
  method CollectImports(lines: seq<string>) returns (newUsers: seq<User>)
    ensures newUsers == ImportedUsers(lines)
  {
    newUsers := [];
    var i := 0;
    assert lines[..0] == [];
    while i < |lines|
      invariant 0 <= i <= |lines|
      invariant newUsers == ImportedUsers(lines[..i])
    {
      var parts := ImportFields(lines[i]);
      ImportStep(lines, i);
      if |parts| >= 4 {
        newUsers := newUsers + [User(parts[0], parts[1], parts[2], parts[3], None)];
      }
      i := i + 1;
    }
    assert lines[..i] == lines;
  }

  class AppStore {
    var currentUser: Option<User>
    var config: AppConfig
    var allUsers: seq<User>
    var departments: seq<string>

    /** The department list never holds a name twice. */
    ghost predicate Valid()
      reads this
    {
      NoDuplicates(departments)
    }

    constructor()
      ensures Valid()
      ensures currentUser == None && config == DefaultConfig
      ensures allUsers == InitialUsers && departments == InitialDepartments
    {
      currentUser := None;
      config := DefaultConfig;
      allUsers := InitialUsers;
      departments := InitialDepartments;
    }

    /** Signs in the first user that matches all three fields; a failed
        attempt leaves the signed-in user as it was. */
    method Login(name: string, phone: string, department: string) returns (result: LoginResult)
      modifies this
      ensures unchanged(this`allUsers) && unchanged(this`departments) && unchanged(this`config)
      ensures FindUser(allUsers, name, phone, department).Some? ==>
        result == LoginResult(true, None) && currentUser == FindUser(allUsers, name, phone, department)
      ensures FindUser(allUsers, name, phone, department).None? ==>
        result == LoginResult(false, Some(NotFoundMessage)) && currentUser == old(currentUser)
    {
      var user := FindUser(allUsers, name, phone, department);
      if user.Some? {
        currentUser := user;
        result := LoginResult(true, None);
      } else {
        result := LoginResult(false, Some(NotFoundMessage));
      }
    }

    method Logout()
      modifies this
      ensures currentUser == None
      ensures unchanged(this`allUsers) && unchanged(this`departments) && unchanged(this`config)
    {
      currentUser := None;
    }

    method UpdateConfig(patch: ConfigPatch)
      modifies this
      ensures config == ApplyPatch(old(config), patch)
      ensures unchanged(this`currentUser) && unchanged(this`allUsers) && unchanged(this`departments)
    {
      config := ApplyPatch(config, patch);
    }

    /** Collects the imported users, then appends them all when there is
        at least one. */
    method ImportUsers(csvContent: string)
      modifies this
      ensures allUsers == old(allUsers) + ImportedUsers(Split(csvContent, {'\n'}))
      ensures unchanged(this`currentUser) && unchanged(this`departments) && unchanged(this`config)
    {
      var newUsers := CollectImports(Split(csvContent, {'\n'}));
      if |newUsers| > 0 {
        allUsers := allUsers + newUsers;
      } else {
        assert allUsers + newUsers == allUsers;
      }
    }

    method AddDepartment(dept: string)
      requires Valid()
      modifies this
      ensures Valid()
      ensures departments == WithDepartment(old(departments), dept)
      ensures unchanged(this`currentUser) && unchanged(this`allUsers) && unchanged(this`config)
    {
      if dept !in departments {
        WithDepartmentDistinct(departments, dept);
        departments := departments + [dept];
      }
    }

    method RemoveDepartment(dept: string)
      requires Valid()
      modifies this
      ensures Valid()
      ensures departments == RemoveAll(old(departments), dept)
      ensures unchanged(this`currentUser) && unchanged(this`allUsers) && unchanged(this`config)
    {
      RemoveAllPreservesDistinct(departments, dept);
      departments := RemoveAll(departments, dept);
    }
  }

  // ---------------------------------------------------------------------
  // Configuration patches.

  /** A patch overwrites exactly the keys it supplies. */
  lemma PatchOverwritesSupplied(config: AppConfig, patch: ConfigPatch)
    ensures patch.mainVisualUrl.Some? ==> ApplyPatch(config, patch).mainVisualUrl == patch.mainVisualUrl.value
    ensures patch.mainVisualUrl.None? ==> ApplyPatch(config, patch).mainVisualUrl == config.mainVisualUrl
    ensures patch.eventVideoUrl.Some? ==> ApplyPatch(config, patch).eventVideoUrl == patch.eventVideoUrl.value
    ensures patch.eventVideoUrl.None? ==> ApplyPatch(config, patch).eventVideoUrl == config.eventVideoUrl
    ensures patch == ConfigPatch(None, None) ==> ApplyPatch(config, patch) == config
  {
  }

  /** Two updates in a row are one update with the merged patch, and
      repeating an update changes nothing more. */
  lemma PatchesCompose(config: AppConfig, p: ConfigPatch, q: ConfigPatch)
    ensures ApplyPatch(ApplyPatch(config, p), q) == ApplyPatch(config, MergePatches(p, q))
    ensures ApplyPatch(ApplyPatch(config, p), p) == ApplyPatch(config, p)
  {
  }

  // ---------------------------------------------------------------------
  // Import.

  lemma ImportStep(lines: seq<string>, i: nat)
    requires i < |lines|
    ensures ImportedUsers(lines[..i + 1]) == ImportedUsers(lines[..i]) + ImportedUser(lines[i])
  {
    FlatMapSnoc(lines[..i], lines[i], ImportedUser);
    assert lines[..i + 1] == lines[..i] + [lines[i]];
  }

  /** The import adds one user per qualifying line, built from that line's
      first four fields, and nothing else. */
  lemma ImportMembers(lines: seq<string>, u: User)
    ensures u in ImportedUsers(lines) <==>
      exists k :: 0 <= k < |lines| && |ImportFields(lines[k])| >= 4
        && u == User(ImportFields(lines[k])[0], ImportFields(lines[k])[1],
                     ImportFields(lines[k])[2], ImportFields(lines[k])[3], None)
  {
    FlatMapMember(lines, ImportedUser, u);
  }

  /** The import adds nobody exactly when no line has four fields. */
  lemma ImportNothing(lines: seq<string>)
    ensures ImportedUsers(lines) == [] <==> forall k :: 0 <= k < |lines| ==> |ImportFields(lines[k])| < 4
  {
    FlatMapEmpty(lines, ImportedUser);
    forall k | 0 <= k < |lines| ensures ImportedUser(lines[k]) == [] <==> |ImportFields(lines[k])| < 4 {
    }
  }

  /** The number of users added is the number of qualifying lines. */
  function QualifyingLines(lines: seq<string>): nat {
    if lines == [] then 0
    else QualifyingLines(lines[..|lines| - 1]) + (if |ImportFields(lines[|lines| - 1])| >= 4 then 1 else 0)
  }

  lemma {:induction false} ImportCount(lines: seq<string>)
    ensures |ImportedUsers(lines)| == QualifyingLines(lines)
  {
    if lines != [] {
      ImportCount(lines[..|lines| - 1]);
    }
  }

  /** The fields of a line written as `name,phone,department,prize` from
      trimmed values without commas come back as those values, so importing
      it adds exactly that user (not yet redeemed). */
  lemma ImportLineRoundTrip(name: string, phone: string, department: string, prize: string)
    requires IsTrimmed(name) && IsTrimmed(phone) && IsTrimmed(department) && IsTrimmed(prize)
    requires ',' !in name && ',' !in phone && ',' !in department && ',' !in prize
    ensures ImportedUser(Join([name, phone, department, prize], ",")) == [User(name, phone, department, prize, None)]
  {
    var parts := [name, phone, department, prize];
    SplitJoinFour(parts);
    TrimOfTrimmed(name);
    TrimOfTrimmed(phone);
    TrimOfTrimmed(department);
    TrimOfTrimmed(prize);
    assert TrimAll(parts) == parts;
  }

  lemma SplitJoinFour(parts: seq<string>)
    requires |parts| == 4 && forall k :: 0 <= k < 4 ==> ',' !in parts[k]
    ensures Split(Join(parts, ","), {','}) == parts
  {
    SplitJoinOne(parts[2..]);
    SplitJoinStep(parts[1..]);
    SplitJoinStep(parts);
  }

  lemma SplitJoinOne(parts: seq<string>)
    requires |parts| == 2 && ',' !in parts[0] && ',' !in parts[1]
    ensures Split(Join(parts, ","), {','}) == parts
  {
    SplitWithout(parts[0], {','});
    SplitWithout(parts[1], {','});
    SplitConcat(parts[0], ',', parts[1], {','});
    assert Join(parts[1..], ",") == parts[1];
  }

  lemma SplitJoinStep(parts: seq<string>)
    requires |parts| >= 2 && ',' !in parts[0]
    requires Split(Join(parts[1..], ","), {','}) == parts[1..]
    ensures Split(Join(parts, ","), {','}) == parts
  {
    SplitWithout(parts[0], {','});
    SplitConcat(parts[0], ',', Join(parts[1..], ","), {','});
    assert [parts[0]] + parts[1..] == parts;
  }

  // ---------------------------------------------------------------------
  // Departments.

  /** Adding keeps the list free of repeats, adds the name, keeps every
      existing name in its place, and adding twice is adding once. */
  lemma WithDepartmentDistinct(departments: seq<string>, dept: string)
    requires NoDuplicates(departments)
    ensures NoDuplicates(WithDepartment(departments, dept))
    ensures dept in WithDepartment(departments, dept)
    ensures departments <= WithDepartment(departments, dept)
    ensures WithDepartment(WithDepartment(departments, dept), dept) == WithDepartment(departments, dept)
  {
    if dept !in departments {
      var d := departments + [dept];
      forall i, j | 0 <= i < j < |d| ensures d[i] != d[j] {
        if j < |departments| { assert d[i] == departments[i] && d[j] == departments[j]; }
      }
    }
  }

  /** Removing then adding back a department moves it to the end; adding
      then removing it is the same as removing it. */
  lemma RemoveAfterAdd(departments: seq<string>, dept: string)
    ensures RemoveAll(WithDepartment(departments, dept), dept) == RemoveAll(departments, dept)
    ensures WithDepartment(RemoveAll(departments, dept), dept) == RemoveAll(departments, dept) + [dept]
  {
    if dept !in departments {
      RemoveAllSnoc(departments, dept);
    }
  }

  lemma {:induction false} RemoveAllSnoc(s: seq<string>, x: string)
    ensures RemoveAll(s + [x], x) == RemoveAll(s, x)
  {
    if s == [] {
      assert [] + [x] == [x];
      assert [x][1..] == [];
    } else {
      assert (s + [x])[1..] == s[1..] + [x];
      RemoveAllSnoc(s[1..], x);
    }
  }
}
