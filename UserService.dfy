/**
 * The credential store (`UserService`): a plain-text file of
 * `username:password` lines, re-read on every authentication.
 * The file is abstracted as what reading it yields.
 */
module Users {
  import opened Wrappers
  import opened Errors
  import opened Text

  datatype User = User(username: string, password: string)

  /** What `File.ReadAllLines` yields for the users file. */
  datatype UsersFile =
    | Missing                         // File.Exists is false
    | Lines(lines: seq<string>)
    | ReadFailed(cause: AccessCause)  // IOException, or any other failure

  const Delimiter: char := ':'

  /** `line.Split(':')` kept only when it has two parts and a non-blank name. */
  function ParseLine(line: string): Option<User> {
    var parts := Split(line, Delimiter);
    if |parts| == 2 && !IsBlank(parts[0]) then Some(User(Trim(parts[0]), parts[1])) else None
  }

  /**
   * An accepted line holds exactly one `:`; the password is everything after
   * it, verbatim; the name is the trimmed, non-blank text before it.
   */
  lemma ParseLineSound(line: string)
    ensures Count(line, Delimiter) != 1 ==> ParseLine(line) == None
    ensures ParseLine(line).Some? ==>
              var u := ParseLine(line).value;
              var n := |line| - |u.password| - 1;
              && 0 <= n && line[n] == Delimiter
              && u.password == line[n + 1..]
              && !IsBlank(line[..n])
              && u.username == Trim(line[..n])
              && u.username != []
              && Delimiter !in u.username && Delimiter !in u.password
  {
    var parts := Split(line, Delimiter);
    if |parts| == 2 && !IsBlank(parts[0]) {
      var u := User(Trim(parts[0]), parts[1]);
      assert ParseLine(line) == Some(u);
      var n := |parts[0]|;
      JoinSplit(line, Delimiter);
      assert parts[1..] == [parts[1]];
      assert line == parts[0] + [Delimiter] + parts[1];
      assert line[..n] == parts[0] && line[n] == Delimiter && line[n + 1..] == parts[1];
      assert |line| - |ParseLine(line).value.password| - 1 == n;
      assert line[..|line| - |ParseLine(line).value.password| - 1] == parts[0];
      TrimKeepsAbsent(parts[0], Delimiter);
    }
  }

  /** Every line of the shape `name:password` with a non-blank name is accepted, as `Trim(name)`. */
  lemma ParseLineAccepts(name: string, password: string)
    requires Delimiter !in name && Delimiter !in password && !IsBlank(name)
    ensures ParseLine(name + [Delimiter] + password) == Some(User(Trim(name), password))
  {
    SplitOnce(name, password, Delimiter);
  }

  /** What the loop over the lines collects: each defined image, in the order of the lines. */
  function FilterMap<A, B>(xs: seq<A>, f: A -> Option<B>): (ys: seq<B>)
    ensures |ys| <= |xs|
  {
    if xs == [] then []
    else
      var last := f(xs[|xs| - 1]);
      FilterMap(xs[..|xs| - 1], f) + (if last.Some? then [last.value] else [])
  }

  /** Filtering works element by element, so it keeps the order. */
  lemma {:induction false} FilterMapAppend<A, B>(a: seq<A>, b: seq<A>, f: A -> Option<B>)
    ensures FilterMap(a + b, f) == FilterMap(a, f) + FilterMap(b, f)
  {
    if b == [] {
      assert a + b == a;
    } else {
      var ab := a + b;
      assert ab[..|ab| - 1] == a + b[..|b| - 1];
      assert ab[|ab| - 1] == b[|b| - 1];
      FilterMapAppend(a, b[..|b| - 1], f);
    }
  }

  lemma FilterMapSingle<A, B>(x: A, f: A -> Option<B>)
    ensures FilterMap([x], f) == if f(x).Some? then [f(x).value] else []
  {
    assert [x][..0] == [];
  }

  /** Every output comes from some input, and every defined input's image is output. */
  lemma {:induction false} FilterMapMembers<A, B>(xs: seq<A>, f: A -> Option<B>)
    ensures forall y :: y in FilterMap(xs, f) ==> exists i :: 0 <= i < |xs| && f(xs[i]) == Some(y)
    ensures forall i :: 0 <= i < |xs| && f(xs[i]).Some? ==> f(xs[i]).value in FilterMap(xs, f)
  {
    if xs != [] {
      var init := xs[..|xs| - 1];
      FilterMapMembers(init, f);
      forall y | y in FilterMap(xs, f)
        ensures exists i :: 0 <= i < |xs| && f(xs[i]) == Some(y)
      {
        if y in FilterMap(init, f) {
          var i :| 0 <= i < |init| && f(init[i]) == Some(y);
          assert xs[i] == init[i];
        } else {
          assert f(xs[|xs| - 1]) == Some(y);
        }
      }
      forall i | 0 <= i < |xs| && f(xs[i]).Some?
        ensures f(xs[i]).value in FilterMap(xs, f)
      {
        if i < |xs| - 1 {
          assert xs[i] == init[i];
        }
      }
    }
  }

  /** The users a list of lines describes: the accepted lines, in order. */
  function ParseUsers(lines: seq<string>): seq<User> {
    FilterMap(lines, ParseLine)
  }

  /** `LoadUsers`, as a value: a missing file holds no users; a failed read is a data-access error. */
  function UsersOf(file: UsersFile): Result<seq<User>, Error> {
    match file
    case Missing => Ok([])
    case Lines(lines) => Ok(ParseUsers(lines))
    case ReadFailed(cause) => Err(DataAccess(cause))
  }

  /** `LoadUsers`: read the file line by line, keeping the well-formed lines. */
  method LoadUsers(file: UsersFile) returns (r: Result<seq<User>, Error>)
    ensures r == UsersOf(file)
  {
    match file
    case Missing =>
      return Ok([]);
    case ReadFailed(cause) =>
      return Err(DataAccess(cause));
    case Lines(lines) =>
      var users: seq<User> := [];
      for i := 0 to |lines|
        invariant users == ParseUsers(lines[..i])
      {
        var parts := Split(lines[i], Delimiter);
        if |parts| == 2 && !IsBlank(parts[0]) {
          users := users + [User(Trim(parts[0]), parts[1])];
        }
        assert lines[..i + 1][..i] == lines[..i];
      }
      assert lines[..|lines|] == lines;
      return Ok(users);
  }

  /** The position of the first user whose name equals `username` ignoring case. */
  function FindUser(users: seq<User>, username: string): (r: Option<nat>)
    ensures r.Some? ==> r.value < |users| && EqIgnoreCase(users[r.value].username, username)
    ensures r.Some? ==> forall j :: 0 <= j < r.value ==> !EqIgnoreCase(users[j].username, username)
    ensures r.None? <==> forall j :: 0 <= j < |users| ==> !EqIgnoreCase(users[j].username, username)
  {
    if users == [] then None
    else if EqIgnoreCase(users[0].username, username) then Some(0)
    else match FindUser(users[1..], username)
      case None => None
      case Some(k) => Some(k + 1)
  }

  /**
   * `Authenticate`: blank input is refused before the file is read; a load
   * error is passed on as it is; then the first user whose name matches ignoring case decides: not found, wrong
   * password (compared exactly), or that user.
   */
  function Authenticate(file: UsersFile, username: string, password: string): (r: Result<User, Error>)
    ensures IsBlank(username) || IsBlank(password) ==> r == Err(Authentication(BlankCredentials))
    ensures r.Err? ==> r.error.IsAuthentication() || (UsersOf(file).Err? && r.error == UsersOf(file).error)
    ensures !IsBlank(username) && !IsBlank(password) && UsersOf(file).Err? ==> r == Err(UsersOf(file).error)
    ensures r.Ok? ==>
              && UsersOf(file).Ok? && r.value in UsersOf(file).value
              && EqIgnoreCase(r.value.username, username) && r.value.password == password
  {
    if IsBlank(username) || IsBlank(password) then Err(Authentication(BlankCredentials))
    else match UsersOf(file)
      case Err(e) => Err(e)
      case Ok(users) =>
        match FindUser(users, username)
        case None => Err(Authentication(UserNotFound(username)))
        case Some(i) =>
          if users[i].password != password then Err(Authentication(InvalidPassword(username)))
          else Ok(users[i])
  }

  /**
   * With non-blank input and a readable file, the answer is user-not-found
   * exactly when no name matches; otherwise the first matching user alone
   * decides, by exact comparison of the password.
   */
  lemma AuthenticateDecision(file: UsersFile, username: string, password: string)
    requires !IsBlank(username) && !IsBlank(password) && UsersOf(file).Ok?
    ensures Authenticate(file, username, password) == Err(Authentication(UserNotFound(username))) <==>
            forall u :: u in UsersOf(file).value ==> !EqIgnoreCase(u.username, username)
    ensures FindUser(UsersOf(file).value, username).Some? ==>
              var u := UsersOf(file).value[FindUser(UsersOf(file).value, username).value];
              (u.password == password ==> Authenticate(file, username, password) == Ok(u)) &&
              (u.password != password ==>
                 Authenticate(file, username, password) == Err(Authentication(InvalidPassword(username))))
  {
    var users := UsersOf(file).value;
    if FindUser(users, username).None? {
      forall u | u in users ensures !EqIgnoreCase(u.username, username) {
        var j :| 0 <= j < |users| && users[j] == u;
      }
    }
  }

  /** The only line of a freshly seeded users file. */
  const SeedLine: string := "admin:admin"

  /**
   * `EnsureUserFileExists`: a missing file is created holding `admin:admin`;
   * if that write fails (`writeFault`), the failure is swallowed and the file
   * stays missing. An existing file is never touched.
   */
  function EnsureUserFileExists(file: UsersFile, writeFault: bool): (r: UsersFile)
    ensures !file.Missing? ==> r == file
    ensures file.Missing? && !writeFault ==> r == Lines([SeedLine])
    ensures file.Missing? && writeFault ==> r == Missing
  {
    if file.Missing? && !writeFault then Lines([SeedLine]) else file
  }

  /** A freshly seeded file holds exactly the user `admin` with password `admin`. */
  lemma SeededUsers()
    ensures UsersOf(EnsureUserFileExists(Missing, false)) == Ok([User("admin", "admin")])
  {
    SeedLineParses();
    FilterMapSingle(SeedLine, ParseLine);
  }

  /** The seed line is the user `admin` with password `admin`. */
  lemma SeedLineParses()
    ensures ParseLine(SeedLine) == Some(User("admin", "admin"))
  {
    var admin := "admin";
    assert SeedLine == admin + [Delimiter] + admin;
    TrimUnpadded(admin);
    ParseLineAccepts(admin, admin);
  }

  /** Against a file holding one user, the answer depends only on that user's name and password. */
  lemma AuthenticateAgainstOne(file: UsersFile, user: User, username: string, password: string)
    requires UsersOf(file) == Ok([user])
    requires !IsBlank(username) && !IsBlank(password)
    ensures !EqIgnoreCase(user.username, username) ==>
              Authenticate(file, username, password) == Err(Authentication(UserNotFound(username)))
    ensures EqIgnoreCase(user.username, username) && user.password != password ==>
              Authenticate(file, username, password) == Err(Authentication(InvalidPassword(username)))
    ensures EqIgnoreCase(user.username, username) && user.password == password ==>
              Authenticate(file, username, password) == Ok(user)
  {
    assert [user][1..] == [];
  }

  /**
   * After seeding, the name `admin` matches under any capitalisation, the
   * password `admin` only exactly, and every other name is unknown.
   */
  lemma SeededAuthentication(username: string, password: string)
    requires !IsBlank(username) && !IsBlank(password)
    ensures EqIgnoreCase(username, "admin") && password == "admin" ==>
              Authenticate(EnsureUserFileExists(Missing, false), username, password) == Ok(User("admin", "admin"))
    ensures EqIgnoreCase(username, "admin") && password != "admin" ==>
              Authenticate(EnsureUserFileExists(Missing, false), username, password) ==
              Err(Authentication(InvalidPassword(username)))
    ensures !EqIgnoreCase(username, "admin") ==>
              Authenticate(EnsureUserFileExists(Missing, false), username, password) ==
              Err(Authentication(UserNotFound(username)))
  {
    SeededUsers();
    AuthenticateAgainstOne(EnsureUserFileExists(Missing, false), User("admin", "admin"), username, password);
  }
}
