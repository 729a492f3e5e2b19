/**
 The login service over the credential file and the session store:
 `GetUserInfo`, `Inituser`, `Login`, `Logout`, `ChangeUser` and
 `ChangePassword`. Each operation is a pure function from the current file
 (and session store) to its outcome; a Go panic is a `Fail`.
 */
module LoginService {
  import opened Outcomes
  import opened GoStrings
  import opened Credentials
  import opened Sessions

  /** The login request body: the candidate credentials and the session id
      the service fills in. */
  datatype UserVO = UserVO(username: string, password: string, sessionId: Option<SessionId>)

  /** `vo.Response`; `data` is None where the Go code leaves `Data` nil. */
  datatype Response = Response(code: int, msg: string, data: Option<map<string, string>>)

  /** What a successful login produces: the response, the request body as
      Login leaves it, and the session store with the new session. */
  datatype LoggedIn = LoggedIn(response: Response, user: UserVO, store: Store)

  /** What a password change produces: the response and the rewritten file. */
  datatype PasswordChanged = PasswordChanged(response: Response, file: File)

  const LoginSuccess := "Login success"
  const PasswordUpdated := "Update user new password success"
  const AuthenticationFailure := "User authentication failed"

  /** The lines GetUserInfo and ChangePassword read (0, 2, 3 and 4) can be read. */
  predicate ProfileReadable(f: File) {
    f.Lines? && Readable(f.lines, Username) && Readable(f.lines, DisplayName)
    && Readable(f.lines, Email) && Readable(f.lines, PhotoURL)
  }

  /** The lines ChangeUser reads (2, 3 and 4) can be read. */
  predicate ContactReadable(f: File) {
    f.Lines? && Readable(f.lines, DisplayName) && Readable(f.lines, Email) && Readable(f.lines, PhotoURL)
  }

  /** All five lines Login reads can be read. */
  predicate RecordReadable(f: File) {
    f.Lines? && WellFormed(f.lines)
  }

  /** The five lines both rewrite paths write. Note the order of the last two:
      the photo URL goes to line 3 and the email to line 4, the reverse of
      the positions the readers take them from. */
  function RewrittenLines(username: string, password: string, displayName: string,
                          email: string, photoURL: string): (lines: seq<string>)
    ensures |lines| == 5
    ensures lines[Username] == "username = " + username && lines[Password] == "password = " + password
    ensures WellFormed(lines)
    ensures Field(lines[Username]) == Some(Normalize(username))
    ensures Field(lines[Password]) == Some(Normalize(password))
    ensures Field(lines[DisplayName]) == Some(Normalize(displayName))
    ensures Field(lines[Email]) == Some(Normalize(photoURL))
    ensures Field(lines[PhotoURL]) == Some(Normalize(email))
  {
    var lines := [
      "username = " + username,
      "password = " + password,
      "displayName=" + displayName,
      "photoURL=" + photoURL,
      "email=" + email
    ];
    assert && lines[0] == "username = " + username && lines[1] == "password = " + password
           && lines[2] == "displayName=" + displayName && lines[3] == "photoURL=" + photoURL
           && lines[4] == "email=" + email;
    UsernameSpacedLine(username);
    PasswordSpacedLine(password);
    DisplayNamePlainLine(displayName);
    PhotoURLPlainLine(photoURL);
    EmailPlainLine(email);
    lines
  }

  /** `GetUserInfo`: the four public fields, from lines 0, 2, 3 and 4. The
      password line is never read, and the file is not written. */
  function GetUserInfo(f: File): (r: Result<map<string, string>>)
    ensures r.Ok? <==> ProfileReadable(f)
    ensures r.Ok? ==> r.value.Keys == {"username", "displayName", "email", "photoURL"}
    ensures r.Ok? ==> r.value["username"] == FieldAt(f.lines, Username)
                      && r.value["displayName"] == FieldAt(f.lines, DisplayName)
                      && r.value["email"] == FieldAt(f.lines, Email)
                      && r.value["photoURL"] == FieldAt(f.lines, PhotoURL)
    ensures r.Fail? ==> IsReadPanic(f, r.panic, {Username, DisplayName, Email, PhotoURL})
  {
    var lines :- ReadLnFile(f);
    var username :- ReadField(lines, Username);
    var displayName :- ReadField(lines, DisplayName);
    var email :- ReadField(lines, Email);
    var photoURL :- ReadField(lines, PhotoURL);
    Ok(ProfileMap(Profile(username, displayName, email, photoURL)))
  }

  /** `Inituser`: replaces the file with the candidate's username and password
      followed by three empty lines (without any '='). */
  function Inituser(user: UserVO): (f: File)
    ensures f.Lines? && |f.lines| == 5
    ensures Field(f.lines[Username]) == Some(Normalize(user.username))
    ensures Field(f.lines[Password]) == Some(Normalize(user.password))
    ensures f.lines[DisplayName] == "" && f.lines[Email] == "" && f.lines[PhotoURL] == ""
  {
    var username := "username=" + user.username;
    var password := "password=" + user.password;
    var displayName := "";
    var email := "";
    var photoURL := "";
    var lines := [username, password, displayName, photoURL, email];
    assert lines[0] == username && lines[1] == password && lines[2] == "" && lines[3] == "" && lines[4] == "";
    UsernamePlainLine(user.username);
    PasswordPlainLine(user.password);
    Lines(lines)
  }

  /** `Login`: reads all five fields, then compares the candidate with the
      stored username and password. A mismatch panics (`log.Panicln`), so the
      401 response the Go code builds after it is never returned. On a match
      a new session is started holding the username, and the response carries
      the four public fields. */
  function Login(user: UserVO, f: File, store: Store): (r: Result<LoggedIn>)
    requires store.Valid()
    ensures r.Ok? <==> RecordReadable(f)
                       && FieldAt(f.lines, Username) == user.username
                       && FieldAt(f.lines, Password) == user.password
    ensures r.Fail? ==> if RecordReadable(f) then r.panic == AuthenticationFailed
                        else IsReadPanic(f, r.panic, {Username, Password, DisplayName, Email, PhotoURL})
    ensures r.Ok? ==> r.value.response.code == 200 && r.value.response.msg == LoginSuccess
    ensures r.Ok? ==> r.value.response.data
                      == Some(ProfileMap(Profile(FieldAt(f.lines, Username), FieldAt(f.lines, DisplayName),
                                                 FieldAt(f.lines, Email), FieldAt(f.lines, PhotoURL))))
    ensures r.Ok? ==> var id := r.value.user.sessionId;
                      && r.value.user == UserVO(user.username, "", id)
                      && id.Some? && id.value !in store.live
                      && r.value.store.Valid()
                      && r.value.store.live.Keys == store.live.Keys + {id.value}
                      && r.value.store.live[id.value] == map["username" := user.username]
                      && forall other :: other in store.live ==> r.value.store.live[other] == store.live[other]
  {
    var lines :- ReadLnFile(f);
    var username :- ReadField(lines, Username);
    var password :- ReadField(lines, Password);
    var displayName :- ReadField(lines, DisplayName);
    var email :- ReadField(lines, Email);
    var photoURL :- ReadField(lines, PhotoURL);
    if username != user.username || password != user.password then
      Fail(AuthenticationFailed)
    else
      var session := Start(store);
      var store' := Set(session.store, session.id, "username", username);
      var user' := user.(sessionId := Some(session.id)).(password := "");
      var data := ProfileMap(Profile(username, displayName, email, photoURL));
      Ok(LoggedIn(Response(200, LoginSuccess, Some(data)), user', store'))
  }

  /** `Logout`: destroys the session the request's cookie names. */
  function Logout(cookie: Option<SessionId>, store: Store): (r: Store)
    ensures store.Valid() ==> r.Valid()
    ensures cookie.Some? ==> r.live.Keys == store.live.Keys - {cookie.value}
    ensures cookie.None? ==> r == store
    ensures forall id :: id in r.live ==> r.live[id] == store.live[id]
  {
    Destroy(store, cookie)
  }

  /** `ChangeUser`: keeps the display name, email and photo URL read from
      lines 2 to 4, and rewrites all five lines with the new username and
      password. */
  function ChangeUser(username: string, password: string, f: File): (r: Result<File>)
    ensures r.Ok? <==> ContactReadable(f)
    ensures r.Ok? ==> r.value.Lines? && |r.value.lines| == 5
    ensures r.Ok? ==> r.value.lines[Username] == "username = " + username
                      && r.value.lines[Password] == "password = " + password
    ensures r.Ok? ==> ParseRecord(r.value)
                      == Ok(Record(Normalize(username), Normalize(password), FieldAt(f.lines, DisplayName),
                                   FieldAt(f.lines, PhotoURL), FieldAt(f.lines, Email)))
    ensures r.Fail? ==> IsReadPanic(f, r.panic, {DisplayName, Email, PhotoURL})
  {
    var lines :- ReadLnFile(f);
    var displayName :- ReadField(lines, DisplayName);
    var email :- ReadField(lines, Email);
    var photoURL :- ReadField(lines, PhotoURL);
    Ok(Lines(RewrittenLines(username, password, displayName, email, photoURL)))
  }

  /** `ChangePassword`: keeps the username, display name, email and photo URL
      read from lines 0, 2, 3 and 4, rewrites all five lines with the new
      password, and reports success without any validation. */
  function ChangePassword(newPassword: string, f: File): (r: Result<PasswordChanged>)
    ensures r.Ok? <==> ProfileReadable(f)
    ensures r.Ok? ==> r.value.response == Response(200, PasswordUpdated, None)
    ensures r.Ok? ==> r.value.file.Lines? && |r.value.file.lines| == 5
    ensures r.Ok? ==> r.value.file.lines[Password] == "password = " + newPassword
    ensures r.Ok? ==> ParseRecord(r.value.file)
                      == Ok(Record(FieldAt(f.lines, Username), Normalize(newPassword), FieldAt(f.lines, DisplayName),
                                   FieldAt(f.lines, PhotoURL), FieldAt(f.lines, Email)))
    ensures r.Fail? ==> IsReadPanic(f, r.panic, {Username, DisplayName, Email, PhotoURL})
  {
    var lines :- ReadLnFile(f);
    var username :- ReadField(lines, Username);
    var displayName :- ReadField(lines, DisplayName);
    var email :- ReadField(lines, Email);
    var photoURL :- ReadField(lines, PhotoURL);
    var written := RewrittenLines(username, password := newPassword, displayName := displayName,
                                  email := email, photoURL := photoURL);
    Ok(PasswordChanged(Response(200, PasswordUpdated, None), Lines(written)))
  }
}
