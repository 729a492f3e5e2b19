/**
 Corrected versions of the three service operations whose behaviour departs
 from what the surrounding code evidently intends, each with the intended
 property proved, next to a concrete input on which the operation as written
 shows the departure.

 - The rewrite paths put the photo URL on the email line and vice versa.
 - A failed login panics instead of returning the 401 response built for it.
 - Inituser writes three lines without '=', which every reader panics on.
 */
module Corrected {
  import opened Outcomes
  import opened GoStrings
  import opened Credentials
  import opened Sessions
  import opened LoginService
  import opened LoginProperties

  /** The five lines of a record, each in the position its reader expects. */
  function RecordLines(rec: Record): (lines: seq<string>)
    ensures |lines| == 5
    ensures ParseRecord(Lines(lines))
            == Ok(Record(Normalize(rec.username), Normalize(rec.password), Normalize(rec.displayName),
                         Normalize(rec.email), Normalize(rec.photoURL)))
  {
    var lines := [
      "username = " + rec.username,
      "password = " + rec.password,
      "displayName=" + rec.displayName,
      "email=" + rec.email,
      "photoURL=" + rec.photoURL
    ];
    assert && lines[0] == "username = " + rec.username && lines[1] == "password = " + rec.password
           && lines[2] == "displayName=" + rec.displayName && lines[3] == "email=" + rec.email
           && lines[4] == "photoURL=" + rec.photoURL;
    UsernameSpacedLine(rec.username);
    PasswordSpacedLine(rec.password);
    DisplayNamePlainLine(rec.displayName);
    EmailPlainLine(rec.email);
    PhotoURLPlainLine(rec.photoURL);
    assert WellFormed(lines);
    lines
  }

  /** Writing a record of clean values and reading it back gives the record. */
  lemma RecordRoundTrip(rec: Record)
    requires Clean(rec.username) && Clean(rec.password) && Clean(rec.displayName)
    requires Clean(rec.email) && Clean(rec.photoURL)
    ensures ParseRecord(Lines(RecordLines(rec))) == Ok(rec)
  {
  }

  /** ChangePassword writing every field back in its own position. */
  function ChangePasswordFixed(newPassword: string, f: File): (r: Result<PasswordChanged>)
    ensures r.Ok? <==> ChangePassword(newPassword, f).Ok?
    ensures r.Ok? ==> r.value.response == Response(200, PasswordUpdated, None)
    ensures r.Ok? ==> ParseRecord(r.value.file)
                      == Ok(Record(FieldAt(f.lines, Username), Normalize(newPassword), FieldAt(f.lines, DisplayName),
                                   FieldAt(f.lines, Email), FieldAt(f.lines, PhotoURL)))
    ensures r.Fail? ==> r == ChangePassword(newPassword, f)
  {
    var lines :- ReadLnFile(f);
    var username :- ReadField(lines, Username);
    var displayName :- ReadField(lines, DisplayName);
    var email :- ReadField(lines, Email);
    var photoURL :- ReadField(lines, PhotoURL);
    var written := RecordLines(Record(username, newPassword, displayName, email, photoURL));
    Ok(PasswordChanged(Response(200, PasswordUpdated, None), Lines(written)))
  }

  /** The fixed password change leaves the profile exactly as it was. */
  lemma ChangePasswordFixedKeepsProfile(newPassword: string, f: File)
    requires ProfileReadable(f)
    ensures ChangePasswordFixed(newPassword, f).Ok?
    ensures GetUserInfo(ChangePasswordFixed(newPassword, f).value.file) == GetUserInfo(f)
  {
    var g := ChangePasswordFixed(newPassword, f).value.file;
    assert GetUserInfo(g).value.Keys == GetUserInfo(f).value.Keys;
  }

  /** ChangeUser writing every field back in its own position. */
  function ChangeUserFixed(username: string, password: string, f: File): (r: Result<File>)
    ensures r.Ok? <==> ChangeUser(username, password, f).Ok?
    ensures r.Ok? ==> ParseRecord(r.value)
                      == Ok(Record(Normalize(username), Normalize(password), FieldAt(f.lines, DisplayName),
                                   FieldAt(f.lines, Email), FieldAt(f.lines, PhotoURL)))
    ensures r.Fail? ==> r == ChangeUser(username, password, f)
  {
    var lines :- ReadLnFile(f);
    var displayName :- ReadField(lines, DisplayName);
    var email :- ReadField(lines, Email);
    var photoURL :- ReadField(lines, PhotoURL);
    Ok(Lines(RecordLines(Record(username, password, displayName, email, photoURL))))
  }

  /** On a correctly written record of clean values, one rewrite as written
      makes the readers report the photo URL as the email. */
  lemma RewriteMovesPhotoIntoEmail(rec: Record, newPassword: string)
    requires Clean(rec.username) && Clean(rec.password) && Clean(rec.displayName)
    requires Clean(rec.email) && Clean(rec.photoURL)
    ensures var f := Lines(RecordLines(rec));
            && GetUserInfo(f).Ok? && GetUserInfo(f).value["email"] == rec.email
            && ChangePassword(newPassword, f).Ok?
            && GetUserInfo(ChangePassword(newPassword, f).value.file).value["email"] == rec.photoURL
  {
    ChangePasswordSwapsEmailAndPhoto(newPassword, Lines(RecordLines(rec)));
  }

  /** A concrete record on which the rewrite as written loses the email. */
  lemma RewriteSwapWitness(rec: Record)
    requires rec == Record("admin", "secret", "Admin", "a@b.com", "http://x/y.png")
    ensures var f := Lines(RecordLines(rec));
            && GetUserInfo(f).Ok? && GetUserInfo(f).value["email"] == "a@b.com"
            && ChangePassword("new", f).Ok?
            && GetUserInfo(ChangePassword("new", f).value.file).value["email"] == "http://x/y.png"
  {
    assert Clean("admin") && Clean("secret") && Clean("Admin");
    assert Clean("a@b.com") && Clean("http://x/y.png");
    RewriteMovesPhotoIntoEmail(rec, "new");
  }

  /** Login returning the 401 response on a mismatch, keeping the request
      body and the session store as they were. */
  function LoginFixed(user: UserVO, f: File, store: Store): (r: Result<LoggedIn>)
    requires store.Valid()
    ensures r.Ok? <==> RecordReadable(f)
    ensures r.Fail? ==> r == Login(user, f, store)
    ensures r.Ok? && r.value.response.code == 200 ==> r == Login(user, f, store)
    ensures r.Ok? && r.value.response.code != 200 ==>
              && r.value == LoggedIn(Response(401, AuthenticationFailure, None), user, store)
              && Login(user, f, store) == Fail(AuthenticationFailed)
  {
    var rec :- ParseRecord(f);
    if rec.username != user.username || rec.password != user.password then
      Ok(LoggedIn(Response(401, AuthenticationFailure, None), user, store))
    else
      Login(user, f, store)
  }

  /** With the fix a wrong password is an ordinary 401 answer that starts no
      session. */
  lemma LoginFixedRejectsWithoutSession(user: UserVO, f: File, store: Store)
    requires store.Valid() && RecordReadable(f)
    requires FieldAt(f.lines, Password) != user.password
    ensures LoginFixed(user, f, store) == Ok(LoggedIn(Response(401, AuthenticationFailure, None), user, store))
  {
  }

  /** Inituser writing a key on every line, in reader order, so that the
      fresh file can be read. */
  function InituserFixed(user: UserVO): (f: File)
    ensures ParseRecord(f) == Ok(Record(Normalize(user.username), Normalize(user.password), "", "", ""))
  {
    var lines := [
      "username=" + user.username,
      "password=" + user.password,
      "displayName=",
      "email=",
      "photoURL="
    ];
    assert && lines[0] == "username=" + user.username && lines[1] == "password=" + user.password
           && lines[2] == "displayName=" + "" && lines[3] == "email=" + "" && lines[4] == "photoURL=" + "";
    UsernamePlainLine(user.username);
    PasswordPlainLine(user.password);
    DisplayNamePlainLine("");
    EmailPlainLine("");
    PhotoURLPlainLine("");
    Lines(lines)
  }

  /** After the fixed Inituser the operator it was given can log in. */
  lemma LoginAfterInituserFixed(user: UserVO, store: Store, sessionId: Option<SessionId>)
    requires store.Valid() && Clean(user.username) && Clean(user.password)
    ensures Login(UserVO(user.username, user.password, sessionId), InituserFixed(user), store).Ok?
  {
  }
}
