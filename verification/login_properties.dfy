/**
 Properties of the login service that relate several operations: the
 profile projection shared by `GetUserInfo` and `Login`, what a rewrite does
 to the record the readers see, and how `Inituser` leaves a file every
 reader panics on.
 */
module LoginProperties {
  import opened Outcomes
  import opened GoStrings
  import opened Credentials
  import opened Sessions
  import opened LoginService

  /** Login succeeds exactly when the record parses and its stored username
      and password equal the candidate's. */
  lemma LoginIffCredentialsMatch(user: UserVO, f: File, store: Store)
    requires store.Valid()
    ensures Login(user, f, store).Ok?
            <==> ParseRecord(f).Ok? && ParseRecord(f).value.username == user.username
                 && ParseRecord(f).value.password == user.password
  {
  }

  /** A wrong username or password on a readable record always panics with
      AuthenticationFailed: no 401 response, no session. */
  lemma WrongCredentialsPanic(user: UserVO, f: File, store: Store)
    requires store.Valid()
    requires RecordReadable(f)
    requires FieldAt(f.lines, Username) != user.username || FieldAt(f.lines, Password) != user.password
    ensures Login(user, f, store) == Fail(AuthenticationFailed)
  {
  }

  /** GetUserInfo returns the same projection a successful Login puts in its
      response. */
  lemma GetUserInfoMatchesLogin(user: UserVO, f: File, store: Store)
    requires store.Valid() && RecordReadable(f)
    requires FieldAt(f.lines, Username) == user.username && FieldAt(f.lines, Password) == user.password
    ensures Login(user, f, store).Ok?
    ensures GetUserInfo(f) == Ok(Login(user, f, store).value.response.data.value)
  {
    var m := GetUserInfo(f).value;
    var d := Login(user, f, store).value.response.data.value;
    assert m.Keys == d.Keys;
  }

  /** GetUserInfo never looks at the password line: two files that differ
      only there give the same result. */
  lemma GetUserInfoIgnoresPassword(f: File, g: File)
    requires f.Lines? && g.Lines? && |f.lines| == |g.lines|
    requires forall i :: 0 <= i < |f.lines| && i != Password ==> f.lines[i] == g.lines[i]
    ensures GetUserInfo(f) == GetUserInfo(g)
  {
    assert ReadField(f.lines, Username) == ReadField(g.lines, Username);
    assert ReadField(f.lines, DisplayName) == ReadField(g.lines, DisplayName);
    assert ReadField(f.lines, Email) == ReadField(g.lines, Email);
    assert ReadField(f.lines, PhotoURL) == ReadField(g.lines, PhotoURL);
  }

  /** Logging out with the cookie a login issued restores the session store
      to what it was before the login. */
  lemma LogoutUndoesLogin(user: UserVO, f: File, store: Store)
    requires store.Valid() && RecordReadable(f)
    requires FieldAt(f.lines, Username) == user.username && FieldAt(f.lines, Password) == user.password
    ensures Login(user, f, store).Ok?
    ensures var done := Login(user, f, store).value;
            Logout(done.user.sessionId, done.store).live == store.live
  {
    var done := Login(user, f, store).value;
    var id := done.user.sessionId.value;
    DestroyUndoesAdd(store, done.store, id);
  }

  /** One rewrite by ChangePassword keeps the username and display name the
      readers see, and exchanges the email and the photo URL. */
  lemma ChangePasswordSwapsEmailAndPhoto(newPassword: string, f: File)
    requires ProfileReadable(f)
    ensures ChangePassword(newPassword, f).Ok?
    ensures var before := GetUserInfo(f).value;
            var after := GetUserInfo(ChangePassword(newPassword, f).value.file).value;
            && after["username"] == before["username"]
            && after["displayName"] == before["displayName"]
            && after["email"] == before["photoURL"]
            && after["photoURL"] == before["email"]
  {
  }

  /** ChangeUser makes the same exchange, and installs the new username and
      password as the readers will see them. */
  lemma ChangeUserSwapsEmailAndPhoto(username: string, password: string, f: File)
    requires ContactReadable(f)
    ensures ChangeUser(username, password, f).Ok?
    ensures var rec := ParseRecord(ChangeUser(username, password, f).value).value;
            && rec.username == Normalize(username) && rec.password == Normalize(password)
            && rec.displayName == FieldAt(f.lines, DisplayName)
            && rec.email == FieldAt(f.lines, PhotoURL)
            && rec.photoURL == FieldAt(f.lines, Email)
  {
  }

  /** The exchange is an involution: after two password changes the profile
      is the original one again. */
  lemma ChangePasswordTwiceRestoresProfile(p1: string, p2: string, f: File)
    requires ProfileReadable(f)
    ensures ChangePassword(p1, f).Ok?
    ensures ChangePassword(p2, ChangePassword(p1, f).value.file).Ok?
    ensures GetUserInfo(ChangePassword(p2, ChangePassword(p1, f).value.file).value.file) == GetUserInfo(f)
  {
    var f1 := ChangePassword(p1, f).value.file;
    var f2 := ChangePassword(p2, f1).value.file;
    ChangePasswordSwapsEmailAndPhoto(p1, f);
    ChangePasswordSwapsEmailAndPhoto(p2, f1);
    assert GetUserInfo(f2).value.Keys == GetUserInfo(f).value.Keys;
  }

  /** After two ChangeUser calls the record again holds the original email
      and photo URL, with the second call's username and password. */
  lemma ChangeUserTwiceRestoresContact(u1: string, p1: string, u2: string, p2: string, f: File)
    requires ContactReadable(f)
    ensures ChangeUser(u1, p1, f).Ok?
    ensures ChangeUser(u2, p2, ChangeUser(u1, p1, f).value).Ok?
    ensures ParseRecord(ChangeUser(u2, p2, ChangeUser(u1, p1, f).value).value)
            == Ok(Record(Normalize(u2), Normalize(p2), FieldAt(f.lines, DisplayName),
                         FieldAt(f.lines, Email), FieldAt(f.lines, PhotoURL)))
  {
    var f1 := ChangeUser(u1, p1, f).value;
    ChangeUserSwapsEmailAndPhoto(u1, p1, f);
  }

  /** After a password change the stored username with the new password
      logs in, provided the new password survives the write/read round trip
      (no '=' and no surrounding white space). */
  lemma LoginAfterChangePassword(newPassword: string, f: File, store: Store, sessionId: Option<SessionId>)
    requires store.Valid() && Clean(newPassword) && ProfileReadable(f)
    ensures ChangePassword(newPassword, f).Ok?
    ensures Login(UserVO(FieldAt(f.lines, Username), newPassword, sessionId),
                  ChangePassword(newPassword, f).value.file, store).Ok?
  {
  }

  /** ... and any other password no longer does. */
  lemma OldPasswordRejectedAfterChange(newPassword: string, oldPassword: string, f: File, store: Store,
                                       sessionId: Option<SessionId>)
    requires store.Valid() && Clean(newPassword) && oldPassword != newPassword && ProfileReadable(f)
    ensures ChangePassword(newPassword, f).Ok?
    ensures Login(UserVO(FieldAt(f.lines, Username), oldPassword, sessionId),
                  ChangePassword(newPassword, f).value.file, store) == Fail(AuthenticationFailed)
  {
  }

  /** After ChangeUser the new credentials log in, when they survive the
      write/read round trip. */
  lemma LoginAfterChangeUser(username: string, password: string, f: File, store: Store,
                             sessionId: Option<SessionId>)
    requires store.Valid() && Clean(username) && Clean(password) && ContactReadable(f)
    ensures ChangeUser(username, password, f).Ok?
    ensures Login(UserVO(username, password, sessionId), ChangeUser(username, password, f).value, store).Ok?
  {
  }

  /** The file Inituser writes has no '=' on line 2, so every reader panics
      there: Login, GetUserInfo, ChangeUser and ChangePassword all fail. */
  lemma InituserBreaksReaders(user: UserVO, candidate: UserVO, store: Store,
                              username: string, password: string, newPassword: string)
    requires store.Valid()
    ensures Login(candidate, Inituser(user), store) == Fail(FieldMissing(DisplayName))
    ensures GetUserInfo(Inituser(user)) == Fail(FieldMissing(DisplayName))
    ensures ChangeUser(username, password, Inituser(user)) == Fail(FieldMissing(DisplayName))
    ensures ChangePassword(newPassword, Inituser(user)) == Fail(FieldMissing(DisplayName))
  {
    var lines := Inituser(user).lines;
    assert Readable(lines, Username) && Readable(lines, Password);
    assert ReadField(lines, DisplayName) == Fail(FieldMissing(DisplayName));
  }
}
