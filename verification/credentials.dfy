/**
 The single-operator credential record: a flat file of five positional lines
 `username`, `password`, `displayName`, `email`, `photoURL`, each of the form
 `key=value` or `key = value`. The position of a line, not its key text, says
 which field it holds. A field is read as the trimmed text between the first
 and the second '=' of its line.
 */
module Credentials {
  import opened Outcomes
  import opened GoStrings

  /** The credential file as `fileUtils.ReadLnFile` sees it: absent or
      unreadable, or a sequence of lines. */
  datatype File = Missing | Lines(lines: seq<string>)

  const Username := 0
  const Password := 1
  const DisplayName := 2
  const Email := 3
  const PhotoURL := 4

  /** The record as the readers interpret it, by line position. */
  datatype Record = Record(username: string, password: string, displayName: string, email: string, photoURL: string)

  /** The non-secret part of the record that the service hands out. */
  datatype Profile = Profile(username: string, displayName: string, email: string, photoURL: string)

  /** `fileUtils.ReadLnFile`, whose error the service turns into a panic. */
  function ReadLnFile(f: File): (r: Result<seq<string>>)
    ensures r.Ok? <==> f.Lines?
    ensures r.Ok? ==> r.value == f.lines
    ensures r.Fail? ==> r.panic == FileUnreadable
  {
    match f
    case Missing => Fail(FileUnreadable)
    case Lines(ls) => Ok(ls)
  }

  /** A value as the readers give it back: no '=' and no surrounding white space. */
  predicate Clean(v: string) {
    '=' !in v && IsTrimmed(v)
  }

  /** `strings.TrimSpace(strings.Split(line, "=")[1])`: the trimmed text
      between the first and the second '=' (or the end of the line). None
      when the line has no '=', where Go's index [1] is out of range. */
  function Field(line: string): (r: Option<string>)
    ensures r.Some? <==> '=' in line
    ensures r.Some? ==>
              var after := line[FirstIndex(line, '=') + 1..];
              r.value == TrimSpace(after[..FirstIndex(after, '=')])
    ensures r.Some? ==> Clean(r.value)
  {
    var parts := Split(line, '=');
    SplitSecondPiece(line, '=');
    if |parts| < 2 then None
    else
      TrimSpaceKeepsOut(parts[1], '=');
      Some(TrimSpace(parts[1]))
  }

  /** What reading back a value written after a key and '=' yields: the
      trimmed text up to the value's own first '='. */
  function Normalize(v: string): (r: string)
    ensures Clean(r)
    ensures Clean(v) ==> r == v
  {
    TrimSpaceKeepsOut(v[..FirstIndex(v, '=')], '=');
    TrimSpace(v[..FirstIndex(v, '=')])
  }

  /** The write/read round trip of one `key=value` line. */
  lemma FieldOfAssignment(key: string, v: string)
    requires '=' !in key
    ensures Field(key + "=" + v) == Some(Normalize(v))
  {
    var line := key + "=" + v;
    FirstIndexOfPiece(key, '=', v);
    assert line[|key| + 1..] == v;
  }

  /** The write/read round trip of one `key = value` line: the blank after
      '=' is trimmed away. */
  lemma FieldOfSpacedAssignment(key: string, v: string)
    requires '=' !in key + " "
    ensures Field(key + " = " + v) == Some(Normalize(v))
  {
    assert key + " = " + v == (key + " ") + "=" + (" " + v);
    FieldOfAssignment(key + " ", " " + v);
    NormalizeLeadingSpace(v);
  }

  lemma NormalizeLeadingSpace(v: string)
    ensures Normalize(" " + v) == Normalize(v)
  {
    var w := " " + v;
    assert w[1..] == v;
    assert w[..FirstIndex(w, '=')] == " " + v[..FirstIndex(v, '=')];
    TrimSpaceLeadingSpace(' ', v[..FirstIndex(v, '=')]);
  }

  // The lines the service writes, `key = value` or `key=value`, read back
  // as the normalized value.

  lemma UsernameSpacedLine(v: string)
    ensures Field("username = " + v) == Some(Normalize(v))
  {
    assert "username = " + v == "username" + " = " + v;
    FieldOfSpacedAssignment("username", v);
  }

  lemma PasswordSpacedLine(v: string)
    ensures Field("password = " + v) == Some(Normalize(v))
  {
    assert "password = " + v == "password" + " = " + v;
    FieldOfSpacedAssignment("password", v);
  }

  lemma UsernamePlainLine(v: string)
    ensures Field("username=" + v) == Some(Normalize(v))
  {
    assert "username=" + v == "username" + "=" + v;
    FieldOfAssignment("username", v);
  }

  lemma PasswordPlainLine(v: string)
    ensures Field("password=" + v) == Some(Normalize(v))
  {
    assert "password=" + v == "password" + "=" + v;
    FieldOfAssignment("password", v);
  }

  lemma DisplayNamePlainLine(v: string)
    ensures Field("displayName=" + v) == Some(Normalize(v))
  {
    assert "displayName=" + v == "displayName" + "=" + v;
    FieldOfAssignment("displayName", v);
  }

  lemma EmailPlainLine(v: string)
    ensures Field("email=" + v) == Some(Normalize(v))
  {
    assert "email=" + v == "email" + "=" + v;
    FieldOfAssignment("email", v);
  }

  lemma PhotoURLPlainLine(v: string)
    ensures Field("photoURL=" + v) == Some(Normalize(v))
  {
    assert "photoURL=" + v == "photoURL" + "=" + v;
    FieldOfAssignment("photoURL", v);
  }

  /** Line `i` exists and holds a '=', so reading it does not panic. */
  predicate Readable(lines: seq<string>, i: nat) {
    i < |lines| && '=' in lines[i]
  }

  /** The panic raised by reading an unreadable line. */
  function ReadPanic(lines: seq<string>, i: nat): (p: Panic)
    requires !Readable(lines, i)
  {
    if i < |lines| then FieldMissing(i) else LineMissing(i)
  }

  /** `strings.TrimSpace(strings.Split(user[i], "=")[1])` */
  function ReadField(lines: seq<string>, i: nat): (r: Result<string>)
    ensures r.Ok? <==> Readable(lines, i)
    ensures r.Ok? ==> Some(r.value) == Field(lines[i])
    ensures r.Fail? ==> r.panic == ReadPanic(lines, i)
  {
    if i >= |lines| then Fail(LineMissing(i))
    else
      match Field(lines[i])
      case None => Fail(FieldMissing(i))
      case Some(v) => Ok(v)
  }

  /** `p` is a panic that reading the lines `read` of `f` can raise: the
      file is unreadable, or `p` names one of those lines that is missing or
      has no '='. */
  predicate IsReadPanic(f: File, p: Panic, read: set<nat>) {
    match f
    case Missing => p == FileUnreadable
    case Lines(lines) =>
      && (p.LineMissing? || p.FieldMissing?)
      && p.line in read
      && !Readable(lines, p.line)
      && p == ReadPanic(lines, p.line)
  }

  /** The value of a readable line. */
  function FieldAt(lines: seq<string>, i: nat): (v: string)
    requires Readable(lines, i)
    ensures Clean(v)
  {
    Field(lines[i]).value
  }

  /** All five record lines are readable. */
  predicate WellFormed(lines: seq<string>) {
    && Readable(lines, Username) && Readable(lines, Password) && Readable(lines, DisplayName)
    && Readable(lines, Email) && Readable(lines, PhotoURL)
  }

  /** The whole record as the readers see it: lines 0 to 4 in order. */
  function ParseRecord(f: File): (r: Result<Record>)
    ensures r.Ok? <==> f.Lines? && WellFormed(f.lines)
    ensures r.Ok? ==> r.value == Record(FieldAt(f.lines, Username), FieldAt(f.lines, Password),
                                        FieldAt(f.lines, DisplayName), FieldAt(f.lines, Email),
                                        FieldAt(f.lines, PhotoURL))
    ensures r.Fail? ==> IsReadPanic(f, r.panic, {Username, Password, DisplayName, Email, PhotoURL})
  {
    var lines :- ReadLnFile(f);
    var username :- ReadField(lines, Username);
    var password :- ReadField(lines, Password);
    var displayName :- ReadField(lines, DisplayName);
    var email :- ReadField(lines, Email);
    var photoURL :- ReadField(lines, PhotoURL);
    Ok(Record(username, password, displayName, email, photoURL))
  }

  /** The map the service returns for a profile: exactly the four public
      keys, never the password. */
  function ProfileMap(p: Profile): (m: map<string, string>)
    ensures m.Keys == {"username", "displayName", "email", "photoURL"}
    ensures "password" !in m
    ensures m["username"] == p.username && m["displayName"] == p.displayName
    ensures m["email"] == p.email && m["photoURL"] == p.photoURL
  {
    map["username" := p.username, "displayName" := p.displayName,
        "email" := p.email, "photoURL" := p.photoURL]
  }
}
