# dst-admin-go: single-operator login service

This project models the login service of dst-admin-go
(`service/loginService.go`). The service authenticates one operator against
a flat credential file and manages that operator's session.

The credential file has five positional lines:

| line | field |
|---|---|
| 0 | username |
| 1 | password |
| 2 | displayName |
| 3 | email |
| 4 | photoURL |

Each line has the form `key=value` or `key = value`. A field is read as
`strings.TrimSpace(strings.Split(line, "=")[1])`, which is the trimmed text
between the first and the second `=`.

The service has six operations:
- `GetUserInfo` returns the four public fields.
- `Inituser` writes a fresh file.
- `Login` compares the candidate with the stored username and password, and starts a session on a match.
- `Logout` destroys the request's session.
- `ChangeUser` rewrites the file with new credentials.
- `ChangePassword` rewrites the file with a new password.

Modules:
- `Outcomes`: `Option` and `Result`. A Go panic is `Fail(p)`, where `p` names the cause: the file cannot be read, a line index is out of range, a line has no `=` (so `Split(..)[1]` is out of range), or `log.Panicln` on a failed authentication.
- `GoStrings`: Go's `strings.Split` with a one-character separator, `strings.Join`, `strings.TrimSpace` with the `unicode.IsSpace` set, and a first-index search. It proves the Split/Join round trips and that TrimSpace is unique.
- `Credentials`: the file (`Missing`, or a sequence of lines), field extraction, the write/read round trip of one line, reading one line with its panic, and the record and profile projections.
- `Sessions`: an abstract session store. It issues a fresh identifier on start, keeps a string map per session, and forgets a session on destroy.
- `LoginService`: the six operations as pure functions from the file and the store to a result.
- `LoginProperties`: properties that relate several operations.
- `Corrected`: the corrected definitions for the findings below, each with the intended property proved, and witnesses of the behaviour as written.

## Model

| member | source | states |
|---|---|---|
| GoStrings.TrimSpace | service/loginService.go:21 | the result has no white space at either end, is what remains of the input after removing white space at both ends only, and is the input itself when that is already trimmed |
| GoStrings.TrimSpaceUnique | service/loginService.go:21 | at most one trimmed string can be obtained from a given string by stripping white space at its ends, so TrimSpace is characterised by its contract |
| GoStrings.TrimSpaceKeepsOut | service/loginService.go:21 | trimming never introduces a character, so a trimmed field still has no '=' |
| GoStrings.FirstIndex | service/loginService.go:21 | the index of the first occurrence of a character, equal to the length exactly when the character does not occur |
| GoStrings.Split | service/loginService.go:21 | Split always yields at least one piece and no piece contains the separator |
| GoStrings.SplitSecondPiece | service/loginService.go:21 | index [1] of a split exists exactly when the separator occurs, and is the text between the first and the second separator |
| GoStrings.JoinSplit | service/loginService.go:21 | joining the pieces of a split with the separator gives back the original string |
| GoStrings.SplitJoin | service/loginService.go:21 | splitting a join of separator-free pieces gives back the pieces |
| Credentials.ReadLnFile | service/loginService.go:15-19 | reading succeeds with the file's lines exactly when the file exists, and otherwise panics with FileUnreadable |
| Credentials.Field | service/loginService.go:21-25 | extraction is defined exactly when the line contains '=', yields the trimmed text between the first and second '=', and that value has no '=' and no surrounding white space |
| Credentials.Normalize | service/loginService.go:99-103 | what a written value reads back as has no '=' and no surrounding white space, and a value already of that form reads back unchanged |
| Credentials.FieldOfAssignment | service/loginService.go:101-103 | reading a written `key=value` line returns the value as normalized, for any key without '=' |
| Credentials.FieldOfSpacedAssignment | service/loginService.go:99-100 | reading a written `key = value` line returns the normalized value: the blank after '=' is trimmed away |
| Credentials.ReadField | service/loginService.go:55-59 | reading line i succeeds exactly when the line exists and contains '='; it panics with LineMissing(i) when the line is absent and with FieldMissing(i) when it has no '=' |
| Credentials.ParseRecord | service/loginService.go:48-59 | the five fields read in order succeed exactly when the file exists and all five lines are readable; the result is the field of each line; a failure is the panic of one of those lines |
| Credentials.ProfileMap | service/loginService.go:76-81 | the response map has exactly the keys username, displayName, email and photoURL with the profile's values, and never a password key |
| Sessions.Start | service/loginService.go:68 | the new session's identifier is not in use, it starts empty, and every existing session is kept unchanged |
| Sessions.Set | service/loginService.go:70 | the key is set to the value in that session only; other keys and other sessions are unchanged |
| Sessions.Destroy | service/loginService.go:87 | the cookie's session is removed, the remaining sessions keep their values, and a request without a session leaves the store unchanged |
| Sessions.DestroyUndoesAdd | service/loginService.go:86-88 | destroying a session that was added to a store gives that store's sessions back |
| Sessions.DestroyIdempotent | service/loginService.go:86-88 | destroying twice is the same as destroying once |
| LoginService.RewrittenLines | service/loginService.go:98-104 | both rewrite paths write five readable lines. Lines 0 and 1 read back the new username and password. Line 3 reads back the photo URL and line 4 the email |
| LoginService.GetUserInfo | service/loginService.go:14-32 | succeeds exactly when lines 0, 2, 3 and 4 are readable and returns their four fields under their keys; the password line is never consulted; a failure is the panic of one of those lines |
| LoginService.Inituser | service/loginService.go:35-42 | the written file has five lines: the username, the password, and three empty lines without '=' |
| LoginService.Login | service/loginService.go:44-84 | succeeds exactly when all five lines are readable and the stored username and password equal the candidate's. A mismatch panics with AuthenticationFailed; an unreadable record panics on one of its lines. Success answers 200 "Login success" with the four public fields of lines 0, 2, 3 and 4. It blanks the candidate's password and hands back the new session's identifier. It adds exactly one new session, holding the username, and keeps every other session unchanged |
| LoginService.Logout | service/loginService.go:86-88 | the session named by the request cookie is removed and every other session is kept; without a cookie nothing changes |
| LoginService.ChangeUser | service/loginService.go:90-105 | succeeds exactly when lines 2 to 4 are readable. Lines 0 and 1 are written with the new username and password. The record read back holds the old display name, but the old photo URL in the email position and the old email in the photo URL position |
| LoginService.ChangePassword | service/loginService.go:107-131 | succeeds exactly when lines 0, 2, 3 and 4 are readable, always answers 200 "Update user new password success", and writes `password = newPassword` on line 1. The record read back keeps the username and display name, but has email and photo URL exchanged |
| LoginProperties.LoginIffCredentialsMatch | service/loginService.go:55-66 | Login succeeds exactly when the record parses and the stored username and password equal the candidate's |
| LoginProperties.WrongCredentialsPanic | service/loginService.go:61-66 | a mismatch on a readable record always ends in the AuthenticationFailed panic, so the 401 response is never returned |
| LoginProperties.GetUserInfoMatchesLogin | service/loginService.go:14-32 | GetUserInfo returns exactly the data map a successful Login returns |
| LoginProperties.GetUserInfoIgnoresPassword | service/loginService.go:21-25 | two files that differ only on the password line give the same GetUserInfo result |
| LoginProperties.LogoutUndoesLogin | service/loginService.go:68-88 | logging out with the session a login issued restores the sessions to what they were before the login |
| LoginProperties.ChangePasswordSwapsEmailAndPhoto | service/loginService.go:115-125 | after one ChangePassword the profile keeps username and display name and has email and photo URL exchanged |
| LoginProperties.ChangeUserSwapsEmailAndPhoto | service/loginService.go:95-104 | after ChangeUser the record holds the new credentials, the old display name, and the old email and photo URL exchanged |
| LoginProperties.ChangePasswordTwiceRestoresProfile | service/loginService.go:115-125 | the exchange is an involution: after two password changes the profile is the original one |
| LoginProperties.ChangeUserTwiceRestoresContact | service/loginService.go:95-104 | after two ChangeUser calls the record holds the second credentials and the original display name, email and photo URL |
| LoginProperties.LoginAfterChangePassword | service/loginService.go:115-125 | after a password change, the stored username with the new password logs in, provided the new password has no '=' and no surrounding white space |
| LoginProperties.OldPasswordRejectedAfterChange | service/loginService.go:115-125 | after a password change any other password ends in the AuthenticationFailed panic |
| LoginProperties.LoginAfterChangeUser | service/loginService.go:95-104 | after ChangeUser the new credentials log in, provided they have no '=' and no surrounding white space |
| LoginProperties.InituserBreaksReaders | service/loginService.go:35-42 | on the file Inituser writes, Login, GetUserInfo, ChangeUser and ChangePassword all panic with FieldMissing on line 2 |
| Corrected.RecordLines | service/loginService.go:98-104 | five lines in the positions the readers expect, read back as the normalized record |
| Corrected.RecordRoundTrip | service/loginService.go:98-104 | writing a record of clean values and reading it back gives the record |
| Corrected.ChangePasswordFixed | service/loginService.go:119-125 | the corrected rewrite succeeds and fails exactly as ChangePassword does. Its record read back keeps every field in its own position, with the new password |
| Corrected.ChangePasswordFixedKeepsProfile | service/loginService.go:119-125 | the corrected password change leaves GetUserInfo exactly as it was |
| Corrected.ChangeUserFixed | service/loginService.go:98-104 | the corrected rewrite succeeds and fails exactly as ChangeUser does. Its record read back holds the new credentials and the old display name, email and photo URL in their own positions |
| Corrected.RewriteMovesPhotoIntoEmail | service/loginService.go:122-124 | on a well-written record of clean values, one ChangePassword as written makes GetUserInfo report the photo URL as the email |
| Corrected.RewriteSwapWitness | service/loginService.go:122-124 | the record admin/secret/Admin/a@b.com/http://x/y.png reports email a@b.com before ChangePassword("new") and http://x/y.png after it |
| Corrected.LoginFixed | service/loginService.go:61-66 | the corrected login answers 401 "User authentication failed" on a mismatch, leaving the request body and session store as they were, exactly where Login panics with AuthenticationFailed; otherwise it agrees with Login |
| Corrected.LoginFixedRejectsWithoutSession | service/loginService.go:61-66 | with the correction a wrong password is an ordinary 401 answer that starts no session |
| Corrected.InituserFixed | service/loginService.go:35-42 | the corrected initial file parses as the normalized username and password with three empty fields |
| Corrected.LoginAfterInituserFixed | service/loginService.go:35-42 | after the corrected Inituser the operator it was given can log in, provided the credentials have no '=' and no surrounding white space |

## Left out

- `initConfig/init.go` is not part of this model. It loads YAML configuration, sets up log files, the HTTP writer and a SQLite database, registers collectors and a scheduler, and runs the lobby heartbeat goroutine. All of that is I/O, foreign library calls and concurrency, with no logic over the credential record.
- `fileUtils.ReadLnFile` and `WriterLnFile` are not modelled. The file is a value, either `Missing` or a sequence of lines. A write replaces that value, and a later read returns exactly the lines written. Line splitting, newline handling and write errors are not modelled.
- The internals of `session.Manager` are not modelled. `Sessions` is an abstract store whose `Start` always issues a fresh identifier from a counter. The model does not cover reusing an existing cookie's session, expiry, the cookie written to the HTTP response, or a failing transport write.
- The `gin.Context` request and response plumbing is not modelled. The request cookie is an optional session identifier passed to `Logout`.
- Strings are sequences of Unicode scalar values rather than Go's byte strings. This agrees with Go on well-formed UTF-8. Invalid UTF-8 is not modelled.
- `vo.UserVO` and `vo.Response` carry only the fields the service touches. `Response.Data` is a string map, where Go uses `map[string]interface{}`.
- `log.Panicln` also writes a log line. The model keeps only the panic.
- LoginService.GetUserInfo: on failure, the contract says only that the panic belongs to one of the lines read (IsReadPanic). It does not say that the lowest-numbered unreadable line is the one reported, although the function body does compute that.
- LoginService.ChangeUser: the failure contract is weaker in the same way as GetUserInfo's.
- LoginService.ChangePassword: the failure contract is weaker in the same way as GetUserInfo's.
- LoginService.Login: the failure contract is weaker in the same way as GetUserInfo's.
- Credentials.ParseRecord: the failure contract is weaker in the same way as GetUserInfo's.

## Findings

| source | as written | input that shows it | evidently intended | confidence | as-written member | corrected member |
|---|---|---|---|---|---|---|
| service/loginService.go:101-103 | ChangeUser and ChangePassword write the photo URL on line 3 and the email on line 4, while every reader takes the email from line 3 and the photo URL from line 4 | a file `username=admin`, `password=secret`, `displayName=Admin`, `email=a@b.com`, `photoURL=http://x/y.png`, then ChangePassword("new"): GetUserInfo then reports email `http://x/y.png` | each field written back to the line it was read from, so a rewrite changes only the credentials | high (proved; not executed) | LoginProperties.ChangePasswordSwapsEmailAndPhoto, Corrected.RewriteSwapWitness | Corrected.ChangePasswordFixed, Corrected.ChangePasswordFixedKeepsProfile, Corrected.ChangeUserFixed |
| service/loginService.go:61-66 | a failed authentication calls `log.Panicln` before building the 401 response, so the 401 branch is never returned | stored `admin`/`secret`, candidate `admin`/`wrong`: Login panics with AuthenticationFailed | a mismatch answers 401 "User authentication failed" and starts no session | high (proved; not executed) | LoginProperties.WrongCredentialsPanic | Corrected.LoginFixed, Corrected.LoginFixedRejectsWithoutSession |
| service/loginService.go:38-41 | Inituser writes lines 2 to 4 as empty strings with no '=' | Inituser with any username and password, then Login with the same credentials: the read of line 2 panics with FieldMissing(2) | an initial file every reader can parse, with empty display name, email and photo URL | high (proved; not executed) | LoginProperties.InituserBreaksReaders | Corrected.InituserFixed, Corrected.LoginAfterInituserFixed |
