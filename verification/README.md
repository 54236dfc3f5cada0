# AuditSendiri ledger core in Dafny

AuditSendiri is a bookkeeping application for a neighbourhood association (RT/RW). Its Go
backend keeps all data in SawitDB, an append-only command log. Every write is a text
command such as `TANAM JSON transactions {…}` (insert), `UBAH JSON …` (update) or
`HAPUS JSON users {"id":…}` (delete). The log stores each command as a little-endian int32
length followed by the command bytes. The in-memory tables (transactions, audit log, users,
settings) are the fold of `applyLocally` over the commands, and `Rehydrate` rebuilds them
from the file at start-up. The HTTP handlers on top of the store implement:

- a ledger with patch-style updates and soft deletes;
- an audit trail, where each update record maps a field to `"old -> new"`;
- restoring a deletion or update from its audit record;
- a one-time setup of the first administrator;
- user management with a last-admin guard on deletion.

The middleware checks a Bearer token and an admin role. Two frontend pages fold the
transactions into income, expense, balance and a running-balance chart.

The model is split into these modules:

- `Text`:
  - Go's byte length of a string;
  - `strings.Split` and `strings.SplitN` on one character;
  - the text before the first `" -> "`;
  - `%.2f` formatting of integral amounts and its `ParseFloat` inverse.
- `Domain`: the records, roles, the two validators and `ToSafe`.
- `Framing`: the int32 length framing of the log file and its decoder, including Go's short reads and its 1 GiB cap on one read.
- `Sawit`:
  - commands as a datatype, their text form and parser;
  - the pure `Apply` (one `applyLocally` step), `Replay` and `Commit`;
  - the `SawitDB` class, whose table fields change in place, with its write helpers and `Rehydrate`.
- `Handlers`: each handler's outcome, a status plus the commands it writes, as a pure
  function, and the handler itself as a method on a `SawitDB` that is proved to perform exactly
  those writes.
- `Restore`: restoring from an audit record, and the update-then-restore and delete-then-restore round trips.
- `Middleware`: the Authorization header decision, the admin gate and the secret-length rule.
- `Balance`: the dashboard and landing folds, as loops proved against specification functions.

Amounts are integers in the smallest currency unit, and `%.2f` of such an amount is its digits
followed by `.00`. Time, fresh ids, password hashes and token verification are parameters.
A `SawitDB` keeps the commands of its file and, as ghost state, the ids that replay generated
for audit records that had none. `Valid()` says the tables are the replay of the file.

## Model

| member | source | states |
|---|---|---|
| Text.Utf8Len | internal/domain/user.go:94-100 | Go's `len` of a string lies between its character count and four times it, and is 0 only for the empty string |
| Text.AsciiUtf8Len | internal/domain/user.go:94-100 | for ASCII text the byte length is the character count |
| Text.NonAsciiUtf8Len | internal/api/middleware.go:25 | a string with a character at or above 0x80 has more bytes than characters |
| Text.SplitOn | internal/api/middleware.go:42 | `strings.Split` yields at least one piece, no piece holds the separator, and joining the pieces gives the input back |
| Text.SplitOnNoSep | internal/api/middleware.go:42 | a string without the separator splits into itself alone |
| Text.SplitOnCons | internal/api/middleware.go:42 | splitting `a + sep + t`, with `a` free of the separator, gives `a` followed by the pieces of `t` |
| Text.SplitOnJoin | internal/api/middleware.go:42-43 | splitting the join of separator-free pieces gives the pieces back |
| Text.IndexOf | internal/db/sawit.go:103 | the first position of a character, or the length when it is absent |
| Text.IndexOfAfter | internal/db/sawit.go:103 | in `a + c + rest` with `c` not in `a`, the first `c` is at the length of `a` |
| Text.SplitN | internal/db/sawit.go:103 | `strings.SplitN` gives 1 to n pieces that join back to the input; every piece but the last is free of the separator, and the last one is too when fewer than n pieces came out |
| Text.SplitNCons | internal/db/sawit.go:103 | SplitN of `a + sep + rest` with `a` free of the separator is `a` followed by SplitN of `rest` with one piece fewer |
| Text.BeforeFirst | internal/api/handlers.go:529-533 | the first piece of the change is a prefix of it in which no `" -> "` starts; it is the whole change, or the arrow follows it |
| Text.OccursInTail | internal/api/handlers.go:529-533 | an arrow after the first character is an arrow of the rest, one place to the left |
| Text.OccursAtTail | internal/api/handlers.go:529 | an occurrence of the separator after the first character of `a + sep` is one in `a[1..] + sep`, shifted by one |
| Text.BeforeFirstJoin | internal/api/handlers.go:529-533 | when no occurrence of the separator starts inside `a`, the text before the first separator in `a + sep + b` is `a` |
| Text.NoLeadCharSplitsCleanly | internal/api/handlers.go:529-533 | a value without the separator's first character splits cleanly |
| Text.DigitChar | internal/api/handlers.go:246 | a decimal digit is a digit character with that value |
| Text.NatToDigits | internal/api/handlers.go:246 | the decimal form of a natural number is a non-empty string of digits |
| Text.DigitsRoundTrip | internal/api/handlers.go:246 | reading the decimal form of n gives n (also internal/api/handlers.go:537) |
| Text.FormatAmount | internal/api/handlers.go:246 | `%.2f` of an amount contains no space |
| Text.ParseUnsignedRoundTrip | internal/api/handlers.go:537 | the unsigned body `digits.00` parses back to its number |
| Text.SignedDigitsRoundTrip | internal/api/handlers.go:537 | `-digits.00` parses to the negated number |
| Text.NegativeAmountRoundTrip | internal/api/handlers.go:246 | a negative amount formatted by `%.2f` parses back to itself (also internal/api/handlers.go:537) |
| Text.UnsignedAmountRoundTrip | internal/api/handlers.go:246 | a non-negative amount formatted by `%.2f` parses back to itself (also internal/api/handlers.go:537) |
| Text.AmountRoundTrip | internal/api/handlers.go:246 | `ParseFloat` inverts `%.2f` on every integral amount, so a restored amount is the old amount (also internal/api/handlers.go:537) |
| Domain.NamedRoles | internal/domain/user.go:10-16 | the roles are exactly the three distinct values admin, guest and user |
| Domain.ToSafeForgetsOnlyHash | internal/domain/user.go:37-46 | two users have the same safe view exactly when they differ at most in the password hash |
| Domain.ValidateUsername | internal/domain/user.go:93-107 | the length checks come first and count bytes: fewer than 3 is the too-short error, more than 30 the too-long error, whatever the characters |
| Domain.UsernameAccepted | internal/domain/user.go:93-107 | a name is accepted exactly when it has 3 to 30 characters, all ASCII letters, digits or `_` |
| Domain.PasswordAccepted | internal/domain/user.go:109-117 | a password is accepted exactly when it is 8 to 72 bytes long, with no content rule; for ASCII text, 8 to 72 characters |
| Domain.ValidatePassword | internal/domain/user.go:109-117 | fewer than 8 bytes is the too-short error, more than 72 the too-long error |
| Domain.ToSafe | internal/domain/user.go:37-46 | the safe view keeps id, username, role, full name and both times, and has no hash field |
| Framing.ToInt32 | internal/db/sawit.go:193 | `int32(len(…))` is the length reduced modulo 2^32 into the int32 range, and unchanged below 2^31 |
| Framing.PutInt32 | internal/db/sawit.go:195 | a length prefix is four bytes |
| Framing.GetInt32 | internal/db/sawit.go:72-73 | four little-endian bytes read back as an int32 |
| Framing.Int32RoundTrip | internal/db/sawit.go:73 | reading a written int32 prefix gives the value back (also internal/db/sawit.go:195) |
| Framing.EncodeFrame | internal/db/sawit.go:192-200 | a frame is four length bytes plus the command |
| Framing.ReadSize | internal/db/sawit.go:81-82 | one read returns what was asked, what is left, or the 1 GiB cap, whichever is least |
| Framing.Zeros | internal/db/sawit.go:81-82 | the zero filler of a short body has the missing length |
| Framing.DecodeFrame | internal/db/sawit.go:71-89 | decoding a frame of at most 1 GiB followed by anything yields that command, then whatever the rest decodes to |
| Framing.LongFrameReadShort | internal/db/sawit.go:81-82 | a frame over 1 GiB comes back as its first 1 GiB padded with zeros, and the next length is read from inside its body |
| Framing.DecodeEncode | internal/db/sawit.go:71-89 | decoding a log of frames of at most 1 GiB gives back exactly its commands, with no error (also internal/db/sawit.go:192-200) |
| Framing.TornBodyPadded | internal/db/sawit.go:81-85 | a body cut short by the end of the file is read padded with zeros, and reading stops without an error |
| Framing.TornLengthFailsReading | internal/db/sawit.go:73-79 | a log ending in 1 to 3 bytes of a length prefix fails start-up with an unexpected-EOF error |
| Framing.FirstFrame | internal/db/sawit.go:71-85 | one loop turn stops without an error exactly at the end of the file, and a turn that reads a body moves on by at least the four prefix bytes and at most to the end of the file |
| Framing.FirstFrameBody | internal/db/sawit.go:81-82 | the body a loop turn reads has the length read from the prefix and starts with the bytes after the prefix, up to where the next length is read |
| Framing.TornBodyFrame | internal/db/sawit.go:81-82 | on a torn last body the one read returns everything that is left of the file, and the rest of the buffer stays zero |
| Framing.DecodeTurn | internal/db/sawit.go:71-89 | reading the file is one loop turn and, unless that turn stopped, reading the rest from where it left off |
| Framing.ReadingStep | internal/db/sawit.go:88 | a command read joins the ones read before it |
| Framing.ReadStep | internal/db/sawit.go:81-88 | after a loop turn reads a body, the commands read so far plus that body, followed by what the rest of the file reads as, are still the whole reading |
| Framing.ReadFrame | internal/db/sawit.go:72-85 | one loop turn on the unread rest of the file returns the error that stops reading there (short prefix, negative length, positive length at the end of the file), or the body one read returns, zero-padded to the length, and how far reading moves on |
| Framing.ReadLog | internal/db/sawit.go:71-89 | the Rehydrate read loop returns exactly the decoded commands and error |
| Sawit.SplitTwo | internal/db/sawit.go:103 | a space-free table, a space and a payload split into those two pieces |
| Sawit.SplitThree | internal/db/sawit.go:103 | likewise with the `JSON` word in front |
| Sawit.SplitFour | internal/db/sawit.go:103 | likewise with the operation word in front |
| Sawit.RenderWords | internal/db/sawit.go:103-108 | a rendered command splits into the operation word, `JSON`, the table and the whole payload, even when the payload holds spaces (also internal/db/sawit.go:219, internal/db/sawit.go:225, internal/db/sawit.go:252) |
| Sawit.RenderPrefix | internal/db/sawit.go:97-101 | a rendered command carries exactly its operation's prefix, and a HAPUS command never looks like an UBAH (also internal/db/sawit.go:160) |
| Sawit.ParseRender | internal/db/sawit.go:96-186 | parsing a rendered command gives back its operation, table and decoded payload (also internal/db/sawit.go:217-254) |
| Sawit.ParseShort | internal/db/sawit.go:103-106 | a TANAM command with fewer than four pieces is a truncated command |
| Sawit.FirstIndex | internal/db/sawit.go:117-122 | the index of the first element with the id, or the length when there is none |
| Sawit.FirstIndexIs | internal/db/sawit.go:117-122 | a position before which no element has the id, and at which one has, is the first index |
| Sawit.ReplaceFirst | internal/db/sawit.go:117-122 | replacing by id keeps the length and every id, changes only the first matching element, and changes nothing without a match (also internal/db/sawit.go:131-136) |
| Sawit.WithoutId | internal/db/sawit.go:177-183 | the users left after HAPUS are exactly those whose id differs |
| Sawit.WithoutIdConcat | internal/db/sawit.go:177-183 | removal works element by element, so it keeps the order of the remaining users |
| Sawit.Apply | internal/db/sawit.go:96-187 | one step never removes or changes an audit record and adds at most one, never removes a transaction or changes its id, and adds at most one user |
| Sawit.TanamAppends | internal/db/sawit.go:111-116 | TANAM on transactions or users appends exactly the record and leaves every other table alone (also internal/db/sawit.go:125-129) |
| Sawit.UbahReplacesFirst | internal/db/sawit.go:117-123 | UBAH on transactions replaces only the first row with the id and keeps the length; without a match nothing changes |
| Sawit.AuditLogOnlyGrows | internal/db/sawit.go:141-150 | UBAH and HAPUS on the audit log change nothing |
| Sawit.HapusOnlyOnUsers | internal/db/sawit.go:160-186 | HAPUS on any table but users is a no-op; on users it removes every user with the id |
| Sawit.IgnoredCommands | internal/db/sawit.go:103-106 | truncated commands, foreign prefixes such as LAHAN, and unknown tables leave the state unchanged (also internal/db/sawit.go:110-157, internal/db/sawit.go:256-266) |
| Sawit.SettingsReplaced | internal/db/sawit.go:151-155 | TANAM and UBAH on settings replace the settings wholesale |
| Sawit.ReplayAppend | internal/db/sawit.go:71-89 | replaying one more command is one more step |
| Sawit.ReplayConcat | internal/db/sawit.go:71-89 | replaying two logs in a row is replaying their concatenation |
| Sawit.ReplayKeepsAuditLog | internal/db/sawit.go:141-150 | over any log the audit log only grows, by at most one record per command (also internal/db/sawit.go:160-186) |
| Sawit.ReplayKeepsTransactions | internal/db/sawit.go:111-124 | over any log no transaction disappears and no row changes its id (also internal/db/sawit.go:160-186) |
| Sawit.AuditIdsLoggedConcat | internal/db/sawit.go:144-146 | a log has every audit id written exactly when both of its parts do |
| Sawit.ApplyIgnoresFreshId | internal/db/sawit.go:144-146 | a command whose audit record has an id does not depend on the id replay would generate |
| Sawit.ReplayIgnoresFreshIds | internal/db/sawit.go:144-146 | a log written through InsertAuditLog replays to the same state whatever ids generateID returns (also internal/db/sawit.go:235-241) |
| Sawit.NoIds | internal/db/sawit.go:144-146 | the blank id list has one entry per command |
| Sawit.CommitIsReplay | internal/db/sawit.go:189-204 | the state after a handler's writes is the replay of those writes |
| Sawit.CommitAppend | internal/db/sawit.go:204 | committing one more command is one more step |
| Sawit.CommitOne | internal/db/sawit.go:204 | committing a single command is applying it |
| Sawit.CommitRemoval | internal/db/sawit.go:176-183 | committing DeleteUser's command removes every user with the id and nothing else (also internal/db/sawit.go:250-254) |
| Sawit.CommitUserEdit | internal/db/sawit.go:130-136 | committing UpdateUser's command replaces the first user with the id and nothing else (also internal/db/sawit.go:244-248) |
| Sawit.CommitTwo | internal/db/sawit.go:204 | committing two commands applies them in order |
| Sawit.CommitThree | internal/db/sawit.go:204 | committing three commands applies them in order |
| Sawit.SawitDB.constructor | internal/db/sawit.go:36-61 | a new store has an empty file, empty tables and the default settings `001`/`001` |
| Sawit.SawitDB.ApplyLocally | internal/db/sawit.go:96-187 | the in-place update of the table fields is exactly one Apply step |
| Sawit.SawitDB.RemoveUsers | internal/db/sawit.go:177-183 | the filtered rebuild of the users leaves exactly WithoutId and touches no other field |
| Sawit.SawitDB.ExecuteAQL | internal/db/sawit.go:189-204 | a write refused at the length prefix changes neither the file nor the tables; a written and synced one appends the command and applies it, so the tables stay the replay of the file |
| Sawit.SawitDB.Append | internal/db/sawit.go:217-254 | a helper's write appends the command and applies it |
| Sawit.SawitDB.InsertTransaction | internal/db/sawit.go:217-221 | appends one TANAM and the transaction at the end of the table |
| Sawit.SawitDB.UpdateTransaction | internal/db/sawit.go:223-227 | appends one UBAH and replaces the first transaction with the id |
| Sawit.SawitDB.InsertUser | internal/db/sawit.go:229-233 | appends one TANAM and the user at the end of the table |
| Sawit.SawitDB.UpdateUser | internal/db/sawit.go:244-248 | appends one UBAH and replaces the first user with the id |
| Sawit.SawitDB.InsertAuditLog | internal/db/sawit.go:235-242 | a record without an id gets the fresh non-empty id before it is written, so the id written is the id replay restores |
| Sawit.SawitDB.DeleteUser | internal/db/sawit.go:250-254 | appends one HAPUS and removes every user with the id |
| Sawit.SawitDB.Migrate | internal/db/sawit.go:256-266 | the four LAHAN commands are logged and change no table |
| Sawit.SawitDB.Rehydrate | internal/db/sawit.go:63-94 | folding the decoded commands into the tables leaves them equal to the replay of the whole file |
| Sawit.SawitDB.ApplyLogged | internal/db/sawit.go:88 | one rehydration step applies a command already in the file with the id generated for it, and keeps the tables the replay of the file |
| Sawit.PrefixStep | internal/db/sawit.go:71-89 | the loop's prefix grows by the element just read |
| Sawit.FileCommands | internal/db/sawit.go:71-89 | one command per decoded frame |
| Sawit.Reopen | internal/db/sawit.go:63-94 | a file written from the live log, each frame at most 1 GiB and parsed back to its command, reads back as that log with no error, and when every audit record has its id it replays to the live tables whatever ids are generated (also internal/db/sawit.go:189-204) |
| Sawit.Open | internal/db/sawit.go:36-61 | opening fails exactly when reading the file fails; otherwise the store holds the file's commands and its tables are their replay |
| Handlers.WriteRowAndAudit | internal/api/handlers.go:262-280 | writes the row update and then its audit record, and nothing else (also internal/api/handlers.go:511-521) |
| Handlers.IsSetup | internal/api/handlers.go:74-79 | the store is set up exactly when some user exists |
| Handlers.SetupOutcome | internal/api/handlers.go:128-150 | once any user exists setup is 403; every refusal writes nothing |
| Handlers.SetupOnce | internal/api/handlers.go:128-183 | a successful setup adds exactly one admin named after the request with the `(Administrator)` suffix, one `setup_admin` record and the settings; after it, every further setup is 403 |
| Handlers.SetupSucceeds | internal/api/handlers.go:74-79 | setup succeeds exactly when there is no user yet, the body parses, both validators accept and hashing succeeds (also internal/api/handlers.go:128-150) |
| Handlers.Setup | internal/api/handlers.go:128-183 | the handler performs exactly the outcome's writes and returns its status |
| Handlers.Active | internal/api/handlers.go:186-191 | the rows kept are exactly those with no DeletedAt |
| Handlers.ActiveConcat | internal/api/handlers.go:186-191 | the filter keeps the stored order |
| Handlers.GetTransactions | internal/api/handlers.go:185-193 | the response is null exactly when no row is active; otherwise it is the active rows in stored order |
| Handlers.CreateTransactionOutcome | internal/api/handlers.go:195-216 | create fails only when the body does not parse; there is no other validation |
| Handlers.CreateTransactionAppends | internal/api/handlers.go:195-216 | one transaction is appended with the client id kept when given, otherwise a fresh one, and the creation time set; one `create` record is appended; users and settings are unchanged |
| Handlers.CreateTransaction | internal/api/handlers.go:195-216 | the handler performs exactly the outcome's writes |
| Handlers.PatchOf | internal/api/handlers.go:244-260 | a field is changed and logged as `"old -> new"` exactly when the request value is non-zero or non-empty and differs; id, creation time, creator and DeletedAt are kept; no change means the row is as it was |
| Handlers.NoteOf | internal/api/handlers.go:266-270 | the audit note is empty exactly when none of the four fields changed |
| Handlers.JoinWith | internal/api/handlers.go:270 | `strings.Join` of no parts is empty and otherwise starts with the first part |
| Handlers.UpdateTransactionOutcome | internal/api/handlers.go:218-284 | 404 exactly for an id that matches no row, soft-deleted rows included; refusals write nothing |
| Handlers.UpdateTransactionEffect | internal/api/handlers.go:244-281 | with no change nothing is written; otherwise the first row with the id is replaced by the patched row and one `update` record carrying the change map is appended |
| Handlers.UpdateTransaction | internal/api/handlers.go:218-284 | the handler performs exactly the outcome's writes |
| Handlers.BuildPatch | internal/api/handlers.go:244-260 | the step-by-step change map and row are the patch |
| Handlers.DeleteTransactionOutcome | internal/api/handlers.go:286-319 | 404 exactly for an id that matches no row; refusals write nothing |
| Handlers.SoftDelete | internal/api/handlers.go:286-319 | delete sets DeletedAt on the first row with the id and keeps it, changes no other row, hides it from the active list and appends one `delete` record for the id |
| Handlers.DeleteTransaction | internal/api/handlers.go:286-319 | the handler performs exactly the outcome's writes |
| Handlers.UpdateSettingsOutcome | internal/api/handlers.go:337-349 | 200 exactly when the body parses, otherwise 400 with no write |
| Handlers.UpdateSettingsReplaces | internal/api/handlers.go:337-349 | the settings are replaced wholesale |
| Handlers.UpdateSettings | internal/api/handlers.go:337-349 | the handler performs exactly the outcome's writes |
| Handlers.CreateUserOutcome | internal/api/handlers.go:351-384 | refusals are 400 or 500 and write nothing |
| Handlers.CreateUserIgnoresExistingNames | internal/api/handlers.go:351-384 | create succeeds exactly when the body parses, both validators accept and hashing succeeds, whatever users exist, and appends the new user |
| Handlers.CreateUser | internal/api/handlers.go:351-384 | the handler performs exactly the outcome's writes |
| Handlers.EditUser | internal/api/handlers.go:422-439 | an edit keeps the id and creation time, stamps the update time, and sets the username, the password hash, the full name and the role each only when the request gives one |
| Handlers.UpdateUserOutcome | internal/api/handlers.go:386-444 | refusals are 400, 404 or 500 and write nothing |
| Handlers.UpdateUserEffect | internal/api/handlers.go:386-444 | 404 exactly for valid input and no user with the id; success exactly for valid input, a match and a hashed new password; it then rewrites the first user with the id and changes nothing else |
| Handlers.UpdateUserCanDemoteLastAdmin | internal/api/handlers.go:436-438 | with a single admin, an update to role `user` succeeds and leaves no admin |
| Handlers.UpdateUser | internal/api/handlers.go:386-444 | the handler performs exactly the outcome's writes |
| Handlers.AdminCount | internal/api/handlers.go:456-466 | the admin count is at most the number of users |
| Handlers.LastWithId | internal/api/handlers.go:456-466 | the scan finds no user exactly when no user has the id; a found user has the id and stands at a position after which no user has it |
| Handlers.DeleteUserOutcome | internal/api/handlers.go:446-477 | refusals are 400 or 404 and write nothing |
| Handlers.DeleteUserStatus | internal/api/handlers.go:446-477 | 404 exactly for an unknown id; any other 400 for a named id is an admin target while at most one admin exists; success needs a second admin to delete an admin |
| Handlers.AdminCountWithout | internal/api/handlers.go:456-466 | removing by id removes exactly the admins that have that id (also internal/db/sawit.go:177-183) |
| Handlers.AdminsWithUniqueId | internal/api/handlers.go:456-466 | with unique ids at most one admin has the id, and it is the one the scan finds |
| Handlers.DeleteUserKeepsAnAdmin | internal/api/handlers.go:446-477 | with unique ids, a successful delete never takes the admin count from at least one to zero |
| Handlers.DeleteUserDuplicateAdminIds | internal/api/handlers.go:446-477 | without unique ids the guard is not enough: of two admins sharing an id, delete sees two admins, succeeds, and leaves none (also internal/db/sawit.go:176-183) |
| Handlers.DeleteUserRemoves | internal/api/handlers.go:446-477 | a successful delete removed an existing user, and no user with the id is left |
| Handlers.DeleteUser | internal/api/handlers.go:446-477 | the handler performs exactly the outcome's writes |
| Handlers.CountAdmins | internal/api/handlers.go:456-466 | the loop counts the admins and keeps the last user with the id |
| Handlers.HandlersLogAuditIds | internal/api/handlers.go:128-477 | under a non-empty generated id, no handler writes an audit record without an id, so replay after a restart does not depend on generated ids |
| Handlers.SetupLogsAuditId | internal/api/handlers.go:164-168 | the `setup_admin` record is written with its id |
| Handlers.LedgerLogsAuditIds | internal/api/handlers.go:195-319 | the create, update and delete records are written with their ids |
| Handlers.AccountsLogNoAudit | internal/api/handlers.go:337-477 | the settings and user handlers write no audit record |
| Restore.RestoreFields | internal/api/handlers.go:528-547 | restoring fields never touches id, creation time, creator or DeletedAt |
| Restore.Restrict | internal/api/handlers.go:528 | the changes handled so far are the map cut to those fields |
| Restore.RestoreStep | internal/api/handlers.go:528-547 | handling one more field applies that field's old value to the partial result |
| Restore.RestoreUndoesPatch | internal/api/handlers.go:244-260 | applying a patch's change map puts back the old value of every changed field, provided the old text is recoverable, and keeps every other field (also internal/api/handlers.go:528-547) |
| Restore.RestoreRoundTrip | internal/api/handlers.go:244-260 | restoring a patched row from its change map gives back the original row (also internal/api/handlers.go:528-547) |
| Restore.OldValue | internal/api/handlers.go:529-533 | the old value read from a change holds no ` -> `, is a prefix of the change, and is either the whole change or followed in it by ` -> ` |
| Restore.ArrowInOldValue | internal/api/handlers.go:529-533 | an old value ending in ` ->` is not recoverable: what comes back is cut short |
| Restore.RestoreOutcome | internal/api/handlers.go:479-562 | an unknown audit id is 404; refusals write nothing; a restore writes the row and then one audit record |
| Restore.RestoreStatus | internal/api/handlers.go:479-562 | for a found record: 404 exactly when its transaction row is missing, 400 exactly for a non-transaction record or an action other than delete, update and correction, 500 exactly for an update or correction without details, 200 otherwise |
| Restore.RestoreLogsAuditId | internal/api/handlers.go:511-556 | the restore's audit record is written with its id |
| Restore.RestoreEffect | internal/api/handlers.go:499-556 | restoring a delete clears DeletedAt and logs `create`, restoring an update or correction applies the old values and logs `update`, and in both cases only the target row changes |
| Restore.FreshRecordFound | internal/api/handlers.go:483-489 | a record appended with an unused id is the one the lookup finds |
| Restore.RestoreRecordUndoes | internal/api/handlers.go:479-556 | restoring a fresh record whose restore gives back the old row returns the transactions to what they were |
| Restore.UpdateThenRestore | internal/api/handlers.go:218-284 | an update followed by a restore of its audit id gives back the transactions as they were, when the old value of each changed text field is recoverable (also internal/api/handlers.go:479-556) |
| Restore.DeleteThenRestore | internal/api/handlers.go:286-319 | a soft delete followed by a restore of its audit id gives back the transactions as they were (also internal/api/handlers.go:479-556) |
| Restore.RestoreAuditLog | internal/api/handlers.go:479-562 | the handler performs exactly the outcome's writes |
| Restore.FindAudit | internal/api/handlers.go:483-489 | the loop finds the first record with the id |
| Restore.FindTransaction | internal/api/handlers.go:500-505 | the loop finds the first row with the id |
| Restore.RestoreLoop | internal/api/handlers.go:528-547 | the field-by-field loop computes the restored row |
| Middleware.Authenticate | internal/api/middleware.go:35-40 | an empty header is refused as missing |
| Middleware.AuthStatus | internal/api/middleware.go:33-72 | every refusal is a 401 |
| Middleware.BearerAccepted | internal/api/middleware.go:42-71 | `Bearer <token>` with a space-free token reaches the verifier with exactly that token, and its verdict decides |
| Middleware.OnlyBearerPasses | internal/api/middleware.go:42-71 | a request passes exactly when the header is `Bearer`, one space and a token that verifies with session claims, and that session is stored |
| Middleware.AdminOnly | internal/api/middleware.go:75-91 | only an admin role passes; no role is 401 and another role 403 |
| Middleware.AdminRouteGate | internal/api/middleware.go:33-91 | behind both gates an admin route is reached exactly with an admin session; refusals are 401 before and 403 after authentication |
| Middleware.CheckSecret | internal/api/middleware.go:19-31 | an empty secret is the missing error, and a non-empty one under 32 bytes the too-short error |
| Middleware.SecretAccepted | internal/api/middleware.go:19-31 | the secret is accepted exactly when it has at least 32 bytes, 32 characters for ASCII; only the empty secret is the missing error |
| Balance.SumZero | frontend/src/pages/Dashboard.tsx:30-43 | a sum of zero parts is zero |
| Balance.SumConcat | frontend/src/pages/Dashboard.tsx:30-43 | the sum over two lists is the sum of the sums |
| Balance.SumPermutation | frontend/src/pages/Dashboard.tsx:25-37 | the sum does not depend on the order of the list |
| Balance.OneSidedTotals | frontend/src/pages/Dashboard.tsx:30-37 | without an `income` row the income is zero; with only `income` rows the expense is zero, since every other type counts as expense |
| Balance.Balance | frontend/src/pages/Dashboard.tsx:30-47 | the balance is the sum of the signed amounts |
| Balance.SignedSum | frontend/src/pages/Dashboard.tsx:30-47 | the sum of the signed amounts is the income total less the expense total |
| Balance.Totals | frontend/src/pages/Dashboard.tsx:23-48 | the cards show a balance equal to income less expense and to the sum of the signed amounts |
| Balance.BalanceStep | frontend/src/pages/Dashboard.tsx:30-37 | one more transaction adds its amount to income or to expense and its signed amount to the balance |
| Balance.TotalsOrderFree | frontend/src/pages/Dashboard.tsx:25-49 | the totals do not depend on input order (also frontend/src/pages/Landing.tsx:20-34) |
| Balance.SortedTail | frontend/src/pages/Dashboard.tsx:25 | the tail of a time-sorted list is sorted |
| Balance.SortedCons | frontend/src/pages/Dashboard.tsx:25 | an earlier transaction in front of a sorted list keeps it sorted |
| Balance.InsertByTime | frontend/src/pages/Dashboard.tsx:25 | insertion keeps the list sorted and adds exactly the one transaction |
| Balance.SortByTime | frontend/src/pages/Dashboard.tsx:25 | the sort by created_at is sorted and a permutation of its input (also frontend/src/pages/Landing.tsx:20) |
| Balance.Series | frontend/src/pages/Dashboard.tsx:27-43 | one chart point per transaction |
| Balance.LastN | frontend/src/pages/Dashboard.tsx:50 | `slice(-n)` is the last n entries, or all of them when fewer |
| Balance.Reverse | frontend/src/pages/Dashboard.tsx:176 | `reverse()` turns the order around |
| Balance.Recent | frontend/src/pages/Dashboard.tsx:176 | `slice(-n).reverse()` is the last n transactions, newest first (also frontend/src/pages/Landing.tsx:124) |
| Balance.SeriesStep | frontend/src/pages/Dashboard.tsx:30-43 | each point carries the balance of the prefix ending at its transaction |
| Balance.ChartEndsAtBalance | frontend/src/pages/Dashboard.tsx:25-50 | the last chart point of a non-empty ledger shows the total balance |
| Balance.AsArray | frontend/src/pages/Landing.tsx:17 | a non-array response is an empty list |
| Balance.DashboardAsWritten | frontend/src/pages/Dashboard.tsx:19-25 | the dashboard shows nothing exactly when the response is not an array, and otherwise the totals of the rows |
| Balance.DashboardFixed | frontend/src/pages/Dashboard.tsx:19-50 | with the array guard a non-array response shows zero totals, no chart and no recent rows |
| Balance.LandingOf | frontend/src/pages/Landing.tsx:15-35 | a non-array response gives all-zero totals and no rows; an array gives its totals |
| Balance.EmptyLedgerBreaksDashboard | frontend/src/pages/Dashboard.tsx:19-25 | with no active row, a fresh database included, the dashboard as written shows nothing (also internal/api/handlers.go:185-193) |
| Balance.DashboardShowsLedger | frontend/src/pages/Dashboard.tsx:19-50 | the guarded dashboard shows the active rows and their totals, which agree with the landing page (also internal/api/handlers.go:185-193) |
| Balance.FoldDashboard | frontend/src/pages/Dashboard.tsx:23-50 | the loop computes the totals of the ledger and the last 20 points of the running-balance series over the time-sorted rows |
| Balance.FoldLanding | frontend/src/pages/Landing.tsx:18-34 | the loop computes the totals of the ledger |
| Balance.LoadDashboardAsWritten | frontend/src/pages/Dashboard.tsx:19-50 | loading as written is the as-written dashboard |
| Balance.LoadDashboard | frontend/src/pages/Dashboard.tsx:19-50 | loading with the guard is the guarded dashboard |
| Balance.LoadLanding | frontend/src/pages/Landing.tsx:15-35 | loading the landing page is LandingOf |

## Left out

- JSON: payloads are a `Doc` datatype and the audit details a map. A payload of the wrong shape for its table counts as a failed decode. Go's lenient decoding, which fills missing fields with zero values, is not modelled.
- File I/O: the file is a byte sequence, and reads return what is there. Seek, Sync and partial writes beyond the framing model are not modelled. The helpers' write errors are ignored, as the source does, so a helper's write is taken to succeed.
- Framing.DecodeEncode: frames over 1 GiB are outside the round-trip, because one read returns at most 1 GiB and the rest of such a body is read as further frames (Framing.LongFrameReadShort shows this). Commands of 2^31 bytes or more, whose int32 length prefix wraps, are outside it for the same reason.
- Sawit.SawitDB.ExecuteAQL: a failure of the body write or of Sync, after the length prefix went out, is not modelled. Such a failure leaves a torn frame, or a whole frame that was never applied, in the file. The next start-up applies it, so the tables in memory are then not the replay of the file, and `Valid()` is not kept on those paths.
- The PANEN return value of ExecuteAQL: no caller in the core uses it.
- Login, bcrypt and JWT signing are not modelled. Token verification (RFC 7519, HS256) is an oracle parameter, and a password hash is a parameter that is None when hashing fails.
- GetUsers, GetAuditLog and GetSettings are plain reads and are not modelled.
- Concurrency: the store's mutex and the `sync.Once` around the secret.
- The middleware reads the global `jwtSecret`, which is nil until the first login calls getJWTSecret. CheckSecret models only the start-up length rule.
- Randomness and time: `generateID` and `time.Now` are parameters. One `now` stands for every clock reading of a request.
- Go iterates a map in random order, so the audit note lists its changes in varying order. The model uses a fixed key order; the change map itself does not depend on it.
- Floating point: amounts are integers. `%.2f` and `ParseFloat` are modelled only on the forms `%.2f` produces for integers, so fractional amounts are out.
- Restore.RestoreAuditLog: the source changes the row in memory, through a reference into the table, before calling UpdateTransaction. The model computes the restored row and writes it. The result is the same, because UpdateTransaction replaces that same first row with the id.
- Balance.SortByTime: the model states sortedness and permutation, not the stability of the JavaScript sort.
- Date formatting with `toLocaleDateString` and the millisecond rounding of `new Date` are not modelled. A chart point carries the raw creation time.
- React rendering, routing, and the user count the dashboard takes from getUsers are not modelled.

## Findings

| source | as written | input that shows it | evidently intended | confidence | as-written member | corrected member |
|---|---|---|---|---|---|---|
| frontend/src/pages/Dashboard.tsx:19-25 | GetTransactions (internal/api/handlers.go:185-193) sends a nil slice, which is JSON `null`, when no row is active. The dashboard stores the response with `setTransactions`, then spreads it with `[...txs]`, which throws on `null`; the render's `transactions.slice(-5)` (Dashboard.tsx:176) then throws on the stored `null` as well, so the page cannot show the ledger | a fresh database after setup, or any ledger whose rows are all soft-deleted | treat a non-array response as an empty list, as Landing.tsx:17 does: zero totals, an empty chart | not executed | Balance.DashboardAsWritten, Balance.EmptyLedgerBreaksDashboard | Balance.DashboardFixed, Balance.DashboardShowsLedger |
