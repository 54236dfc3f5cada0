/**
 * The backend's records (transactions, audit log entries, users, settings) and the
 * account rules that belong to them: the three roles, the username and password
 * validators and the password-free view of a user.
 *
 * Instants (Go's time.Time) are integers; an amount is an integer number of the
 * smallest currency unit.
 */
module Domain {
  import opened Wrappers
  import Text

  type Time = int

  // ---------------------------------------------------------------------------
  // Roles: Go's `type Role string` with three named values

  type Role = string

  const RoleAdmin: Role := "admin"
  const RoleGuest: Role := "guest"
  const RoleUser: Role := "user"

  /** The named roles. A request body can still carry any other text as a role. */
  function NamedRoles(): (roles: set<Role>)
    ensures |roles| == 3
    ensures RoleAdmin in roles && RoleGuest in roles && RoleUser in roles
  {
    assert RoleAdmin != RoleGuest && RoleAdmin != RoleUser && RoleGuest != RoleUser by {
      assert RoleAdmin[0] == 'a' && RoleGuest[0] == 'g' && RoleUser[0] == 'u';
    }
    {RoleAdmin, RoleGuest, RoleUser}
  }

  // ---------------------------------------------------------------------------
  // Records

  /** A ledger row. `txType` is "income" or "expense" by convention only; nothing checks it. */
  datatype Transaction = Transaction(
    id: string,
    txType: string,
    amount: int,
    category: string,
    description: string,
    createdAt: Time,
    createdBy: string,
    deletedAt: Option<Time>)

  /**
   * An audit record. `details` is the JSON object stored in the Details text: None
   * when that text is empty or is not an object of strings.
   */
  datatype AuditLog = AuditLog(
    id: string,
    entityType: string,
    entityId: string,
    action: string,
    note: string,
    details: Option<map<string, string>>,
    createdAt: Time,
    createdBy: string)

  datatype User = User(
    id: string,
    username: string,
    passwordHash: string,
    role: Role,
    fullName: string,
    createdAt: Time,
    updatedAt: Time)

  /** What the API returns for a user: every field but the password hash. */
  datatype SafeUser = SafeUser(
    id: string,
    username: string,
    role: Role,
    fullName: string,
    createdAt: Time,
    updatedAt: Time)

  datatype AppSettings = AppSettings(
    rtName: string,
    rwName: string,
    kelurahan: string,
    kecamatan: string,
    address: string)

  datatype SetupRequest = SetupRequest(
    rtName: string,
    rwName: string,
    kelurahan: string,
    kecamatan: string,
    address: string,
    username: string,
    password: string)

  datatype CreateUserRequest = CreateUserRequest(
    username: string,
    password: string,
    fullName: string,
    role: Role)

  /** A JSON response that a client expects to be a list: a JSON array, or anything else (null). */
  datatype JsonList<T> = NotArray | Array(items: seq<T>)

  // ---------------------------------------------------------------------------
  // The password-free view

  function ToSafe(u: User): (r: SafeUser)
    ensures r.id == u.id && r.username == u.username && r.role == u.role
    ensures r.fullName == u.fullName && r.createdAt == u.createdAt && r.updatedAt == u.updatedAt
  {
    SafeUser(u.id, u.username, u.role, u.fullName, u.createdAt, u.updatedAt)
  }

  /** ToSafe keeps every field but the hash: two users look alike exactly when they differ at most in it. */
  lemma ToSafeForgetsOnlyHash(u: User, v: User)
    ensures ToSafe(u) == ToSafe(v) <==> u.(passwordHash := v.passwordHash) == v
  {
  }

  // ---------------------------------------------------------------------------
  // Validators

  datatype UsernameError = UsernameTooShort | UsernameTooLong | UsernameBadChar

  predicate IsUsernameChar(c: char) {
    ('a' <= c <= 'z') || ('A' <= c <= 'Z') || ('0' <= c <= '9') || c == '_'
  }

  /**
   * The length rules are checked first and count bytes (Go's len); only then is
   * every character checked.
   */
  function ValidateUsername(name: string): (err: Option<UsernameError>)
    ensures Text.Utf8Len(name) < 3 ==> err == Some(UsernameTooShort)
    ensures Text.Utf8Len(name) > 30 ==> err == Some(UsernameTooLong)
  {
    if Text.Utf8Len(name) < 3 then Some(UsernameTooShort)
    else if Text.Utf8Len(name) > 30 then Some(UsernameTooLong)
    else if exists i :: 0 <= i < |name| && !IsUsernameChar(name[i]) then Some(UsernameBadChar)
    else None
  }

  /** Accepted names are exactly the 3 to 30 character strings of ASCII letters, digits and '_'. */
  lemma UsernameAccepted(name: string)
    ensures ValidateUsername(name) == None <==>
      3 <= |name| <= 30 && forall i :: 0 <= i < |name| ==> IsUsernameChar(name[i])
  {
    if forall i :: 0 <= i < |name| ==> IsUsernameChar(name[i]) {
      assert Text.IsAscii(name) by {
        forall i | 0 <= i < |name| ensures name[i] as int < 0x80 {
          assert IsUsernameChar(name[i]);
        }
      }
      Text.AsciiUtf8Len(name);
    }
  }

  datatype PasswordError = PasswordTooShort | PasswordTooLong

  /** Only the byte length is checked; the text itself is unconstrained. */
  function ValidatePassword(password: string): (err: Option<PasswordError>)
    ensures Text.Utf8Len(password) < 8 ==> err == Some(PasswordTooShort)
    ensures Text.Utf8Len(password) > 72 ==> err == Some(PasswordTooLong)
  {
    if Text.Utf8Len(password) < 8 then Some(PasswordTooShort)
    else if Text.Utf8Len(password) > 72 then Some(PasswordTooLong)
    else None
  }

  /**
   * A password is accepted exactly when it is 8 to 72 bytes long; for ASCII text that
   * is 8 to 72 characters, and the longest accepted password still fits bcrypt's
   * 72-byte input.
   */
  lemma PasswordAccepted(password: string)
    ensures ValidatePassword(password) == None <==> 8 <= Text.Utf8Len(password) <= 72
    ensures Text.IsAscii(password) ==>
      (ValidatePassword(password) == None <==> 8 <= |password| <= 72)
  {
    if Text.IsAscii(password) {
      Text.AsciiUtf8Len(password);
    }
  }
}
