/**
 * The access gate in front of the protected routes: reading the Authorization
 * header, the admin-only role check and the rule for the signing secret. Token
 * verification itself (HS256 signatures and expiry, RFC 7519) is a function
 * passed in: it either yields the session claims, yields claims of another type,
 * or rejects the token.
 */
module Middleware {
  import opened Wrappers
  import opened Domain
  import Text

  /** The claims AuthMiddleware copies into the request: userID, username and role. */
  datatype Session = Session(userId: string, username: string, role: Role)

  /** What jwt.ParseWithClaims makes of a token. */
  datatype TokenCheck =
    | Verified(session: Session)   // valid, with claims of the session type
    | WrongClaims                  // valid, but the claims have another type
    | Rejected                     // a parse error, a bad signature or an expired token

  datatype AuthError = MissingHeader | BadFormat | InvalidToken | InvalidClaims

  datatype AuthResult = Pass(session: Session) | Unauthorized(error: AuthError)

  const Bearer: string := "Bearer"

  /**
   * AuthMiddleware: an empty or missing header, a header that does not split on
   * single spaces into exactly "Bearer" and one more piece, a rejected token and
   * claims of the wrong type are all refused; otherwise the session passes on.
   */
  function Authenticate(header: string, verify: string -> TokenCheck): (r: AuthResult)
    ensures header == "" ==> r == Unauthorized(MissingHeader)
  {
    if header == "" then Unauthorized(MissingHeader)
    else
      var parts := Text.SplitOn(header, ' ');
      if |parts| != 2 || parts[0] != Bearer then Unauthorized(BadFormat)
      else
        match verify(parts[1])
        case Rejected => Unauthorized(InvalidToken)
        case WrongClaims => Unauthorized(InvalidClaims)
        case Verified(s) => Pass(s)
  }

  /** Every refusal of AuthMiddleware is a 401. */
  function AuthStatus(r: AuthResult): (status: int)
    ensures status == 401 <==> r.Unauthorized?
  {
    if r.Pass? then 200 else 401
  }

  /** "Bearer <token>" with a token free of spaces reaches the verifier with exactly that token. */
  lemma BearerAccepted(token: string, verify: string -> TokenCheck)
    requires ' ' !in token
    ensures Authenticate(Bearer + " " + token, verify) ==
      match verify(token)
      case Rejected => Unauthorized(InvalidToken)
      case WrongClaims => Unauthorized(InvalidClaims)
      case Verified(s) => Pass(s)
  {
    var parts := [Bearer, token];
    assert ' ' !in Bearer;
    assert Text.Join(parts, ' ') == Bearer + " " + token by {
      assert parts[1..] == [token];
    }
    Text.SplitOnJoin(parts, ' ');
  }

  /**
   * A request passes exactly when its header is "Bearer", one space and a token without
   * spaces that the verifier accepts with session claims; that session is what passes.
   */
  lemma OnlyBearerPasses(header: string, verify: string -> TokenCheck, s: Session)
    ensures Authenticate(header, verify) == Pass(s) <==>
      exists token :: ' ' !in token && header == Bearer + " " + token && verify(token) == Verified(s)
  {
    if Authenticate(header, verify) == Pass(s) {
      var parts := Text.SplitOn(header, ' ');
      assert parts[1..] == [parts[1]];
      assert Text.Join(parts[1..], ' ') == parts[1];
      assert header == parts[0] + [' '] + parts[1];
      assert ' ' !in parts[1];
    }
    if exists token :: ' ' !in token && header == Bearer + " " + token && verify(token) == Verified(s) {
      var token :| ' ' !in token && header == Bearer + " " + token && verify(token) == Verified(s);
      BearerAccepted(token, verify);
    }
  }

  datatype Gate = Next | Refused(status: int)

  /** AdminOnly: no role in the request is 401, a role other than admin is 403. */
  function AdminOnly(role: Option<Role>): (g: Gate)
    ensures g == Next <==> role == Some(RoleAdmin)
    ensures g.Refused? ==> g.status == (if role.None? then 401 else 403)
  {
    if role.None? then Refused(401)
    else if role.value != RoleAdmin then Refused(403)
    else Next
  }

  /** An admin route: AuthMiddleware first, then AdminOnly on the role it stored. */
  function AdminRoute(header: string, verify: string -> TokenCheck): (g: Gate)
  {
    match Authenticate(header, verify)
    case Unauthorized(_) => Refused(401)
    case Pass(s) => AdminOnly(Some(s.role))
  }

  /**
   * Behind both gates the only outcomes are 401 for a failed authentication and 403
   * for an authenticated non-admin; an admin route is reached only with an admin session.
   */
  lemma AdminRouteGate(header: string, verify: string -> TokenCheck)
    ensures AdminRoute(header, verify) == Next <==>
      Authenticate(header, verify).Pass? && Authenticate(header, verify).session.role == RoleAdmin
    ensures AdminRoute(header, verify).Refused? ==>
      AdminRoute(header, verify).status == (if Authenticate(header, verify).Pass? then 403 else 401)
  {
  }

  datatype SecretError = SecretMissing | SecretTooShort

  /**
   * getJWTSecret's rule for JWT_SECRET: startup stops when it is empty or shorter than
   * 32 bytes (Go's len counts bytes, not characters).
   */
  function CheckSecret(secret: string): (r: Option<SecretError>)
    ensures r == Some(SecretMissing) <==> secret == ""
    ensures r == Some(SecretTooShort) <==> secret != "" && Text.Utf8Len(secret) < 32
  {
    if secret == "" then Some(SecretMissing)
    else if Text.Utf8Len(secret) < 32 then Some(SecretTooShort)
    else None
  }

  /**
   * A secret is accepted exactly when its encoding has at least 32 bytes; for ASCII
   * text that is 32 characters, and a secret of other characters needs fewer.
   */
  lemma SecretAccepted(secret: string)
    ensures CheckSecret(secret) == None <==> Text.Utf8Len(secret) >= 32
    ensures Text.IsAscii(secret) ==> (CheckSecret(secret) == None <==> |secret| >= 32)
    ensures CheckSecret(secret) == Some(SecretMissing) <==> secret == ""
  {
    if Text.IsAscii(secret) {
      Text.AsciiUtf8Len(secret);
    }
  }
}
