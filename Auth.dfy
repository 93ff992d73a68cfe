/**
 * `AuthController`: registration and login over the Identity user store, and
 * the token issuer `GeneretaToken`.
 *
 * The signed, serialised JWT is represented by the token's content (issuer,
 * audience, claims, expiry); signing and serialisation are library code.
 * Clocks, the new user's GUID and the hasher's random salt are parameters.
 * Instants are integer seconds.
 */
module Auth {
  import opened Wrappers
  import opened Identity

  // ---------------------------------------------------------------------------
  // Requests, responses and the token

  datatype RegisterRequest = RegisterRequest(email: string, password: string, fullName: Option<string>)

  datatype LoginRequest = LoginRequest(email: string, password: string)

  /** The `JwtSettings` configuration section; `issuer` is the value stored under the key "Isuser". */
  datatype JwtSettings = JwtSettings(key: string, issuer: Option<string>, audience: Option<string>, expiryMinutes: int)

  datatype Claim = Claim(claimType: string, value: string)

  /** The content of the issued JWT. */
  datatype JwtSecurityToken = JwtSecurityToken(
    issuer: Option<string>,
    audience: Option<string>,
    claims: seq<Claim>,
    expires: int)

  datatype AuthResponse = AuthResponse(token: JwtSecurityToken, expiresAt: int, email: string, fullName: Option<string>)

  /** The controller's four outcomes, with the bodies it sends. */
  datatype ActionResult =
    | Conflict(message: string)
    | BadRequest(errors: seq<string>)
    | Unauthorized(message: string)
    | Ok(response: AuthResponse)

  const EmailTakenMessage := "Bu e-posta zaten kayıtlı."
  const UserNotFoundMessage := "Kullanıcı Bulunamadı"
  const WrongCredentialsMessage := "E-posta veya Şifre Hatalı."

  /** `JwtRegisteredClaimNames.Sub`, `.Email`, `ClaimTypes.NameIdentifier`, `ClaimTypes.Name`. */
  const SubClaim := "sub"
  const EmailClaim := "email"
  const NameIdentifierClaim := "http://schemas.xmlsoap.org/ws/2005/05/identity/claims/nameidentifier"
  const NameClaim := "http://schemas.xmlsoap.org/ws/2005/05/identity/claims/name"

  /** The value of the first claim of type `claimType`, as a token consumer reads it. */
  function ClaimValue(claims: seq<Claim>, claimType: string): (r: Option<string>)
    ensures r.None? <==> forall i :: 0 <= i < |claims| ==> claims[i].claimType != claimType
    ensures r.Some? ==> exists i :: 0 <= i < |claims| && claims[i] == Claim(claimType, r.value)
    decreases |claims|
  {
    if claims == [] then None
    else if claims[0].claimType == claimType then Some(claims[0].value)
    else ClaimValue(claims[1..], claimType)
  }

  function Descriptions(errors: seq<IdentityError>): (r: seq<string>)
    ensures |r| == |errors| && forall i :: 0 <= i < |errors| ==> r[i] == errors[i].description
  {
    seq(|errors|, i requires 0 <= i < |errors| => errors[i].description)
  }

  // ---------------------------------------------------------------------------
  // The token issuer

  /**
   * `GeneretaToken`: claims for the user's id, e-mail and name, an expiry
   * `expiryMinutes` after `utcNow`, and a response echoing that expiry.
   */
  function GeneretaToken(user: AppUser, jwt: JwtSettings, utcNow: int): (r: AuthResponse)
    ensures ClaimValue(r.token.claims, SubClaim) == Some(user.id)
    ensures ClaimValue(r.token.claims, NameIdentifierClaim) == Some(user.id)
    ensures ClaimValue(r.token.claims, EmailClaim) == Some(user.email.GetOr(""))
    ensures ClaimValue(r.token.claims, NameClaim) == Some(user.userName.GetOr(user.email.GetOr("")))
    ensures |r.token.claims| == 4
    ensures r.token.expires == r.expiresAt == utcNow + jwt.expiryMinutes * 60
    ensures r.token.issuer == jwt.issuer && r.token.audience == jwt.audience
    ensures r.email == user.email.GetOr("") && r.fullName == user.fullName
  {
    var claims := [
      Claim(SubClaim, user.id),
      Claim(EmailClaim, user.email.GetOr("")),
      Claim(NameIdentifierClaim, user.id),
      Claim(NameClaim, user.userName.GetOr(user.email.GetOr("")))
    ];
    assert ClaimValue(claims[2..], NameIdentifierClaim) == Some(user.id);
    assert ClaimValue(claims[3..], NameClaim) == Some(user.userName.GetOr(user.email.GetOr("")));
    assert ClaimValue(claims[2..], NameClaim) == ClaimValue(claims[3..], NameClaim);
    var expires := utcNow + jwt.expiryMinutes * 60;
    var token := JwtSecurityToken(jwt.issuer, jwt.audience, claims, expires);
    AuthResponse(token, expires, user.email.GetOr(""), user.fullName)
  }

  /** Tokens for users with different ids carry different subjects. */
  lemma TokenSubjectIdentifiesUser(u1: AppUser, u2: AppUser, jwt: JwtSettings, t1: int, t2: int)
    ensures (ClaimValue(GeneretaToken(u1, jwt, t1).token.claims, SubClaim)
             == ClaimValue(GeneretaToken(u2, jwt, t2).token.claims, SubClaim)) <==> u1.id == u2.id
  {
  }

  /** The token never expires before it is issued unless the configured lifetime is negative. */
  lemma TokenExpiresAfterIssue(user: AppUser, jwt: JwtSettings, utcNow: int)
    ensures GeneretaToken(user, jwt, utcNow).expiresAt >= utcNow <==> jwt.expiryMinutes >= 0
  {
  }

  /** The user `Register` builds from the request; its password hash is set by `CreateAsync`. */
  function NewUser(dto: RegisterRequest, id: string, localNow: int): (u: AppUser)
    ensures u.userName == Some(dto.email) && u.email == Some(dto.email)
    ensures u.fullName == dto.fullName && u.id == id && u.createdAt == localNow
    ensures u.passwordHash.None?
  {
    AppUser(id, Some(dto.email), Some(dto.email), dto.fullName, localNow, None)
  }

  /** For a user built by `Register`, the name claim and the e-mail claim both carry the request's e-mail. */
  lemma RegisteredTokenNamesEmail(dto: RegisterRequest, id: string, localNow: int, jwt: JwtSettings, utcNow: int)
    ensures var claims := GeneretaToken(NewUser(dto, id, localNow), jwt, utcNow).token.claims;
      ClaimValue(claims, NameClaim) == ClaimValue(claims, EmailClaim) == Some(dto.email)
  {
  }

  // ---------------------------------------------------------------------------
  // The controller

  class AuthController {
    const userManager: UserManager
    /** `CheckPasswordSignInAsync` with lockout off: does this password sign this user in? */
    const checkPassword: (AppUser, string) -> bool
    const jwt: JwtSettings

    constructor(userManager: UserManager, checkPassword: (AppUser, string) -> bool, jwt: JwtSettings)
      ensures this.userManager == userManager && this.checkPassword == checkPassword && this.jwt == jwt
    {
      this.userManager := userManager;
      this.checkPassword := checkPassword;
      this.jwt := jwt;
    }

    /**
     * `POST api/auth/register`. A known e-mail is a conflict and nothing is
     * attempted; otherwise the user is created, a failed creation is a bad
     * request listing every error description in order, and success yields a
     * token for the new user.
     */
    method Register(dto: RegisterRequest, newId: string, salt: string, localNow: int, utcNow: int) returns (res: ActionResult)
      requires userManager.Valid()
      requires !userManager.IdInUse(newId)
      modifies userManager
      ensures userManager.Valid()
      ensures old(userManager.FindByEmail(dto.email)).Some? ==>
                res == Conflict(EmailTakenMessage) && userManager.users == old(userManager.users)
      ensures old(userManager.FindByEmail(dto.email)).None? ==>
                var user := NewUser(dto, newId, localNow);
                var pwErrors := userManager.passwordErrors(dto.password);
                var userErrors := old(userManager.UserErrors(user));
                && (pwErrors != [] ==>
                      res == BadRequest(Descriptions(pwErrors)) && userManager.users == old(userManager.users))
                && (pwErrors == [] && userErrors != [] ==>
                      res == BadRequest(Descriptions(userErrors)) && userManager.users == old(userManager.users))
                && (pwErrors == [] && userErrors == [] ==>
                      var stored := user.(passwordHash := Some(userManager.hashPassword(dto.password, salt)));
                      && res == Ok(GeneretaToken(stored, jwt, utcNow))
                      && userManager.users == old(userManager.users)[userManager.normalize(dto.email) := stored])
      ensures res.BadRequest? ==> userManager.users == old(userManager.users)
      ensures res.Ok? <==> userManager.users != old(userManager.users)
    {
      var exists_ := userManager.FindByEmail(dto.email);
      if exists_.Some? {
        return Conflict(EmailTakenMessage);
      }
      var user := NewUser(dto, newId, localNow);
      var result := userManager.Create(user, dto.password, salt);
      if !result.Succeeded() {
        return BadRequest(Descriptions(result.errors));
      }
      var stored := user.(passwordHash := Some(userManager.hashPassword(dto.password, salt)));
      assert userManager.users[userManager.normalize(dto.email)] == stored;
      return Ok(GeneretaToken(stored, jwt, utcNow));
    }

    /**
     * `POST api/auth/login`. An unknown e-mail and a wrong password are both
     * unauthorized, with different messages; the password is consulted only
     * for a known user. Nothing is modified.
     */
    method Login(dto: LoginRequest, utcNow: int) returns (res: ActionResult)
      ensures userManager.FindByEmail(dto.email).None? ==> res == Unauthorized(UserNotFoundMessage)
      ensures userManager.FindByEmail(dto.email).Some? ==>
                var user := userManager.FindByEmail(dto.email).value;
                && (!checkPassword(user, dto.password) ==> res == Unauthorized(WrongCredentialsMessage))
                && (checkPassword(user, dto.password) ==> res == Ok(GeneretaToken(user, jwt, utcNow)))
      ensures res.Ok? ==> res.response.email == userManager.FindByEmail(dto.email).value.email.GetOr("")
    {
      var user := userManager.FindByEmail(dto.email);
      if user.None? {
        return Unauthorized(UserNotFoundMessage);
      }
      var check := checkPassword(user.value, dto.password);
      if !check {
        return Unauthorized(WrongCredentialsMessage);
      }
      return Ok(GeneretaToken(user.value, jwt, utcNow));
    }
  }

  /**
   * After `Register` has found no user with the e-mail, the duplicate-name
   * rule of the user validator cannot fire: only an invalid-name error is
   * possible.
   */
  lemma DuplicateNameUnreachable(um: UserManager, dto: RegisterRequest, id: string, localNow: int)
    requires um.Valid() && um.FindByEmail(dto.email).None?
    ensures forall e :: e in um.UserErrors(NewUser(dto, id, localNow)) ==> e.code == "InvalidUserName"
  {
  }

  /** The two unauthorized answers of `Login` can be told apart by their message. */
  lemma LoginMessagesDiffer()
    ensures Unauthorized(UserNotFoundMessage) != Unauthorized(WrongCredentialsMessage)
  {
  }

  /**
   * Registering the same e-mail twice: the second call is a conflict, and the
   * two calls together add at most one user.
   */
  method RegisterSameEmailTwice(c: AuthController, dto: RegisterRequest, id1: string, id2: string,
                                salt1: string, salt2: string, localNow: int, utcNow: int)
      returns (first: ActionResult, second: ActionResult)
    requires c.userManager.Valid()
    requires !c.userManager.IdInUse(id1) && !c.userManager.IdInUse(id2) && id1 != id2
    modifies c.userManager
    ensures first.Ok? ==> second == Conflict(EmailTakenMessage)
    ensures old(c.userManager.FindByEmail(dto.email)).Some? ==> first.Conflict? && second.Conflict?
    ensures c.userManager.users.Keys <= old(c.userManager.users.Keys) + {c.userManager.normalize(dto.email)}
  {
    first := c.Register(dto, id1, salt1, localNow, utcNow);
    assert !c.userManager.IdInUse(id2) by {
      if first.Ok? {
        var key := c.userManager.normalize(dto.email);
        forall k | k in c.userManager.users
          ensures c.userManager.users[k].id != id2
        {
          if k != key {
            assert c.userManager.users[k] == old(c.userManager.users)[k];
          }
        }
      }
    }
    second := c.Register(dto, id2, salt2, localNow, utcNow);
  }
}
