/**
 * The slice of ASP.NET Core Identity that `AuthController` relies on: the
 * application user record and a user store with `FindByEmailAsync` and
 * `CreateAsync(user, password)`.
 *
 * The store is a map from the normalised e-mail address to the user. Every
 * user the controller creates has its user name equal to its e-mail, so the
 * same key is also the normalised user name; `Valid()` states this.
 * Normalisation, password hashing and the configured validators are library
 * code and enter as function-valued constants.
 */
module Identity {
  import opened Wrappers
  import opened TextChars

  /**
   * `AppUser`: `IdentityUser` plus `FullName` and `CreatedAt`. Instants are
   * integer seconds; `createdAt` comes from the local clock.
   */
  datatype AppUser = AppUser(
    id: string,
    userName: Option<string>,
    email: Option<string>,
    fullName: Option<string>,
    createdAt: int,
    passwordHash: Option<string>)

  datatype IdentityError = IdentityError(code: string, description: string)

  datatype IdentityResult = Success | Failed(errors: seq<IdentityError>)
  {
    predicate Succeeded() {
      Success?
    }
  }

  function DuplicateUserNameError(userName: string): IdentityError {
    IdentityError("DuplicateUserName", "Username '" + userName + "' is already taken.")
  }

  function InvalidUserNameError(userName: string): IdentityError {
    IdentityError("InvalidUserName", "Username '" + userName + "' is invalid, can only contain letters or digits.")
  }

  class UserManager {
    /** The persisted users, keyed by normalised e-mail (and user name). */
    var users: map<string, AppUser>

    /** The lookup normaliser applied to e-mails and user names. */
    const normalize: string -> string
    /**
     * The password hasher, applied to the password and the random salt that
     * `PasswordHasher` draws for each call; only the hash is ever stored.
     */
    const hashPassword: (string, string) -> string
    /** The configured password validators' errors, in order; none means the password is accepted. */
    const passwordErrors: string -> seq<IdentityError>
    /** The configured rule on the characters of a user name. */
    const allowedUserName: string -> bool

    constructor(normalize: string -> string, hashPassword: (string, string) -> string,
                passwordErrors: string -> seq<IdentityError>, allowedUserName: string -> bool)
      ensures users == map[]
      ensures this.normalize == normalize && this.hashPassword == hashPassword
      ensures this.passwordErrors == passwordErrors && this.allowedUserName == allowedUserName
      ensures Valid()
    {
      users := map[];
      this.normalize := normalize;
      this.hashPassword := hashPassword;
      this.passwordErrors := passwordErrors;
      this.allowedUserName := allowedUserName;
    }

    /**
     * Every stored user has an e-mail, a user name equal to it and a password
     * hash, sits under the normalised e-mail, and no two users share an id.
     */
    ghost predicate Valid()
      reads this
    {
      && (forall k :: k in users ==>
            && users[k].email.Some?
            && users[k].userName == users[k].email
            && users[k].passwordHash.Some?
            && normalize(users[k].email.value) == k)
      && (forall k1, k2 :: k1 in users && k2 in users && k1 != k2 ==> users[k1].id != users[k2].id)
    }

    ghost predicate IdInUse(id: string)
      reads this
    {
      exists k :: k in users && users[k].id == id
    }

    /** `FindByEmailAsync`: the user whose normalised e-mail matches, if any. */
    function FindByEmail(email: string): (r: Option<AppUser>)
      reads this
      ensures r.Some? <==> normalize(email) in users
      ensures r.Some? ==> r.value in users.Values
      ensures Valid() && r.Some? ==> normalize(r.value.email.value) == normalize(email)
    {
      if normalize(email) in users then Some(users[normalize(email)]) else None
    }

    /** `FindByNameAsync`: the user whose normalised user name matches, if any. */
    function FindByName(userName: string): (r: Option<AppUser>)
      reads this
      ensures r.Some? <==> normalize(userName) in users
    {
      if normalize(userName) in users then Some(users[normalize(userName)]) else None
    }

    /**
     * The user validator: an empty, blank or disallowed name is invalid;
     * otherwise a different user owning the same name is a duplicate.
     */
    function UserErrors(user: AppUser): (errs: seq<IdentityError>)
      reads this
      ensures |errs| <= 1
      ensures errs == [] <==>
                && user.userName.Some?
                && !IsEmptyOrWhiteSpace(user.userName.value)
                && allowedUserName(user.userName.value)
                && (FindByName(user.userName.value).Some? ==> FindByName(user.userName.value).value.id == user.id)
    {
      match user.userName
      case None => [InvalidUserNameError("")]
      case Some(name) =>
        if IsEmptyOrWhiteSpace(name) || !allowedUserName(name) then [InvalidUserNameError(name)]
        else match FindByName(name)
          case Some(owner) => if owner.id != user.id then [DuplicateUserNameError(name)] else []
          case None => []
    }

    /**
     * `CreateAsync(user, password)`: the password validators run first and
     * their errors end the call; then the user validator; only if both pass is
     * the user stored, with the password's hash and never the password.
     * `salt` is the hasher's fresh random salt for this call.
     */
    method Create(user: AppUser, password: string, salt: string) returns (result: IdentityResult)
      requires Valid()
      requires user.email.Some? && user.userName == user.email
      requires !IdInUse(user.id)
      modifies this
      ensures Valid()
      ensures passwordErrors(password) != [] ==>
                result == Failed(passwordErrors(password)) && users == old(users)
      ensures passwordErrors(password) == [] && old(UserErrors(user)) != [] ==>
                result == Failed(old(UserErrors(user))) && users == old(users)
      ensures passwordErrors(password) == [] && old(UserErrors(user)) == [] ==>
                && result == Success
                && normalize(user.email.value) !in old(users)
                && users == old(users)[normalize(user.email.value) := user.(passwordHash := Some(hashPassword(password, salt)))]
      ensures result.Succeeded() <==> passwordErrors(password) == [] && old(UserErrors(user)) == []
    {
      var pwErrors := passwordErrors(password);
      if pwErrors != [] {
        return Failed(pwErrors);
      }
      var userErrors := UserErrors(user);
      if userErrors != [] {
        return Failed(userErrors);
      }
      var key := normalize(user.email.value);
      var stored := user.(passwordHash := Some(hashPassword(password, salt)));
      assert key !in users;
      users := users[key := stored];
      assert Valid() by {
        forall k1, k2 | k1 in users && k2 in users && k1 != k2
          ensures users[k1].id != users[k2].id
        {
          if k1 != key && k2 != key {
            assert users[k1] == old(users)[k1] && users[k2] == old(users)[k2];
          } else if k1 == key {
            assert users[k2] == old(users)[k2];
          } else {
            assert users[k1] == old(users)[k1];
          }
        }
      }
      return Success;
    }
  }
}
