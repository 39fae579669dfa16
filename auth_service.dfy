/**
 * The authentication service: credential checks, login and identity
 * resolution over the user table, and registration, which writes a row.
 *
 * Password hashing and token signing are not modelled: `verify(plain, stored)`
 * stands for the hash comparison and `sign(payload)` for the JWT signer; both
 * are parameters the model knows nothing about.
 */
module Auth {
  import opened Wrappers
  import opened Repository

  datatype User = User(id: int, email: string, password: string)

  /** The claims put into an access token: the user id and nothing else. */
  datatype TokenPayload = TokenPayload(id: int)

  datatype LoginResponse = LoginResponse(accessToken: string, user: User)

  const UserExistsMessage := "User already exists"

  /** Email is a unique column of the user table. */
  predicate UniqueEmails(users: seq<User>) {
    forall j, k :: 0 <= j < |users| && 0 <= k < |users| && users[j].email == users[k].email ==> j == k
  }

  /** Id is the primary key, and every stored id was handed out before `nextId`. */
  predicate IdsBelow(users: seq<User>, nextId: int) {
    && (forall j, k :: 0 <= j < |users| && 0 <= k < |users| && users[j].id == users[k].id ==> j == k)
    && (forall k :: 0 <= k < |users| ==> users[k].id < nextId)
  }

  function FindByEmail(users: seq<User>, email: string): Option<User> {
    FindOneBy(users, (u: User) => u.email == email)
  }

  /**
   * Look the user up by email and compare the password with the stored one;
   * the user when both succeed, nothing otherwise.
   */
  function ValidateUserByEmailPassword(users: seq<User>, verify: (string, string) -> bool,
                                       email: string, password: string): (r: Option<User>)
    ensures r.Some? ==> r.value in users && r.value.email == email && verify(password, r.value.password)
    ensures UniqueEmails(users) ==>
      (r.Some? <==> exists k :: 0 <= k < |users| && users[k].email == email && verify(password, users[k].password))
  {
    match FindByEmail(users, email)
    case None => None
    case Some(user) => if verify(password, user.password) then Some(user) else None
  }

  /** Resolve the id carried by a token to its user, or fail with Unauthorized. */
  function ValidateUserById(users: seq<User>, userId: int): (r: Result<User, HttpError>)
    ensures r.Ok? <==> exists k :: 0 <= k < |users| && users[k].id == userId
    ensures r.Ok? ==> r.value in users && r.value.id == userId
    ensures r.Err? ==> r.error == Unauthorized
  {
    match FindOneBy(users, (u: User) => u.id == userId)
    case None => Err(Unauthorized)
    case Some(user) => Ok(user)
  }

  /**
   * Check the credentials; on success sign a token over the user's id and
   * return it with the user. Every failure is the same Unauthorized error.
   */
  function Login(users: seq<User>, verify: (string, string) -> bool, sign: TokenPayload -> string,
                 email: string, password: string): (r: Result<LoginResponse, HttpError>)
    ensures r.Err? <==> ValidateUserByEmailPassword(users, verify, email, password).None?
    ensures r.Err? ==> r.error == Unauthorized
    ensures r.Ok? ==> && r.value.user in users
                      && r.value.user.email == email
                      && verify(password, r.value.user.password)
                      && r.value.accessToken == sign(TokenPayload(r.value.user.id))
  {
    match ValidateUserByEmailPassword(users, verify, email, password)
    case None => Err(Unauthorized)
    case Some(user) => Ok(LoginResponse(sign(TokenPayload(user.id)), user))
  }

  /**
   * A caller cannot tell an unknown email from a wrong password: both give
   * exactly the same error.
   */
  lemma LoginFailuresAlike(users: seq<User>, verify: (string, string) -> bool, sign: TokenPayload -> string,
                           email: string, password: string)
    requires UniqueEmails(users)
    requires (forall k :: 0 <= k < |users| ==> users[k].email != email)
          || (exists k :: 0 <= k < |users| && users[k].email == email && !verify(password, users[k].password))
    ensures Login(users, verify, sign, email, password) == Err(Unauthorized)
  {
  }

  /** With a unique email, a user whose password verifies logs in as that very user, with a token over its id. */
  lemma LoginSucceeds(users: seq<User>, verify: (string, string) -> bool, sign: TokenPayload -> string,
                      password: string, user: User)
    requires UniqueEmails(users)
    requires user in users && verify(password, user.password)
    ensures Login(users, verify, sign, user.email, password) == Ok(LoginResponse(sign(TokenPayload(user.id)), user))
  {
    FindOneByUnique(users, (u: User) => u.email == user.email, user);
  }

  /**
   * The service with its user table. The table is written only by
   * `Register`; ids come from an auto-increment counter.
   */
  class AuthService {
    var users: seq<User>
    var nextId: int

    ghost predicate Valid()
      reads this
    {
      UniqueEmails(users) && IdsBelow(users, nextId)
    }

    constructor ()
      ensures Valid() && users == [] && nextId == 1
    {
      users := [];
      nextId := 1;
    }

    /**
     * Reject an email that is already taken; otherwise store the input as a
     * new row and return that row. No token is issued.
     */
    method Register(email: string, password: string) returns (r: Result<User, HttpError>)
      requires Valid()
      modifies this
      ensures Valid()
      ensures (exists k :: 0 <= k < |old(users)| && old(users)[k].email == email) ==>
        r == Err(BadRequest(UserExistsMessage)) && users == old(users) && nextId == old(nextId)
      ensures (forall k :: 0 <= k < |old(users)| ==> old(users)[k].email != email) ==>
        && r == Ok(User(old(nextId), email, password))
        && users == old(users) + [r.value]
        && nextId == old(nextId) + 1
    {
      var existing := FindByEmail(users, email);
      if existing.Some? {
        return Err(BadRequest(UserExistsMessage));
      }
      var user := User(nextId, email, password);
      users := users + [user];
      nextId := nextId + 1;
      r := Ok(user);
    }
  }

  /**
   * A freshly registered row is what its id resolves to, and every user
   * stored before still resolves to itself.
   */
  lemma RegisteredUserResolves(users: seq<User>, nextId: int, user: User)
    requires IdsBelow(users, nextId) && user.id == nextId
    ensures ValidateUserById(users + [user], user.id) == Ok(user)
    ensures forall k :: 0 <= k < |users| ==> ValidateUserById(users + [user], users[k].id) == Ok(users[k])
  {
    var table := users + [user];
    assert IdsBelow(table, nextId + 1) by {
      forall j, k | 0 <= j < |table| && 0 <= k < |table| && table[j].id == table[k].id ensures j == k {
        if j < |users| && k < |users| {
          assert users[j].id == users[k].id;
        }
      }
    }
    FindOneByUnique(table, (u: User) => u.id == user.id, user);
    forall k | 0 <= k < |users| ensures ValidateUserById(table, users[k].id) == Ok(users[k]) {
      assert table[k] == users[k];
      FindOneByUnique(table, (u: User) => u.id == users[k].id, users[k]);
    }
  }

  /** After a successful registration the new user can log in with any password that verifies against the stored one. */
  lemma RegisteredUserCanLogIn(users: seq<User>, verify: (string, string) -> bool, sign: TokenPayload -> string,
                               password: string, user: User)
    requires UniqueEmails(users)
    requires forall k :: 0 <= k < |users| ==> users[k].email != user.email
    requires verify(password, user.password)
    ensures Login(users + [user], verify, sign, user.email, password) == Ok(LoginResponse(sign(TokenPayload(user.id)), user))
  {
    var table := users + [user];
    assert UniqueEmails(table) by {
      forall j, k | 0 <= j < |table| && 0 <= k < |table| && table[j].email == table[k].email ensures j == k {
        if j < |users| && k < |users| {
          assert users[j].email == users[k].email;
        }
      }
    }
    LoginSucceeds(table, verify, sign, password, user);
  }
}
