/** AuthService (src/main/java/com/ctoon/services/AuthService.java): account
    registration and login over the users and profiles tables. Password
    hashing and checking are parameters (`hash`, `verify`); the JWT issued on
    success is represented by the id of the user it is issued for. */
module AuthService {
  import opened Text
  import opened Seqs

  /** An AuthRequest; a null field is None. */
  datatype Request = Request(name: Option<string>, email: Option<string>, password: Option<string>,
                             passwordConfirmation: Option<string>)

  datatype User = User(id: nat, name: Option<string>, email: string, password: string)

  datatype Profile = Profile(userId: nat)

  /** An AuthResponse; `userId` stands for the token and the UserDTO. */
  datatype Response = Response(success: bool, message: string, userId: Option<nat>)

  function Failure(message: string): Response { Response(false, message, None) }

  const EmailRequired := "Email is required"
  const PasswordTooShort := "Password must be at least 8 characters"
  const PasswordsDiffer := "Passwords do not match"
  const EmailTaken := "Email already registered"
  const PasswordRequired := "Password is required"
  const InvalidCredentials := "Invalid email or password"

  /** `x == null || x.isEmpty()`. */
  predicate Blank(x: Option<string>) { x.None? || x.value == "" }

  /** The users whose email is `email` (the JPQL `WHERE u.email = :email`). */
  function WithEmail(users: seq<User>, email: string): seq<User>
  {
    Filter(users, (u: User) => u.email == email)
  }

  ghost predicate UniqueEmails(users: seq<User>)
  {
    forall i, j :: 0 <= i < j < |users| ==> users[i].email != users[j].email
  }

  /** Ids are positions plus one and every profile belongs to a user. */
  ghost predicate Linked(users: seq<User>, profiles: seq<Profile>)
  {
    (forall i :: 0 <= i < |users| ==> users[i].id == i + 1) &&
    (forall k :: 0 <= k < |profiles| ==> 1 <= profiles[k].userId <= |users|)
  }

  // ---------------------------------------------------------------- register

  /** The first validation that fails, in the order register() checks them. */
  function RegisterError(users: seq<User>, req: Request): Option<string>
  {
    if Blank(req.email) then Some(EmailRequired)
    else if req.password.None? || |req.password.value| < 8 then Some(PasswordTooShort)
    else if req.passwordConfirmation != req.password then Some(PasswordsDiffer)
    else if |WithEmail(users, req.email.value)| > 0 then Some(EmailTaken)
    else None
  }

  /** register(): the response and the two tables afterwards. */
  function Registration(users: seq<User>, profiles: seq<Profile>, req: Request, hash: string -> string)
    : (Response, seq<User>, seq<Profile>)
  {
    match RegisterError(users, req)
    case Some(message) => (Failure(message), users, profiles)
    case None =>
      var id := |users| + 1;
      (Response(true, "Registration successful", Some(id)),
       users + [User(id, req.name, req.email.value, hash(req.password.value))],
       profiles + [Profile(id)])
  }

  // ---------------------------------------------------------------- login

  /** login(): `getSingleResult` throws unless exactly one user has the email,
      and the handler turns that into the same message as a wrong password. */
  function LoginResult(users: seq<User>, req: Request, verify: (string, string) -> bool): Response
  {
    if Blank(req.email) then Failure(EmailRequired)
    else if Blank(req.password) then Failure(PasswordRequired)
    else
      var found := WithEmail(users, req.email.value);
      if |found| != 1 then Failure(InvalidCredentials)
      else if !verify(req.password.value, found[0].password) then Failure(InvalidCredentials)
      else Response(true, "Login successful", Some(found[0].id))
  }

  // ---------------------------------------------------------------- properties

  lemma {:induction false} WithEmailNone(users: seq<User>, email: string)
    requires forall i :: 0 <= i < |users| ==> users[i].email != email
    ensures WithEmail(users, email) == []
    decreases |users|
  {
    if users != [] {
      var init := users[..|users| - 1];
      assert users == init + [users[|users| - 1]];
      WithEmailNone(init, email);
    }
  }

  lemma {:induction false} WithEmailUnique(users: seq<User>, k: nat)
    requires k < |users| && UniqueEmails(users)
    ensures WithEmail(users, users[k].email) == [users[k]]
    decreases |users|
  {
    var email := users[k].email;
    var p := (u: User) => u.email == email;
    var init := users[..|users| - 1];
    assert users == init + [users[|users| - 1]];
    if k == |users| - 1 {
      WithEmailNone(init, email);
    } else {
      WithEmailUnique(init, k);
    }
  }

  /** The checks run in order and the first failure is reported: each message
      is returned exactly when its check fails and the earlier ones pass. */
  lemma RegisterCascade(users: seq<User>, profiles: seq<Profile>, req: Request, hash: string -> string)
    ensures var r := Registration(users, profiles, req, hash).0;
      (r == Failure(EmailRequired) <==> Blank(req.email)) &&
      (r == Failure(PasswordTooShort) <==>
         !Blank(req.email) && (req.password.None? || |req.password.value| < 8)) &&
      (r == Failure(PasswordsDiffer) <==>
         !Blank(req.email) && req.password.Some? && |req.password.value| >= 8 && req.passwordConfirmation != req.password) &&
      (r == Failure(EmailTaken) <==>
         !Blank(req.email) && req.password.Some? && |req.password.value| >= 8 && req.passwordConfirmation == req.password &&
         exists i :: 0 <= i < |users| && users[i].email == req.email.value) &&
      (r.success <==> RegisterError(users, req).None?)
  {
    if !Blank(req.email) {
      var email := req.email.value;
      if exists i :: 0 <= i < |users| && users[i].email == email {
        var i :| 0 <= i < |users| && users[i].email == email;
        assert users[i] in WithEmail(users, email);
      } else {
        WithEmailNone(users, email);
      }
    }
  }

  /** A password of exactly eight characters passes the length check. */
  lemma EightCharactersSuffice(users: seq<User>, req: Request)
    requires !Blank(req.email) && req.password.Some? && |req.password.value| == 8
    ensures RegisterError(users, req) != Some(PasswordTooShort)
  {
  }

  /** A failed registration writes nothing; a successful one adds exactly one
      user with the request's email and the hashed password, and one profile
      linked to it, and keeps emails unique. */
  lemma RegisterEffect(users: seq<User>, profiles: seq<Profile>, req: Request, hash: string -> string)
    requires UniqueEmails(users) && Linked(users, profiles)
    ensures var (r, users', profiles') := Registration(users, profiles, req, hash);
      (!r.success ==> users' == users && profiles' == profiles) &&
      (r.success ==> (req.email.Some? && req.password.Some? &&
         users' == users + [User(|users| + 1, req.name, req.email.value, hash(req.password.value))] &&
         profiles' == profiles + [Profile(|users| + 1)] && r.userId == Some(|users| + 1))) &&
      UniqueEmails(users') && Linked(users', profiles')
  {
    if RegisterError(users, req).None? {
      var email := req.email.value;
      forall i | 0 <= i < |users| ensures users[i].email != email {
        assert users[i] in users;
      }
    }
  }

  /** login() writes nothing, checks the email before the password, and gives
      the same answer for an unknown email as for a wrong password. */
  lemma LoginHidesUnknownEmail(users: seq<User>, req: Request, verify: (string, string) -> bool)
    requires UniqueEmails(users)
    requires !Blank(req.email) && !Blank(req.password)
    ensures (forall i :: 0 <= i < |users| ==> users[i].email != req.email.value) ==>
      LoginResult(users, req, verify) == Failure(InvalidCredentials)
    ensures forall i :: 0 <= i < |users| && users[i].email == req.email.value ==>
      (LoginResult(users, req, verify).success <==> verify(req.password.value, users[i].password)) &&
      (!verify(req.password.value, users[i].password) ==> LoginResult(users, req, verify) == Failure(InvalidCredentials))
  {
    if forall i :: 0 <= i < |users| ==> users[i].email != req.email.value {
      WithEmailNone(users, req.email.value);
    }
    forall i | 0 <= i < |users| && users[i].email == req.email.value
      ensures LoginResult(users, req, verify).success <==> verify(req.password.value, users[i].password)
    {
      WithEmailUnique(users, i);
    }
  }

  /** Whoever registered can log in with the same email and password, when
      the password check accepts the hash it was given. */
  lemma RegisterThenLogin(users: seq<User>, profiles: seq<Profile>, req: Request, hash: string -> string,
                          verify: (string, string) -> bool)
    requires UniqueEmails(users) && Linked(users, profiles)
    requires Registration(users, profiles, req, hash).0.success
    requires verify(req.password.value, hash(req.password.value))
    ensures LoginResult(Registration(users, profiles, req, hash).1, req, verify) == Response(true, "Login successful", Some(|users| + 1))
  {
    RegisterEffect(users, profiles, req, hash);
    var users' := Registration(users, profiles, req, hash).1;
    WithEmailUnique(users', |users|);
  }

  // ---------------------------------------------------------------- the service

  class AuthStore {
    var users: seq<User>
    var profiles: seq<Profile>

    ghost predicate Valid()
      reads this
    {
      UniqueEmails(users) && Linked(users, profiles)
    }

    constructor()
      ensures users == [] && profiles == [] && Valid()
    {
      users := [];
      profiles := [];
    }

    /** register(): validation, the email-count query, then two persists. */
    method Register(req: Request, hash: string -> string) returns (response: Response)
      requires Valid()
      modifies this
      ensures Valid()
      ensures (response, users, profiles) == Registration(old(users), old(profiles), req, hash)
    {
      RegisterEffect(users, profiles, req, hash);
      if Blank(req.email) {
        return Failure(EmailRequired);
      }
      if req.password.None? || |req.password.value| < 8 {
        return Failure(PasswordTooShort);
      }
      if req.passwordConfirmation != req.password {
        return Failure(PasswordsDiffer);
      }
      var count := |WithEmail(users, req.email.value)|;
      if count > 0 {
        return Failure(EmailTaken);
      }
      var user := User(|users| + 1, req.name, req.email.value, hash(req.password.value));
      users := users + [user];
      profiles := profiles + [Profile(user.id)];
      response := Response(true, "Registration successful", Some(user.id));
    }

    /** login(): reads the users table only. */
    method Login(req: Request, verify: (string, string) -> bool) returns (response: Response)
      ensures response == LoginResult(users, req, verify)
    {
      if Blank(req.email) {
        return Failure(EmailRequired);
      }
      if Blank(req.password) {
        return Failure(PasswordRequired);
      }
      var found := WithEmail(users, req.email.value);
      if |found| != 1 {
        // getSingleResult threw; the catch answers like a wrong password
        return Failure(InvalidCredentials);
      }
      if !verify(req.password.value, found[0].password) {
        return Failure(InvalidCredentials);
      }
      response := Response(true, "Login successful", Some(found[0].id));
    }
  }
}
