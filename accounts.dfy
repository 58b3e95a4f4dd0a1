/**
 * Registration and login (the auth controller and the GraphQL user resolvers). The password
 * comparison and the token codec are parameters: `passwordOk(candidate, secret)` stands for the
 * stored-hash comparison and `issue(claims)` for signing and encrypting a token.
 */
module Accounts {
  import opened Wrappers
  import opened Constants

  type UserId = nat

  /** A stored user; `secret` is what the password comparison checks a candidate against. */
  datatype User = User(id: UserId, name: string, email: string, secret: string, role: Role, isActive: bool)

  /** The payload a token carries: `{ userId, role }`. */
  datatype Claims = Claims(userId: int, role: Role)

  /** Why an account operation rejects. */
  datatype AuthError =
    | EmailTaken
    | MissingCredentials
    | InvalidCredentials

  /** The user together with the token issued for it. */
  datatype Session = Session(user: User, token: string)

  /** `User.findOne({ email })`: the first user holding that email. */
  function FindByEmail(users: seq<User>, email: string): (r: Option<User>)
    ensures r.Some? ==> r.value in users && r.value.email == email
    ensures r.None? <==> forall i :: 0 <= i < |users| ==> users[i].email != email
  {
    if users == [] then None
    else if users[0].email == email then Some(users[0])
    else FindByEmail(users[1..], email)
  }

  /** `User.findById(id)`. */
  function FindById(users: seq<User>, id: int): (r: Option<User>)
    ensures r.Some? ==> r.value in users && r.value.id == id
    ensures r.None? <==> forall i :: 0 <= i < |users| ==> users[i].id != id
  {
    if users == [] then None
    else if users[0].id == id then Some(users[0])
    else FindById(users[1..], id)
  }

  /** Users are identified by their position, so ids are unique and new ids are fresh. */
  ghost predicate Indexed(users: seq<User>)
  {
    forall i :: 0 <= i < |users| ==> users[i].id == i
  }

  /** No two users share an email (the unique index on the email path). */
  ghost predicate UniqueEmails(users: seq<User>)
  {
    forall i, j :: 0 <= i < j < |users| ==> users[i].email != users[j].email
  }

  /** In an indexed collection the lookup by id is the user at that position. */
  lemma {:induction false} FindByIdIndexed(users: seq<User>, id: int)
    requires Indexed(users)
    ensures FindById(users, id) == if 0 <= id < |users| then Some(users[id]) else None
  {
    if 0 <= id < |users| {
      var r := FindById(users, id);
      assert users[id].id == id;
      var k :| 0 <= k < |users| && users[k] == r.value;
    }
  }

  /** With unique emails the lookup by email finds the one user holding it. */
  lemma FindByEmailUnique(users: seq<User>, i: nat)
    requires UniqueEmails(users) && i < |users|
    ensures FindByEmail(users, users[i].email) == Some(users[i])
  {
    forall k | 0 <= k < |users| && k != i ensures users[k].email != users[i].email {
      if k < i { assert users[k].email != users[i].email; } else { assert users[i].email != users[k].email; }
    }
    var r := FindByEmail(users, users[i].email);
    var k :| 0 <= k < |users| && users[k] == r.value;
  }

  /** A lookup in a collection grown at the end finds what it found before, or else looks at the new user. */
  lemma {:induction false} FindByEmailAppend(users: seq<User>, u: User, email: string)
    ensures FindByEmail(users + [u], email) ==
      if FindByEmail(users, email).Some? then FindByEmail(users, email)
      else if u.email == email then Some(u) else None
  {
    if users == [] {
      assert users + [u] == [u];
    } else {
      assert (users + [u])[1..] == users[1..] + [u];
      FindByEmailAppend(users[1..], u, email);
    }
  }

  /** The session issued for a user: the token carries that user's id and stored role. */
  function SessionFor(u: User, issue: Claims -> string): (s: Session)
    ensures s.user == u && s.token == issue(Claims(u.id, u.role))
  {
    Session(u, issue(Claims(u.id, u.role)))
  }

  /**
   * `login` as the GraphQL resolver runs it: look the email up, refuse an absent or inactive
   * user, and only then compare the password. Every refusal is the same `InvalidCredentials`.
   */
  function Login(users: seq<User>, email: string, password: string,
                 passwordOk: (string, string) -> bool, issue: Claims -> string): (r: Result<Session, AuthError>)
    ensures r.Err? ==> r.error == InvalidCredentials
    ensures r.Ok? <==> exists u :: FindByEmail(users, email) == Some(u) && u.isActive && passwordOk(password, u.secret)
    ensures r.Ok? ==> FindByEmail(users, email) == Some(r.value.user)
    ensures r.Ok? ==> r.value.user in users && r.value.user.email == email && r.value.user.isActive
    ensures r.Ok? ==> r.value.token == issue(Claims(r.value.user.id, r.value.user.role))
  {
    var found := FindByEmail(users, email);
    if found.None? || !found.value.isActive then Err(InvalidCredentials)
    else if !passwordOk(password, found.value.secret) then Err(InvalidCredentials)
    else Ok(SessionFor(found.value, issue))
  }

  /** The active check comes before the password comparison: for an inactive user the comparison's answer is irrelevant. */
  lemma InactiveNeverReachesPassword(users: seq<User>, email: string, password: string,
                                     ok1: (string, string) -> bool, ok2: (string, string) -> bool, issue: Claims -> string)
    requires FindByEmail(users, email).Some? && !FindByEmail(users, email).value.isActive
    ensures Login(users, email, password, ok1, issue) == Login(users, email, password, ok2, issue) == Err(InvalidCredentials)
  {
  }

  /** An unknown email, an inactive user and a wrong password are indistinguishable to the caller. */
  lemma RefusalsCollapse(users: seq<User>, email: string, password: string,
                         passwordOk: (string, string) -> bool, issue: Claims -> string)
    requires
      || FindByEmail(users, email).None?
      || !FindByEmail(users, email).value.isActive
      || !passwordOk(password, FindByEmail(users, email).value.secret)
    ensures Login(users, email, password, passwordOk, issue) == Err(InvalidCredentials)
  {
  }

  /** The GraphQL login has no empty-field check: an empty email is just a lookup that fails. */
  lemma EmptyEmailFailsLookup(users: seq<User>, password: string,
                              passwordOk: (string, string) -> bool, issue: Claims -> string)
    requires forall i :: 0 <= i < |users| ==> users[i].email != ""
    ensures Login(users, "", password, passwordOk, issue) == Err(InvalidCredentials)
  {
  }

  /** JavaScript truthiness of a request-body string: absent or empty is falsy. */
  predicate Present(v: Option<string>)
  {
    v.Some? && v.value != ""
  }

  /** `login` as the REST controller runs it: a missing or empty email or password is refused before any lookup. */
  function RestLogin(users: seq<User>, email: Option<string>, password: Option<string>,
                     passwordOk: (string, string) -> bool, issue: Claims -> string): (r: Result<Session, AuthError>)
    ensures r == Err(MissingCredentials) <==> !Present(email) || !Present(password)
    ensures Present(email) && Present(password) ==> r == Login(users, email.value, password.value, passwordOk, issue)
  {
    if !Present(email) || !Present(password) then Err(MissingCredentials)
    else Login(users, email.value, password.value, passwordOk, issue)
  }

  /** The REST field check looks at nothing stored: with a missing field every user collection gives the same answer. */
  lemma MissingFieldsBeforeLookup(users1: seq<User>, users2: seq<User>, email: Option<string>, password: Option<string>,
                                  passwordOk: (string, string) -> bool, issue: Claims -> string)
    requires !Present(email) || !Present(password)
    ensures RestLogin(users1, email, password, passwordOk, issue) == RestLogin(users2, email, password, passwordOk, issue)
  {
  }

  /** The user `register` creates: the next id, the caller's fields and role, active. */
  function NewUser(id: UserId, name: string, email: string, password: string, role: Role): (u: User)
    ensures u.id == id && u.email == email && u.role == role && u.isActive && u.secret == password && u.name == name
  {
    User(id, name, email, password, role, true)
  }

  /** Registering and then logging in with the same email and password yields the registered user, when the comparison accepts the password. */
  lemma RegisterThenLogin(users: seq<User>, name: string, email: string, password: string, role: Role,
                          passwordOk: (string, string) -> bool, issue: Claims -> string)
    requires FindByEmail(users, email).None? && passwordOk(password, password)
    ensures var u := NewUser(|users|, name, email, password, role);
      Login(users + [u], email, password, passwordOk, issue) == Ok(SessionFor(u, issue))
  {
    var u := NewUser(|users|, name, email, password, role);
    FindByEmailAppend(users, u, email);
  }

  /** The user collection, grown by registration. */
  class UserStore {
    var users: seq<User>

    /** Users are indexed by id and no two share an email. */
    ghost predicate Valid()
      reads this
    {
      Indexed(users) && UniqueEmails(users)
    }

    constructor ()
      ensures Valid() && users == []
    {
      users := [];
    }

    /**
     * `register` (REST and GraphQL alike): a taken email creates nothing; otherwise the user is
     * stored with the caller's role and a token with its id and stored role is issued.
     */
    method Register(name: string, email: string, password: string, role: Role, issue: Claims -> string)
      returns (r: Result<Session, AuthError>)
      requires Valid()
      modifies this
      ensures Valid()
      ensures FindByEmail(old(users), email).Some? ==> r == Err(EmailTaken) && users == old(users)
      ensures FindByEmail(old(users), email).None? ==>
        var u := NewUser(|old(users)|, name, email, password, role);
        users == old(users) + [u] && r == Ok(SessionFor(u, issue))
    {
      var existing := FindByEmail(users, email);
      if existing.Some? {
        return Err(EmailTaken);
      }
      var u := NewUser(|users|, name, email, password, role);
      users := users + [u];
      r := Ok(SessionFor(u, issue));
    }
  }
}
