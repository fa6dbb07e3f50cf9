/** Users (src/users): `UserService.create`, which refuses an empty password,
    replaces the password by its hash on the object it was given and inserts
    the user in one transaction, and `UserService.authenticate`, a lookup by
    email followed by a password check.  The password service is a pair of
    functions; bcrypt itself is not part of this model. */
module Users {
  import opened Values
  import opened Repository

  /** A stored user; `email` is unique. */
  datatype User = User(email: string, password: string, fullName: string, isActive: bool)

  /** The unique column of the users table. */
  function KeyOf(u: User): Option<string> { Some(u.email) }

  /** The password service: `hash(plain)` and `verify(plain, hashed)`. */
  datatype Hasher = Hasher(hash: string -> string, verify: (string, string) -> bool)

  /** What the password tests promise of the service: a password verifies
      against its own hash and no other password does. */
  ghost predicate Sound(h: Hasher) {
    && (forall p :: h.verify(p, h.hash(p)))
    && (forall p, q :: p != q ==> !h.verify(q, h.hash(p)))
  }

  /** The refusal of an empty password. */
  const NoPassword: Error := ValueError("Password must be provided")

  /** The message of `UserAlreadyExistsError`. */
  function AlreadyExistsMessage(email: string): string {
    "User with email " + email + " already exists."
  }

  /** The user object handed to `create`; `create` overwrites its password. */
  class NewUser {
    var email: string
    var password: string
    var fullName: string
    var isActive: bool

    constructor (email: string, password: string, fullName: string)
      ensures this.email == email && this.password == password && this.fullName == fullName && !isActive
    {
      this.email := email;
      this.password := password;
      this.fullName := fullName;
      isActive := false;
    }
  }

  /** `UserService.create(obj)`.  An empty password is refused before the
      transaction opens.  Otherwise the object's password becomes its hash,
      the user is inserted and, when the email is free, committed; a taken
      email is reported with that email and the transaction commits nothing.
      The object keeps its hashed password either way. */
  method CreateUser(table: Table<User, string>, obj: NewUser, h: Hasher) returns (r: Result<Row<User>, Error>)
    requires table.Valid() && table.Clean() && table.keyOf == KeyOf
    modifies table, obj
    ensures table.Valid() && table.Clean()
    ensures old(obj.password) == "" ==>
              && r == Err(NoPassword)
              && table.committed == old(table.committed) && table.nextId == old(table.nextId)
              && obj.password == old(obj.password)
    ensures obj.email == old(obj.email) && obj.fullName == old(obj.fullName) && obj.isActive == old(obj.isActive)
    ensures old(obj.password) != "" ==> obj.password == h.hash(old(obj.password))
    ensures old(obj.password) != "" && KeyTaken(old(table.rows), KeyOf, User(obj.email, obj.password, obj.fullName, obj.isActive)) ==>
              r == Err(AlreadyExists(AlreadyExistsMessage(obj.email))) && table.committed == old(table.committed)
    ensures old(obj.password) != "" && !KeyTaken(old(table.rows), KeyOf, User(obj.email, obj.password, obj.fullName, obj.isActive)) ==>
              && r == Ok(Row(old(table.nextId), User(obj.email, h.hash(old(obj.password)), obj.fullName, obj.isActive)))
              && table.committed == old(table.rows) + [r.value]
  {
    if obj.password == "" {
      return Err(NoPassword);
    }
    obj.password := h.hash(obj.password);
    var created := table.Create(User(obj.email, obj.password, obj.fullName, obj.isActive));
    if created.Err? {
      table.Rollback();
      return Err(AlreadyExists(AlreadyExistsMessage(obj.email)));
    }
    table.Commit();
    r := created;
  }

  /** `UserRepository.by_email(email)`: the first user with that email, or none. */
  function ByEmail(rows: seq<Row<User>>, email: string): (r: Option<Row<User>>)
    ensures r.None? <==> forall k :: 0 <= k < |rows| ==> rows[k].obj.email != email
    ensures r.Some? ==> r.value in rows && r.value.obj.email == email
  {
    var k := FirstIndex(rows, (u: User) => u.email == email);
    if k < |rows| then Some(rows[k]) else None
  }

  /** `UserService.authenticate(email, password)`: the user stored under the
      email when the password verifies against its hash; an unknown email and
      a wrong password get the same refusal. */
  function Authenticate(rows: seq<Row<User>>, email: string, password: string, h: Hasher): (r: Result<Row<User>, Error>)
    ensures r.Ok? <==> ByEmail(rows, email).Some? && h.verify(password, ByEmail(rows, email).value.obj.password)
    ensures r.Ok? ==> r.value in rows && r.value.obj.email == email
    ensures r.Err? ==> r.error == BadCredentials
  {
    match ByEmail(rows, email)
    case None => Err(BadCredentials)
    case Some(user) => if h.verify(password, user.obj.password) then Ok(user) else Err(BadCredentials)
  }

  /** A stored user whose password was hashed by a sound service
      authenticates with that password and with no other. */
  lemma AuthenticateStoredUser(rows: seq<Row<User>>, k: nat, plain: string, other: string, h: Hasher)
    requires Sound(h)
    requires KeysUnique(rows, KeyOf) && k < |rows|
    requires rows[k].obj.password == h.hash(plain)
    requires other != plain
    ensures Authenticate(rows, rows[k].obj.email, plain, h) == Ok(rows[k])
    ensures Authenticate(rows, rows[k].obj.email, other, h) == Err(BadCredentials)
  {
  }

  /** What `create` commits authenticates: with a sound password service, the
      new user logs in with the password it was created with, and not with
      any other. */
  lemma CreatedUserAuthenticates(rows: seq<Row<User>>, nextId: nat, u: User, plain: string, other: string, h: Hasher)
    requires Sound(h)
    requires KeysUnique(rows, KeyOf) && !KeyTaken(rows, KeyOf, u)
    requires u.password == h.hash(plain) && other != plain
    ensures Authenticate(rows + [Row(nextId, u)], u.email, plain, h) == Ok(Row(nextId, u))
    ensures Authenticate(rows + [Row(nextId, u)], u.email, other, h) == Err(BadCredentials)
  {
    var after := rows + [Row(nextId, u)];
    assert KeysUnique(after, KeyOf) by {
      forall i, j | 0 <= i < j < |after| && KeyOf(after[i].obj).Some?
        ensures KeyOf(after[i].obj) != KeyOf(after[j].obj)
      {
        if j == |rows| {
          assert after[i] == rows[i];
        } else {
          assert after[i] == rows[i] && after[j] == rows[j];
        }
      }
    }
    assert after[|rows|] == Row(nextId, u);
    AuthenticateStoredUser(after, |rows|, plain, other, h);
  }
}
