/**
 * The user directory of `AuthController`: an in-memory list of users with
 * `Register`, which appends a user whose username is new, and `Login`, which
 * looks a user up by username and password hash.
 *
 * The password hasher is a foreign library; it is modelled as a deterministic
 * function `hash` fixed when the directory is built, because `Login` compares
 * a freshly computed hash of the password with the stored one by equality.
 */
module Users {
  import opened Wrappers
  import opened Lists

  /** The role enumeration; an account's role decides what it may do with notes. */
  datatype Role = Admin | Editor | User

  /**
   * A registered account. `Register` never assigns `id`; it keeps whatever
   * the account record's initializer gives it, which the caller supplies.
   */
  datatype Account = Account(id: int, username: string, passwordHash: string, role: Role)

  /** Why `Login` or `Register` answered 400 Bad Request. */
  datatype AuthError = MissingCredentials | InvalidCredentials | DuplicateUsername

  /** .NET's `char.IsWhiteSpace`: the Unicode space, line and paragraph separators, tab to carriage return, and U+0085. */
  predicate IsWhiteSpace(c: char)
  {
    var k := c as int;
    (9 <= k <= 13) || k == 0x20 || k == 0x85 || k == 0xA0 || k == 0x1680 ||
    (0x2000 <= k <= 0x200A) || k == 0x2028 || k == 0x2029 || k == 0x202F ||
    k == 0x205F || k == 0x3000
  }

  /** `string.IsNullOrWhiteSpace` for a non-null string: empty or white space only. */
  predicate IsBlank(s: string)
  {
    forall i :: 0 <= i < |s| ==> IsWhiteSpace(s[i])
  }

  /** The predicate `users.Find(user => user.Username == name)` searches with. */
  function Named(name: string): Account -> bool
  {
    (u: Account) => u.username == name
  }

  /** The predicate of `Login`'s search: stored hash and username both match. */
  function Credentials(name: string, digest: string): Account -> bool
  {
    (u: Account) => u.passwordHash == digest && u.username == name
  }

  /** No two accounts share a username. */
  ghost predicate UniqueUsernames(users: seq<Account>)
  {
    forall i, j :: 0 <= i < j < |users| ==> users[i].username != users[j].username
  }

  /**
   * `users.Find(user => user.Username == name)`, as both controllers resolve
   * the caller: the first account with that username, or `None`.
   */
  function ResolveUser(users: seq<Account>, name: string): (r: Option<Account>)
    ensures r.None? <==> forall i :: 0 <= i < |users| ==> users[i].username != name
    ensures r.Some? ==> exists i :: IsFirst(users, i, Named(name)) && users[i] == r.value
    ensures r.Some? ==> r.value.username == name
  {
    match FindIndex(users, Named(name))
    case None => None
    case Some(i) => Some(users[i])
  }

  class UserDirectory {
    /** The registered accounts, in registration order. */
    var users: seq<Account>
    /** The password hasher, taken as deterministic. */
    const hash: string -> string

    ghost predicate Valid()
      reads this
    {
      UniqueUsernames(users)
    }

    constructor (hash: string -> string)
      ensures Valid()
      ensures users == [] && this.hash == hash
    {
      users := [];
      this.hash := hash;
    }

    /**
     * Registers `username` with the hash of `password` and `role`.
     * The guard tests the password twice, so a blank username gets through it.
     */
    method Register(username: string, password: string, role: Role, id: int) returns (r: Result<(), AuthError>)
      requires Valid()
      modifies this
      ensures Valid()
      ensures IsBlank(password) ==> r == Failure(MissingCredentials)
      ensures !IsBlank(password) ==>
                (r == Failure(DuplicateUsername) <==> exists i :: 0 <= i < |old(users)| && old(users)[i].username == username)
      ensures r.Success? <==> !IsBlank(password) && forall i :: 0 <= i < |old(users)| ==> old(users)[i].username != username
      ensures r.Failure? ==> users == old(users)
      ensures r.Success? ==> users == old(users) + [Account(id, username, hash(password), role)]
    {
      if IsBlank(password) || IsBlank(password) {
        return Failure(MissingCredentials);
      }
      var existing := FindIndex(users, Named(username));
      if existing.Some? {
        return Failure(DuplicateUsername);
      }
      var hashed := hash(password);
      users := users + [Account(id, username, hashed, role)];
      r := Success(());
    }

    /**
     * The account `Login` issues a token for: the first one whose stored hash
     * equals the hash of `password` and whose username is `username`.
     * Reads the directory and changes nothing.
     */
    function Login(username: string, password: string): (r: Result<Account, AuthError>)
      reads this
      ensures IsBlank(password) || IsBlank(username) ==> r == Failure(MissingCredentials)
      ensures !IsBlank(password) && !IsBlank(username) ==>
                (r.Success? <==> exists i :: 0 <= i < |users| && users[i].username == username && users[i].passwordHash == hash(password))
      ensures r.Success? ==> r.value in users && r.value.username == username && r.value.passwordHash == hash(password)
      ensures r.Failure? ==> r.error != DuplicateUsername
    {
      if IsBlank(password) || IsBlank(username) then
        Failure(MissingCredentials)
      else
        match FindIndex(users, Credentials(username, hash(password)))
        case None => Failure(InvalidCredentials)
        case Some(i) => Success(users[i])
    }
  }

  /** In a directory with unique usernames, logging in with a stored account's password returns that account. */
  lemma LoginReturnsStored(d: UserDirectory, i: nat, password: string)
    requires d.Valid() && i < |d.users|
    requires d.users[i].passwordHash == d.hash(password)
    requires !IsBlank(password) && !IsBlank(d.users[i].username)
    ensures d.Login(d.users[i].username, password) == Success(d.users[i])
  {
  }

  /** A password whose hash differs from the stored one does not log the account in. */
  lemma LoginRejectsOtherHash(d: UserDirectory, i: nat, password: string)
    requires d.Valid() && i < |d.users|
    requires d.hash(password) != d.users[i].passwordHash
    ensures d.Login(d.users[i].username, password).Failure?
  {
  }
}
