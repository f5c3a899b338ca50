/**
 * The user-account core of the Clicket server: the users document, the
 * `/register` handler and the `/login` handler.
 *
 * The users document (users.json) is a sequence of user records; a request
 * body field is `None` when it was not sent. The password-hashing library is
 * a `Hasher`: a pair of total functions (hash, verify) whose internals are
 * never inspected.
 */
module Accounts {

  datatype Option<T> = None | Some(value: T)

  /** A password digest as produced by the hashing library. */
  datatype Digest = Digest(text: string)

  /** The opaque hash/verify pair of the password-hashing library. */
  datatype Hasher = Hasher(hash: string -> Digest, verify: (string, Digest) -> bool)

  /** One stored user record; `password` holds the digest, never the plaintext. */
  datatype User = User(fullname: string, username: string, email: string, password: Digest)

  /** What a successful login reveals about the user. */
  datatype Profile = Profile(fullname: string, email: string)

  datatype Error = MissingField | DuplicateUsername | DuplicateEmail | InvalidCredentials

  /** The outcome a handler sends back: `Ok` is `{ success: true, ... }`. */
  datatype Outcome<T> = Ok(value: T) | Err(error: Error)

  /** A request body field, absent or a string. */
  type Field = Option<string>

  /** The two record fields the handlers look users up by. */
  datatype Key = Username | Email

  function KeyOf(u: User, k: Key): string {
    match k
    case Username => u.username
    case Email => u.email
  }

  /** JavaScript truthiness of a request field: absent and "" are falsy. */
  predicate Missing(f: Field) {
    f.None? || f.value == ""
  }

  predicate Stored(users: seq<User>, k: Key, v: string) {
    exists i :: 0 <= i < |users| && KeyOf(users[i], k) == v
  }

  /** No two records share the value of key `k`. */
  predicate Unique(users: seq<User>, k: Key) {
    forall i, j :: 0 <= i < j < |users| ==> KeyOf(users[i], k) != KeyOf(users[j], k)
  }

  /** The invariant registration keeps: usernames and emails are each pairwise distinct. */
  predicate Consistent(users: seq<User>) {
    Unique(users, Username) && Unique(users, Email)
  }

  /**
   * `users.find(u => u.<k> === v)`, as the index of the first record whose
   * key `k` is exactly `v`.
   */
  function FirstIndex(users: seq<User>, k: Key, v: string): (r: Option<nat>)
    ensures r.Some? ==> r.value < |users| && KeyOf(users[r.value], k) == v
    ensures r.Some? ==> forall j :: 0 <= j < r.value ==> KeyOf(users[j], k) != v
    ensures r.None? <==> !Stored(users, k, v)
  {
    if |users| == 0 then None
    else if KeyOf(users[0], k) == v then Some(0)
    else
      match FirstIndex(users[1..], k, v)
      case None => None
      case Some(i) => Some(i + 1)
  }

  /** The loop that `find` runs over the loaded array. */
  method FindFirst(users: seq<User>, k: Key, v: string) returns (r: Option<nat>)
    ensures r == FirstIndex(users, k, v)
  {
    var i := 0;
    while i < |users|
      invariant 0 <= i <= |users|
      invariant forall j :: 0 <= j < i ==> KeyOf(users[j], k) != v
    {
      if KeyOf(users[i], k) == v {
        return Some(i);
      }
      i := i + 1;
    }
    return None;
  }

  /** The outcome of one registration and the users document it leaves behind. */
  datatype Effect = Effect(outcome: Outcome<()>, users: seq<User>)

  /**
   * The `/register` handler as a function of the document it loads: the
   * falsy-field check, then the exact username check, then the exact email
   * check, and on success one appended record holding the password's digest.
   */
  function RegisterEffect(users: seq<User>, fullname: Field, username: Field, email: Field,
                          password: Field, h: Hasher): (e: Effect)
    ensures e.outcome == Err(MissingField) <==>
              Missing(fullname) || Missing(username) || Missing(email) || Missing(password)
    ensures e.outcome == Err(DuplicateUsername) <==>
              !Missing(fullname) && !Missing(username) && !Missing(email) && !Missing(password)
              && Stored(users, Username, username.value)
    ensures e.outcome == Err(DuplicateEmail) <==>
              !Missing(fullname) && !Missing(username) && !Missing(email) && !Missing(password)
              && !Stored(users, Username, username.value) && Stored(users, Email, email.value)
    ensures e.outcome != Err(InvalidCredentials)
    ensures e.outcome.Err? ==> e.users == users
    ensures e.outcome.Ok? ==>
              e.users == users + [User(fullname.value, username.value, email.value,
                                       h.hash(password.value))]
    ensures Consistent(users) ==> Consistent(e.users)
  {
    if Missing(fullname) || Missing(username) || Missing(email) || Missing(password) then
      Effect(Err(MissingField), users)
    else if FirstIndex(users, Username, username.value).Some? then
      Effect(Err(DuplicateUsername), users)
    else if FirstIndex(users, Email, email.value).Some? then
      Effect(Err(DuplicateEmail), users)
    else
      var u := User(fullname.value, username.value, email.value, h.hash(password.value));
      Effect(Ok(()), users + [u])
  }

  /**
   * The `/login` handler over the loaded document: the falsy-field check, the
   * first record with an exactly equal username, and the password checked
   * against that record's digest. An absent user and a wrong password give
   * the same outcome.
   */
  function Login(users: seq<User>, username: Field, password: Field, h: Hasher): (r: Outcome<Profile>)
    ensures Missing(username) || Missing(password) ==> r == Err(MissingField)
    ensures r == Err(MissingField) ==> Missing(username) || Missing(password)
    ensures r.Err? ==> r.error == MissingField || r.error == InvalidCredentials
    ensures (!Missing(username) && !Missing(password) && !Stored(users, Username, username.value))
              ==> r == Err(InvalidCredentials)
    ensures r.Ok? <==>
              !Missing(username) && !Missing(password) &&
              exists i :: 0 <= i < |users| && users[i].username == username.value
                && (forall j :: 0 <= j < i ==> users[j].username != username.value)
                && h.verify(password.value, users[i].password)
                && r == Ok(Profile(users[i].fullname, users[i].email))
  {
    if Missing(username) || Missing(password) then
      Err(MissingField)
    else
      match FirstIndex(users, Username, username.value)
      case None => Err(InvalidCredentials)
      case Some(i) =>
        if h.verify(password.value, users[i].password) then
          Ok(Profile(users[i].fullname, users[i].email))
        else
          Err(InvalidCredentials)
  }

  /**
   * The users.json file: `None` until the first successful registration
   * writes it.
   */
  class UserStore {
    var file: Option<seq<User>>

    constructor (file: Option<seq<User>>)
      ensures this.file == file
    {
      this.file := file;
    }

    /** readUsers: the stored array, or the empty array when there is no file. */
    function Users(): seq<User>
      reads this
    {
      if file.None? then [] else file.value
    }

    /**
     * The `/register` handler: loads the document, rejects falsy fields, an
     * existing username and then an existing email, and otherwise appends the
     * new record and writes the whole array back. Nothing is written on an error.
     */
    method Register(fullname: Field, username: Field, email: Field, password: Field, h: Hasher)
      returns (r: Outcome<()>)
      modifies this
      ensures r == RegisterEffect(old(Users()), fullname, username, email, password, h).outcome
      ensures Users() == RegisterEffect(old(Users()), fullname, username, email, password, h).users
      ensures r.Err? ==> file == old(file)
      ensures r.Ok? ==> file == Some(Users()) && Users()[..|old(Users())|] == old(Users())
      ensures old(Consistent(Users())) ==> Consistent(Users())
    {
      if Missing(fullname) || Missing(username) || Missing(email) || Missing(password) {
        return Err(MissingField);
      }
      var users := Users();
      var byName := FindFirst(users, Username, username.value);
      if byName.Some? {
        return Err(DuplicateUsername);
      }
      var byEmail := FindFirst(users, Email, email.value);
      if byEmail.Some? {
        return Err(DuplicateEmail);
      }
      var hashed := h.hash(password.value);
      users := users + [User(fullname.value, username.value, email.value, hashed)];
      file := Some(users);
      r := Ok(());
      assert users[..|old(Users())|] == old(Users());
    }
  }
}
