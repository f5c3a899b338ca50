/**
 * Properties that relate several register and login calls on the users
 * document.
 */
module AccountProperties {
  import opened Accounts

  /** The first matching index is the only index with no match before it. */
  lemma FirstIndexIs(users: seq<User>, k: Key, v: string, m: nat)
    requires m < |users| && KeyOf(users[m], k) == v
    requires forall j :: 0 <= j < m ==> KeyOf(users[j], k) != v
    ensures FirstIndex(users, k, v) == Some(m)
  {
  }

  /** `find` on a document with one record appended. */
  lemma FirstIndexAppend(users: seq<User>, u: User, k: Key, v: string)
    ensures FirstIndex(users + [u], k, v) ==
              if Stored(users, k, v) then FirstIndex(users, k, v)
              else if KeyOf(u, k) == v then Some(|users|)
              else None
  {
    var s := users + [u];
    if Stored(users, k, v) {
      var m := FirstIndex(users, k, v).value;
      forall j | 0 <= j < m ensures KeyOf(s[j], k) != v {
        assert s[j] == users[j];
      }
      assert s[m] == users[m];
      FirstIndexIs(s, k, v, m);
    } else {
      forall j | 0 <= j < |users| ensures KeyOf(s[j], k) != v {
        assert s[j] == users[j];
      }
      assert s[|users|] == u;
      if KeyOf(u, k) == v {
        FirstIndexIs(s, k, v, |users|);
      } else {
        assert !Stored(s, k, v);
      }
    }
  }

  /**
   * A user who has just registered can log in with the same username and
   * password, and sees the fullname and email given at registration, provided
   * the hashing library verifies a password against its own digest.
   */
  lemma RegisterThenLogin(users: seq<User>, fullname: Field, username: Field, email: Field,
                          password: Field, h: Hasher)
    requires RegisterEffect(users, fullname, username, email, password, h).outcome.Ok?
    requires h.verify(password.value, h.hash(password.value))
    ensures Login(RegisterEffect(users, fullname, username, email, password, h).users,
                  username, password, h)
            == Ok(Profile(fullname.value, email.value))
  {
    var u := User(fullname.value, username.value, email.value, h.hash(password.value));
    FirstIndexAppend(users, u, Username, username.value);
    assert (users + [u])[|users|] == u;
  }

  /**
   * A registration, successful or not, does not change the outcome of a login
   * under any username other than the one being registered.
   */
  lemma RegisterKeepsOtherLogins(users: seq<User>, fullname: Field, username: Field, email: Field,
                                 password: Field, h: Hasher, name: Field, secret: Field)
    requires Missing(name) || Missing(username) || name.value != username.value
    ensures Login(RegisterEffect(users, fullname, username, email, password, h).users,
                  name, secret, h)
            == Login(users, name, secret, h)
  {
    var e := RegisterEffect(users, fullname, username, email, password, h);
    if e.outcome.Ok? && !Missing(name) {
      var u := User(fullname.value, username.value, email.value, h.hash(password.value));
      FirstIndexAppend(users, u, Username, name.value);
      if Stored(users, Username, name.value) {
        var i := FirstIndex(users, Username, name.value).value;
        assert (users + [u])[i] == users[i];
      }
    }
  }

  /** A username that has been registered once cannot be registered again. */
  lemma RegisterTwiceRejected(users: seq<User>, fullname: Field, username: Field, email: Field,
                              password: Field, h: Hasher,
                              fullname2: Field, email2: Field, password2: Field)
    requires RegisterEffect(users, fullname, username, email, password, h).outcome.Ok?
    requires !Missing(fullname2) && !Missing(email2) && !Missing(password2)
    ensures var after := RegisterEffect(users, fullname, username, email, password, h).users;
            RegisterEffect(after, fullname2, username, email2, password2, h)
            == Effect(Err(DuplicateUsername), after)
  {
    var after := RegisterEffect(users, fullname, username, email, password, h).users;
    assert KeyOf(after[|users|], Username) == username.value;
  }

  /**
   * On a consistent document the first record with a username is the only
   * one, so a successful login describes every record with that username.
   */
  lemma LoginFindsTheOnlyRecord(users: seq<User>, username: Field, password: Field, h: Hasher)
    requires Consistent(users)
    requires Login(users, username, password, h).Ok?
    ensures forall i :: 0 <= i < |users| && users[i].username == username.value ==>
              Login(users, username, password, h).value == Profile(users[i].fullname, users[i].email)
  {
  }

  /** One body of a `/register` request. */
  datatype Request = Request(fullname: Field, username: Field, email: Field, password: Field)

  /** Requests handled one after another, each against the document the previous one left. */
  function RegisterAll(users: seq<User>, reqs: seq<Request>, h: Hasher): (after: seq<User>)
    decreases |reqs|
  {
    if reqs == [] then users
    else
      var q := reqs[0];
      RegisterAll(RegisterEffect(users, q.fullname, q.username, q.email, q.password, h).users,
                  reqs[1..], h)
  }

  /**
   * Any run of registrations keeps the document consistent and only ever
   * appends to it.
   */
  lemma {:induction false} RegisterAllConsistent(users: seq<User>, reqs: seq<Request>, h: Hasher)
    requires Consistent(users)
    ensures Consistent(RegisterAll(users, reqs, h))
    ensures |users| <= |RegisterAll(users, reqs, h)|
    ensures RegisterAll(users, reqs, h)[..|users|] == users
    decreases |reqs|
  {
    if reqs != [] {
      var q := reqs[0];
      var next := RegisterEffect(users, q.fullname, q.username, q.email, q.password, h).users;
      RegisterAllConsistent(next, reqs[1..], h);
      assert next[..|users|] == users;
    }
  }

  /**
   * Two registrations with different usernames and different emails, neither
   * stored yet, both succeed: usernames are compared exactly, so names that
   * differ only in letter case are different accounts.
   */
  lemma TwoNewUsersRegister(users: seq<User>, fullname: Field, a: Field, email: Field,
                            password: Field, fullname2: Field, b: Field, email2: Field,
                            password2: Field, h: Hasher)
    requires !Missing(fullname) && !Missing(a) && !Missing(email) && !Missing(password)
    requires !Missing(fullname2) && !Missing(b) && !Missing(email2) && !Missing(password2)
    requires a.value != b.value && email.value != email2.value
    requires !Stored(users, Username, a.value) && !Stored(users, Username, b.value)
    requires !Stored(users, Email, email.value) && !Stored(users, Email, email2.value)
    ensures var first := RegisterEffect(users, fullname, a, email, password, h);
            var second := RegisterEffect(first.users, fullname2, b, email2, password2, h);
            first.outcome.Ok? && second.outcome.Ok? && |second.users| == |users| + 2
  {
  }

  /** An instance of the above: "alice" and "Alice" both register on an empty document. */
  lemma CaseSensitiveUsernames()
    ensures var h := Hasher(p => Digest(p), (p, d) => d == Digest(p));
            var first := RegisterEffect([], Some("Alice A"), Some("alice"), Some("a@x"), Some("pw"), h);
            var second := RegisterEffect(first.users, Some("Alice B"), Some("Alice"), Some("b@x"),
                                         Some("pw"), h);
            first.outcome.Ok? && second.outcome.Ok? && |second.users| == 2
  {
  }
}
