# Clicket user accounts, modelled in Dafny

This project models the user-account logic of the Clicket server
(`server.js`): the users document kept in `users.json`, the `/register`
handler that validates a new account and appends it, and the `/login`
handler that looks a user up and checks the password.

- `accounts.dfy`, module `Accounts`: the data model (user records, request
  fields, outcomes), `find` as the function `FirstIndex` and the loop
  `FindFirst`, the register handler as the specification function
  `RegisterEffect`, the login handler as the function `Login`, and the class
  `UserStore`, whose field `file` is the users file (`None` until the first
  successful registration writes it) and whose method `Register` loads,
  searches, appends and writes back.
- `account_properties.dfy`, module `AccountProperties`: properties that relate
  several calls: register-then-login, other logins unaffected, a second
  registration of a username rejected, uniqueness kept over any run of
  registrations, exact (case-sensitive) comparison.

Modelling choices:

- A request body field is `Option<string>`; JavaScript's falsy test
  (`!field`) is `Missing`: absent or the empty string.
- The password-hashing library is a `Hasher`, a pair of total functions
  `hash` and `verify` passed in as a parameter. Nothing is assumed of them
  except, in `RegisterThenLogin`, that `verify(p, hash(p))` holds for the
  password in question.
- The handlers' HTTP replies are the `Outcome` datatype: `Err(MissingField)`
  (400), `Err(DuplicateUsername)` and `Err(DuplicateEmail)` (409),
  `Err(InvalidCredentials)` (401), and `Ok` carrying nothing for register and
  the `Profile` (fullname and email) for login.
- Usernames and emails are compared with `===`, so "alice" and "Alice" are
  different accounts (`TwoNewUsersRegister`, `CaseSensitiveUsernames`).
- A stored record is exactly `{fullname, username, email, password}`, the
  last being the digest of the password.
- `UserStore.Users` is readUsers: an absent file reads as the empty array.

## Model

| member | source | states |
|---|---|---|
| Accounts.FirstIndex | server.js:59 | `find` by exact key: a returned index holds the value and no earlier record does; `None` exactly when no record holds it |
| Accounts.FindFirst | server.js:40 | the search loop of the register handler returns exactly the index `FirstIndex` describes |
| Accounts.RegisterEffect | server.js:34-50 | missing-field error iff a field is falsy; then duplicate-username iff the username is stored; then duplicate-email iff the email is stored; errors leave the document unchanged; success appends exactly one record with `hash(password)`; pairwise distinct usernames and emails stay distinct |
| Accounts.Login | server.js:53-68 | missing-field error iff username or password is falsy; the only other error is invalid-credentials, given both for an absent user and a wrong password; success iff the first record with that username verifies the password, returning its fullname and email |
| Accounts.UserStore.constructor | server.js:22-31 | the store starts from the given users file, present or absent |
| Accounts.UserStore.Users | server.js:22-26 | readUsers: the stored document, or the empty array when the file is absent (a definition; no contract) |
| Accounts.UserStore.Register | server.js:34-50 | outcome and the document read afterwards are those of `RegisterEffect` on the document read before; on an error the file, absent or present, is as before; on success the file holds exactly the new document, in which every earlier record is kept as it was; distinct usernames and emails stay distinct |
| AccountProperties.FirstIndexIs | server.js:59 | a matching index with no match before it is the one `find` returns |
| AccountProperties.FirstIndexAppend | server.js:47 | `find` after an append returns the old match if there was one, else the new record if it matches, else nothing |
| AccountProperties.RegisterThenLogin | server.js:34-68 | after a successful registration, logging in with the same username and password returns the registered fullname and email |
| AccountProperties.RegisterKeepsOtherLogins | server.js:34-68 | a registration leaves the login outcome of every other username unchanged |
| AccountProperties.RegisterTwiceRejected | server.js:40-42 | registering an already registered username again fails with duplicate-username and changes nothing, whatever the other, non-empty, fields (a missing field is reported first) |
| AccountProperties.LoginFindsTheOnlyRecord | server.js:59-67 | on a document with distinct usernames a successful login describes every record with that username |
| AccountProperties.RegisterAllConsistent | server.js:34-50 | any sequence of registrations keeps usernames and emails pairwise distinct and only appends to the document |
| AccountProperties.TwoNewUsersRegister | server.js:40-47 | on any document, two registrations with different unstored usernames and different unstored emails both succeed and add two records; names differing only in case count as different |
| AccountProperties.CaseSensitiveUsernames | server.js:40 | example: on an empty document "alice" and then "Alice" both register |

## Left out

- Express routing, static file serving, body parsing and the numeric HTTP status codes (server.js:7-19, 70-72): transport plumbing; outcomes are the `Outcome` datatype.
- JSON parsing and printing in `readUsers`/`writeUsers`: the file is a sequence of records; a corrupt users file (a `JSON.parse` exception) is not modelled.
- Request fields that are not strings (numbers, booleans, objects in a JSON body) are not modelled; every present field is a string.
- bcrypt: a foreign cryptographic library, modelled as the opaque `Hasher`; its random salt and cost factor are not modelled, so `hash` is a function.
- The `await bcrypt.hash` between reading and writing the file lets concurrent registrations lose updates; concurrency is not modelled, each handler runs to completion on its own.
