# Library management API — a Dafny model

This project models the request-handling core of a small Flask API that serves books and
members. The API has email/password signup and login, and bearer-token authentication.
The model covers two parts:

- **The handlers of `app/views.py`.** They are modelled as operations on an in-memory
  `Library` store holding two tables, `books: map<int, Book>` and
  `members: map<int, Member>`, plus counters that supply fresh ids. Each handler takes the
  already-parsed JSON fields (`None` for an absent field) and answers with a status code and
  message. The handlers that write change the store in place. The two list endpoints and
  `login` are functions over the tables.
- **The guard `token_required` of `app/auth.py`.** It is modelled as a decision on one request:
  classify the `Authorization` header, hand its token to the token verifier, and look up the
  decoded id among the members. The result is `Admit(id, member)` or `Reject(status, message)`.
  The header parsing uses Python's `str.split()` and the case-insensitive check of the scheme
  `bearer`. Both have a verified model of their own.

Modules, one per source file or foreign component:

| module | file | models |
|---|---|---|
| `Wrappers` | wrappers.dfy | `Option`, for absent JSON fields and failed lookups |
| `Credentials` | credentials.dfy | werkzeug's `generate_password_hash` / `check_password_hash`, with the salt as a parameter |
| `Models` | models.dfy | the `books` and members tables of `app/models.py`, the order the store lists rows in, and `filter_by(email=...).first()` |
| `PyStrings` | pystrings.dfy | Python `str.split()` with no separator, and `s.lower() == "bearer"` |
| `Auth` | auth.py → auth.dfy | `token_required`, `create_token` |
| `Views` | views.py → views.dfy | every handler, the `Library` store class, and `Serve`: a protected route, the guard followed by its handler |

Modelling choices:

- **Store order.** `Book.query.all()` and `Member.query.all()` return rows in the order of a
  rowid-table scan in SQLite. That order is ascending id, so `Models.Ascending` lists ids in
  ascending order.
- **Lookup by email.** SQLite answers `filter_by(email=...).first()` through the UNIQUE index on
  email, so at most one row matches. `Models.FindByEmail` takes the lowest matching id. That
  choice only matters on a table that breaks the constraint, which never happens here.
- **Fresh ids.** The store draws ids from counters. The contracts only promise an id that is not
  already in the table, because SQLite may hand out a deleted maximum id again.
- **Password hashing.** Hashing is randomised by a salt, which the caller passes in. The digest
  is a symbolic, injective encoding under that salt. The model relies only on two facts: a hash
  checks against its own password, and against no other.
- **Token signing and verification.** PyJWT with HS256 is foreign code. The gate receives the
  verifier as a function `decode: string -> DecodeOutcome` with outcomes `Decoded(user_id)`,
  `Expired` and `Invalid`. The issue time `now` is a parameter, in whole seconds.
  `create_token` yields the claims it signs.
- **Protected routes.** `token_required` wraps every protected route. In the model, the wrapper
  and the handler together are `Views.Library.Serve`. Its contract states each handler's effect
  through a named transition predicate (`BookAdded`, `BookUpdated`, `BookDeleted`,
  `MemberAdded`, `MemberUpdated`, `MemberDeleted`). On a rejection the handler does not run.
- **Behaviour the model keeps as the code has it:**
  - titles, authors and emails may be any string the presence checks let through, including an
    empty title;
  - an update replaces all fields, so an omitted `published_year` becomes null;
  - `update_member` does not check the new email against other members. The UNIQUE constraint
    then fails at commit, the transaction is rolled back, and the framework answers 500. The
    model gives this case its own outcome and does not turn it into a 400;
  - member ids are not guaranteed never to be reused.

## Model

| member | source | states |
|---|---|---|
| `Credentials.CheckHash` | app/views.py:40 | a hash made from a password verifies that password and rejects every other one |
| `Credentials.SaltsDiffer` | app/views.py:21 | the same password hashed under two salts gives two different stored values, and both verify |
| `PyStrings.Split` | app/auth.py:16 | every field of `str.split()` is non-empty and holds no whitespace |
| `PyStrings.SplitIsLayout` | app/auth.py:16 | `s.split()` equals a list of fields exactly when `s` is those fields laid out between runs of whitespace, with a non-empty run between any two fields |
| `PyStrings.SplitLayout` | app/auth.py:16 | splitting fields laid out between whitespace runs recovers exactly those fields |
| `PyStrings.LayoutOfSplit` | app/auth.py:16 | every string is its own split laid out between whitespace runs, so splitting loses only whitespace |
| `PyStrings.SplitSkipsSpace` | app/auth.py:16 | leading whitespace does not change the split |
| `PyStrings.SplitJoin` | app/auth.py:16 | fields joined with single spaces split back into the same fields |
| `PyStrings.SplitKeepsText` | app/auth.py:16 | the fields concatenated are the input with its whitespace removed |
| `PyStrings.BearerSchemeCases` | app/auth.py:17 | the scheme check accepts exactly the six letters of "bearer", each in either case |
| `Models.Ascending` | app/views.py:66 | the store lists each id of a table exactly once, in strictly increasing order |
| `Models.FindByEmail` | app/views.py:17 | the lookup by email finds a member holding that email and the lowest such id; it finds nothing exactly when the email is absent or no member holds it |
| `Models.FindUnique` | app/models.py:17 | under the UNIQUE constraint on email, the lookup finds the one member holding it |
| `Models.InsertKeepsEmailsUnique` | app/views.py:17-24 | inserting a member whose email the lookup did not find keeps emails unique |
| `Models.ReplaceKeepsEmailsUnique` | app/views.py:143-145 | replacing a member with an email no other member holds keeps emails unique |
| `Auth.CreateToken` | app/auth.py:34-39 | the payload's `user_id` is the argument and `exp` is one hour after the issue time |
| `Auth.TokenRequired` | app/auth.py:9-31 | an admitted request had a well-formed bearer header, its second field decoded to the admitted id, and the member handed on is the one stored under that id; every rejection is 403 or 404 |
| `Auth.MissingTokenRejected` | app/auth.py:12-14 | "Token is missing!" (403) exactly when the header is absent or empty |
| `Auth.MalformedHeaderRejected` | app/auth.py:16-18 | for a non-empty header, "Token format is invalid!" (403) exactly when it does not split into two fields with scheme "bearer" |
| `Auth.DecodeOutcomeDispatch` | app/auth.py:20-29 | after a well-formed header, an expired token gives 403 "Token has expired!", an invalid one 403 "Invalid token!", an unknown user 404 "User not found!", and a known user is admitted with its stored member |
| `Auth.BearerHeaderSplits` | app/auth.py:16-20 | `"Bearer " + token` splits into the scheme and exactly the token, and passes the shape check |
| `Auth.BearerTokenAdmits` | app/auth.py:16-31 | a token that decodes to a stored member's id, sent as `Bearer <token>`, admits exactly that member |
| `Views.ListBooks` | app/views.py:65-70 | one entry per stored book, in ascending id order, each carrying only title, author and published year; every stored book appears |
| `Views.ListMembers` | app/views.py:122-124 | one entry per stored member, in ascending id order, each carrying only the email; every member appears |
| `Views.Login` | app/views.py:30-47 | 404 "User not found." exactly when no member has the email; 401 "Invalid credentials" exactly when the member found fails the password check; 200 "Login successful" exactly when it passes, with a token for that member's id; no failed login carries a token |
| `Views.Library.Signup` | app/views.py:9-26 | a missing or empty email or password gives 400 before any lookup; a taken email gives 400; otherwise one member is added at a fresh id with the password's hash, and the reply is 201; error paths change nothing |
| `Views.Library.AddBook` | app/views.py:52-61 | the book is stored at an id no book had, every other book is kept, and the reply is 201 |
| `Views.Library.UpdateBook` | app/views.py:74-84 | an unknown id gives 404 before the title and author fields are read, and changes nothing; otherwise title, author and published year are all replaced, the year becoming null when omitted; no other book changes |
| `Views.Library.DeleteBook` | app/views.py:88-95 | an unknown id gives 404 and changes nothing; otherwise exactly that book is removed |
| `Views.Library.AddMember` | app/views.py:100-118 | a missing email gives 400 before the duplicate check; a taken email gives 400; otherwise one member is added at a fresh id with the hash of the given password, or of "defaultpassword" when none is given |
| `Views.Library.UpdateMember` | app/views.py:128-147 | a missing email or password gives 400 even for an unknown id; then an unknown id gives 404; an email held by another member fails the commit (500) and changes nothing; otherwise email and password hash are both replaced |
| `Views.Library.DeleteMember` | app/views.py:151-159 | an unknown id gives 404 and changes nothing; otherwise exactly that member is removed |
| `Views.Library.Serve` | app/auth.py:9-31 | a rejected request gets the guard's status and message whatever its body holds, no handler runs, and both tables stay as they were; an admitted request has exactly the effect of its route's handler and leaves the other table unchanged |
| `Views.DeletedBookNotFound` | app/views.py:88-95 | after a successful delete the id is gone, every other book keeps its record, and deleting it again gives 404 |
| `Views.SignupThenLogin` | app/views.py:9-47 | after a successful signup, logging in with the same credentials gives 200 and a token for the new id, and any other password gives 401 |
| `Views.SignupLoginAccess` | app/views.py:30-47 | signup, then login, then a request carrying the issued token as `Bearer <token>` admits the new member |

## Left out

- Flask routing, `request.get_json()`, `jsonify` and response construction are not modelled. Handlers take parsed fields and return status/message pairs.
- A missing or non-JSON body, and a missing `title` or `author` in `add_book`, are not modelled. Both raise and surface as framework 500 errors. The model makes those fields required inputs: `PostBooks` carries a whole `Book`, and `UpdateBook` requires both fields only when the id exists.
- Fields of other JSON types, or a JSON `null`, are not modelled. The model takes strings and integers. A null `password` in `add_member` makes hashing raise. A null title would violate NOT NULL at commit.
- `Views.Login`: requires a password whenever the email is found. Without one, `check_password_hash` raises and the framework answers 500.
- Column widths `String(100)` and `String(120)` are not modelled. SQLite does not enforce them.
- JWT encoding, HS256 signing, the secret key and `jwt.decode` are foreign code. The model takes the decoder as a function parameter, independent of the clock and of the claims `create_token` issued. Token expiry relative to `exp` is not modelled: nothing ties `CreateToken`'s `exp` to an `Expired` outcome.
- `Auth.CreateToken`: `exp` is the issue time in whole seconds plus 3600. Sub-second truncation of `utcnow()` is not modelled.
- `Credentials.CheckHash`: the digest is a symbolic, injective stand-in for werkzeug's salted hash. One-wayness and collisions are not modelled, and neither is the random salt, which is a parameter.
- `PyStrings.IsBearerScheme`: models `lower()` on ASCII letters only. No other character lower-cases to a letter of "bearer", so the comparison is exact. A general Unicode `lower()` is not modelled.
- The debug `print` of the generated token in `login` is not modelled (I/O).
- `app/__init__.py` (app factory, database and migration setup) is not modelled.
- Transactions and concurrent requests are not modelled. They are delegated to the database, and each handler is one atomic step here.
- The `current_user` that the guard hands to a handler is unused by every handler, so the handlers do not take it.
