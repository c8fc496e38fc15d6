# Notes API: ownership and visibility rules, in Dafny

This project models the core of a small multi-user notes service (a FastAPI
application over two SQL tables). Users register and log in; a login hands
out a signed, expiring bearer token whose subject is the username. With that
token a user creates, lists, reads, edits, deletes and shares notes. A shared
(public) note can also be read without any token, one at a time through
`/shared/{id}` or all together through `/public-notes`, newest first.

The model is a sequential store: a class `NotesApi.NoteStore` holding the
`users` and `notes` tables as maps keyed by primary key, with the schema's
constraints (unique usernames and emails, every note owned by a stored user)
as its invariant `Valid()`. Each request handler is a member of that class.
Handlers that write are methods with `modifies this` whose postconditions give
the whole new state and the response. Handlers that only read are functions or
read-only methods whose postconditions say exactly which caller gets which
answer.

- `common.dfy`: `Option`, the `HttpError` a handler raises and a handler's
  `Result`.
- `security.dfy`: password hashing, token issue (`create_access_token`) and
  token decoding. bcrypt and JWT signing are foreign code. They are replaced
  by stand-ins that keep what the handlers rely on. A hash verifies exactly
  the passwords that agree with its own in their first 72 characters. A token decodes only with the key it was signed with, and
  only while the clock is before its `exp` (section 4.1.4 of RFC 7519).
- `models.dfy`: the `User` and `Note` rows of models.py and the table
  constraints.
- `access.dfy`: the read and write policy, the owner-or-public test of
  `get_note`, the field updates of `update_note` and `share_note`, and the
  `share_url` link together with the route that reads it back.
- `queries.dfy`: the listing queries, stated as a filter in primary-key
  order. `ORDER BY updated_at DESC` is an insertion sort, proved sorted and a
  permutation of its input.
- `notes_api.dfy`: the store and its handlers.

The clock (`now`, in whole seconds), the bcrypt salt and the credential a
request carries are parameters. The signing key is fixed when the store is
constructed.

Points where the code behaves differently from what one might assume (the
statuses are those the handlers raise; see "## Left out" for what the session
dependency does to them):
- Registration rejects only a duplicate username, with 400. A duplicate email
  is not checked by the handler. It fails the UNIQUE constraint at commit and
  the request fails with a server error; the tables stay unchanged.
- `create_access_token` defaults to 15 minutes, not 30. Login always asks for
  30. A zero `expires_delta` is falsy in Python, so it also gets the 15-minute
  default.
- Tokens carry no issued-at claim, only the caller's claims and `exp`.
- `/notes/{id}` needs a valid token even for a public note. Anonymous reads go
  only through `/shared/{id}` and `/public-notes`.
- `get_note` raises 404 for a missing note and 403 for a forbidden one. Update,
  delete and share look the note up by id and owner together, so a non-owner
  gets the same 404 as for a missing note.

## Model

| member | source | states |
|---|---|---|
| `Models.CollectionsPartitionNotes` | models.py:14-28 | the stored users' `notes` collections partition the notes table: two users' collections share no note, and every stored note lies in some stored user's collection |
| `Models.NoteInExactlyOneCollection` | models.py:25-28 | a stored note belongs to the notes of exactly one stored user, the one its `owner_id` names |
| `Models.AddUserKeepsTables` | models.py:9-10 | adding a user whose username and email are both unused keeps both UNIQUE constraints and the foreign key |
| `Security.HashPassword` | main.py:104-105 | the hash carries the fixed cost of 12 rounds and the salt it was made with |
| `Security.HashThenVerify` | main.py:101-105 | a password verifies against its own hash whatever the salt; another password verifies exactly when its first 72 characters agree, so among passwords of at most 72 characters only the hashed one does |
| `Security.CreateAccessToken` | main.py:107-115 | the token keeps the given claims, except that its own `exp` replaces any given one, is signed with the key, and expires `expires_delta` after now, or 15 minutes after now when the delta is missing or zero |
| `Security.Decode` | main.py:124 | decoding accepts a token exactly when it parses, carries the key's signature and now is before its `exp`; it then yields the token's payload |
| `Security.IssuedTokenLifetime` | main.py:107-115 | an issued token decodes back to its claims (any given `exp` replaced) at every time before its expiry and at none after; with another key it always fails as a bad signature |
| `Security.ExpiryAfterIssue` | main.py:109-113 | with no lifetime or a non-negative one, a token expires strictly after it is issued |
| `Access.ViewDeniedMatchesPolicy` | main.py:231 | `get_note`'s refusal test denies a signed-in caller exactly when the read policy (owner, or public note) does not allow the read |
| `Access.Edited` | main.py:242-247 | an edit replaces title and content only when supplied, always sets `updated_at` to now, and keeps id, owner, `created_at` and `is_public` |
| `Access.Shared` | main.py:268-269 | a share request sets `is_public` to the requested value and `updated_at` to now, and keeps every other field |
| `Access.RepeatedRequests` | main.py:242-269 | repeating the same edit or the same share request leaves the same note as doing it once, up to `updated_at` |
| `Access.SharingControlsReads` | main.py:231 | after a share request the owner can still read the note and anyone else can read it exactly when it was made public; only the owner may write |
| `Access.DecimalText` | main.py:272 | a note id is written as a non-empty string of decimal digits |
| `Access.ShareUrl` | main.py:272 | a share link is returned exactly when the note is made public |
| `Access.DecimalRoundTrip` | main.py:272 | reading the decimal text of an id back gives the id |
| `Access.ShareUrlRoutesToNote` | main.py:295-296 | the `/shared/{id}` link returned by `share_note` is routed back to the same note id |
| `Queries.OwnedBelowExact` | main.py:207 | the owner filter yields exactly the stored notes of that owner, each once, in increasing id order |
| `Queries.PublicBelowMembers` | main.py:278 | the public join yields exactly the stored public notes whose owner exists, each paired with its owner's username |
| `Queries.PublicBelowDistinct` | main.py:278 | the public join lists no note twice |
| `Queries.InsertKeepsRows` | main.py:278 | inserting a row into the ordered list adds exactly that row and keeps the list free of duplicate notes |
| `Queries.InsertKeepsOrder` | main.py:278 | inserting a row keeps the list ordered by `updated_at` descending |
| `Queries.SortNewestFirstFacts` | main.py:278 | `ORDER BY updated_at DESC` returns a permutation of its input, newest first, still free of duplicates |
| `NotesApi.ToResponses` | main.py:280-291 | the result loop turns each joined row, in order, into the response carrying the note's fields and the owner's username |
| `NotesApi.PublicResponsesExact` | main.py:278-291 | the responses are exactly those of the stored public notes |
| `NotesApi.PublicResponsesOrdered` | main.py:278-291 | the responses are newest first and name each note once |
| `NotesApi.NoteStore.UserNamed` | main.py:131 | the username lookup finds a user exactly when one has that username, and returns that stored user |
| `NotesApi.NoteStore.CurrentUser` | main.py:117-134 | a token identifies a caller exactly when it has the service's signature, has not expired, and has a `sub` naming a stored user; the caller is that user, and every refusal is the same 401 |
| `NotesApi.NoteStore.Register` | main.py:165-183 | a taken username gets 400 and a taken email gets 500, both leaving the tables unchanged; otherwise exactly one user is added with the given username, email and password hash |
| `NotesApi.NoteStore.Login` | main.py:185-198 | login succeeds exactly when some user has the username and the password verifies; otherwise the same 401; the token has `sub` = username and expires 30 minutes after now |
| `NotesApi.NoteStore.StoredUserLogsIn` | main.py:173-188 | a stored user's login succeeds exactly when the password verifies against the stored hash, so the password given at registration always logs in |
| `NotesApi.NoteStore.LoginSessionWindow` | main.py:185-198 | a login token authenticates the user who logged in at every time before 30 minutes after issue, and at no time from then on |
| `NotesApi.NoteStore.UserNotes` | main.py:205-208 | an authenticated caller gets exactly their own notes, each once |
| `NotesApi.NoteStore.CreateNote` | main.py:210-222 | the caller's new note gets a fresh id, both timestamps now, `is_public` false, and nothing else changes |
| `NotesApi.NoteStore.GetNote` | main.py:224-234 | 404 when no note has the id; otherwise the note exactly when the caller owns it or it is public, and 403 when not |
| `NotesApi.NoteStore.UpdateNote` | main.py:236-250 | a non-owner or a missing id gets the same 404 and nothing changes; the owner's note is edited in place and no other row changes |
| `NotesApi.NoteStore.DeleteNote` | main.py:252-260 | a non-owner or a missing id gets the same 404 and nothing changes; otherwise exactly that note is removed |
| `NotesApi.NoteStore.ShareNote` | main.py:262-273 | a non-owner or a missing id gets the same 404 and nothing changes; otherwise the flag is set as requested, and the link is returned exactly when the note is made public |
| `NotesApi.NoteStore.PublicNotes` | main.py:275-293 | without any token, every public note is listed once with its owner's username, newest first, and nothing else is listed |
| `NotesApi.NoteStore.SharedNote` | main.py:295-311 | a note is returned exactly when it exists and is public, with its owner's username; otherwise 404 |
| `NotesApi.SharingScenario` | main.py:165-311 | register, log in and create a note: anonymous readers cannot see it until it is shared, can while it is shared, and cannot after it is unshared; the owner can read it throughout; the token works 29 minutes after login and not 31 |

## Left out

- bcrypt (main.py:53, 101-105) is foreign, salted and non-deterministic. The model's hash is a record of cost, salt and the first 72 characters of the password; verification recomputes it with the cost and salt stored in the hash. Hash collisions, constant-time comparison and the work factor's cost are not modelled.
- Security.HashPassword: the model's hash is total. passlib's bcrypt refuses a password containing a NUL character and one longer than 4096 bytes, raising an error from `get_password_hash` and `verify_password` (main.py:101-105). For such a password, registration fails at main.py:173 with a server error (500, or 503 once `get_db` re-raises it) instead of adding the user. A login naming a stored user with such a password fails at main.py:188 with that server error instead of the 401. Users registered through this service never hold such a password.
- Security.HashThenVerify: bcrypt truncates at 72 bytes, the model at 72 characters. For passwords with characters outside ASCII the two cut-offs differ. Some versions of the bcrypt library refuse a longer password instead of truncating it; the model follows the truncating behaviour.
- JWT encoding and HS256 signing (main.py:114, 124) are foreign cryptography. A token is its payload plus the key that signed it. Tampering is modelled only as a token signed with a different key, or one that does not parse.
- Security.Decode: states only the checks this service relies on: parsing, the signature and `exp`. Other registered claims (`nbf`, `iat`, `aud`) and any clock leeway are not modelled; tokens issued here never carry them. python-jose rejects a token only when `exp` is earlier than the current whole second, so it still accepts one at exactly `exp`; the model follows section 4.1.4 of RFC 7519 and rejects it there, so the session window in `NotesApi.NoteStore.LoginSessionWindow` closes one second earlier than the library's.
- The bearer header itself (`HTTPBearer`): a request without an `Authorization: Bearer` header is refused by the framework before any handler runs. Handlers here receive the credential already extracted.
- Path ids are natural numbers. A negative id in a URL finds no note and would get the same 404 as any missing id.
- `create_note` reads the clock twice, so `created_at` and `updated_at` can differ by microseconds. The model reads it once. Times are whole seconds.
- The clock is a parameter, so the model does not prove that `updated_at` never decreases. That would need the clock to be monotonic.
- Primary keys are the database's choice. The model takes the next value of a counter, which is one admissible choice. PostgreSQL uses up a serial value even on a failed insert, so after a duplicate-email failure the next user's id may skip one. SQLite without AUTOINCREMENT may reuse the id of a deleted highest row. The model never skips or reuses an id.
- The session dependency `get_db` (main.py:86-98) catches every exception and raises 503 "Database connection failed" in its place. FastAPI throws a handler's exception, and one raised by `get_current_user`, back into that dependency. So every status the model gives (the 400 of register, the 401s of login and `get_current_user`, the 403 and the 404s of the note handlers) and the duplicate-email failure of register reach the client as that 503. The model gives the status each handler raises, which is what the handlers' own code decides. The 404/403 distinction of `get_note` therefore does not reach the client.
- NotesApi.NoteStore.Register: the duplicate-email failure is modelled as the global handler's 500 (main.py:77-83). Through `get_db` it reaches the client as 503. Either way the tables are unchanged.
- NotesApi.NoteStore.UserNotes: the query has no ORDER BY. The model returns ascending id order, and the contract promises only which notes are returned.
- Requests run one at a time. Concurrent requests and transaction isolation are not modelled.
- FastAPI and CORS set-up, the global exception handler, the session lifecycle (`get_db`), the root, health and `/auth/me` endpoints, and the deployment handler (main.py:26-98, 137-163, 200-203, 313-318) are plumbing.
- database.py, schemas.py and the deployment and database probe scripts contain no logic of the service. `NoteUpdate`'s optional fields appear as the `Option` parameters of `UpdateNote`.
