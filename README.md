# Secure cloud storage backend: authorization and ownership model

This project models the Express backend of a small file-storage service (`server.js`). The backend holds two MySQL tables and an upload directory:

- `users`: id, username, email and password hash.
- `encrypted_files`: id, stored file name, owning user id and an unused per-file key.
- `uploads/`: the stored blobs.

Each route is one transition of that state, or one query on it, and answers with an HTTP status and a JSON body:

- `/register`, `/login` and `/reset-password` handle accounts.
- `verifyToken` guards `/upload`, `/files`, `/download/:fileId` and `/delete/:fileId`.
- `/uploads/*` is the unauthenticated static route.

The model is written in Dafny and verified.

Layout:

- `wrappers.dfy`: `Option` and `Result`.
- `tables.dfy`: the rows and the SELECT queries the routes run, as functions, plus `Consistent`. `Consistent` is the invariant of the tables and the upload directory: usernames are unique and non-empty, and every file row belongs to an existing user and names a stored blob of its own.
- `http.dfy`: the replies, with the source's status codes and messages.
- `tokens.dfy`: the bearer scheme and `verifyToken`.
  - The Authorization header is split on spaces exactly as JavaScript's `split(" ")` does, and the server takes the second piece as the credential, whatever the first piece is (`SchemeIgnored`). The client sends `Bearer ${token}`. That matches the bearer form of section 2.1 of RFC 6750 only when exactly one space follows the scheme word: with two spaces the credential is empty and is refused with 401, as is the `Bearer ` a client with no stored token sends (`EmptyCredentialRejected`).
  - A token is `Token(userId, exp, sigOk)`. `exp` is the `exp` claim of section 4.1.4 of RFC 7519, set one hour (3600 s) after issue.
  - The library calls are a bundle of functions, `Primitives`: `bcrypt.hash`, `bcrypt.compare`, `jwt.sign`, and the decoding and signature check of `jwt.verify`. The model assumes only what `Sound` states:
    - a password matches its own hash;
    - a signed token decodes to its own claims with a good signature;
    - signed text is non-empty and holds no space.
- `backend.dfy`: class `Server`, which holds the state and has one member per route.
  - Routes that write are methods: register, upload, delete and reset-password.
  - Routes that only read are functions: login, files, download and the static route.
  - The clock (seconds), the bcrypt salt, the stored name chosen by the upload middleware and the random key are parameters.
- `scenarios.dfy`: request sequences proved from the routes' contracts alone. They cover register then login, a duplicate registration, owner-only access, upload then list, and deleting twice.

What the code answers, as modelled:

- A taken username gets 400 "Username already exists".
- An expired token and a bad signature both get 401 "Unauthorized access."
- Login distinguishes "Account not found" from "Incorrect password", both with 400.
- Register does not check emails for uniqueness. Reset-password therefore replaces the hash of every user with that email.
- Delete unlinks the blob before it deletes the row. The model's invariant keeps every row's blob present, so the unlink cannot fail.
- The upload middleware stores the blob before the handler runs. A failed insert therefore leaves an orphaned blob (the model's `Upload` states this).
- The static `/uploads` route serves any stored blob to anyone (`StaticBypassesOwnership`).

Assumption: `encrypted_files.user_id` is a foreign key into `users`. An insert for an id that names no user then fails, which is the 500 branch of the upload handler. With it, every file row's owner is an existing user.

## Model

| member | source | states |
|---|---|---|
| Tokens.Split | server.js:37 | `split(" ")` yields at least one piece and no piece contains a space |
| Tokens.JoinSplit | server.js:37 | splitting loses nothing: the pieces joined with single spaces give back the header |
| Tokens.SplitAfterWord | server.js:37 | a space-free word followed by a space splits off as the first piece, so the credential of `Bearer <token>` is the second piece |
| Tokens.Authenticate | server.js:33-42 | no header (or an empty one) gives exactly the 403 "No token provided."; any other failure is the 401; success exactly when the header has a non-empty second piece that decodes to a token with a good signature and `now < exp`, and then the request's user is the token's `id` |
| Tokens.EmptyCredentialRejected | server.js:37-38 | a header with nothing after the scheme word and its space, or with two spaces after it, is refused with 401 |
| Tokens.SchemeIgnored | server.js:37-39 | the first word of the header is never checked: any space-free word, one space and a live signed token let the request through as the token's user |
| Tokens.SignedTokenVerdict | server.js:37-39 | a token signed for `id` with expiry `exp`, sent as `Bearer <token>`, is accepted as `id` when `now < exp` and refused with 401 from `exp` on |
| Tokens.IssuedTokenAccepted | server.js:73 | a token issued at time `t` by `jwt.sign(..., { expiresIn: "1h" })` is accepted, as its own user, exactly while `now < t + 3600` |
| Tokens.ForgedTokenRejected | server.js:37-38 | a credential whose signature does not verify is refused with 401, whatever user id it claims |
| Tables.FindUsername | server.js:83-88 | the lookup by username finds the first user with that name, or reports that no user has it |
| Tables.Owned | server.js:115-118 | the listing holds exactly the rows whose owner is the requester (none of another user's, none of the requester's left out), each with its stored name, in strictly ascending id order |
| Tables.Lookup | server.js:137-138 | the `id = ? AND user_id = ?` query answers a row exactly when the row exists and belongs to the requester |
| Tables.ForeignLooksMissing | server.js:126-127 | another user's row answers the ownership query exactly as a missing row does |
| Tables.OwnedIgnoresAbove | server.js:106-107 | a row inserted at or above the bound does not change the listing below it |
| Tables.OwnedAfterInsert | server.js:106-109 | inserting row `n` appends it to its owner's listing and leaves every other user's listing unchanged |
| Tables.OwnedAfterRemoveOther | server.js:141 | deleting a row leaves the listing of every user who does not own it unchanged |
| Tables.ConsistentAfterStore | server.js:101 | storing a fresh blob keeps the tables consistent |
| Tables.ConsistentAfterInsert | server.js:106-107 | inserting a row at the counter for an existing user and a fresh stored blob keeps the tables consistent |
| Tables.ConsistentAfterRemove | server.js:140-141 | removing a row together with its blob keeps the tables consistent |
| Backend.Server.constructor | server.js:16-22 | a fresh server has empty tables, no stored blobs, and file ids starting at 1 |
| Backend.Server.Register | server.js:54-77 | a missing field gives 400 and a taken username gives 400, both with the users table (every stored hash included) unchanged; otherwise exactly one user row is appended, with the new id, the hashed password and the email; the answer is a token that authenticates as the new id until now + 1h and gets the 401 afterwards; files and blobs are never touched |
| Backend.Server.Login | server.js:80-98 | 400 "Account not found" exactly when no user has the username; a token exactly when that user's hash matches the password, for that user's id; otherwise 400 "Incorrect password"; no other answer, and no state change |
| Backend.Server.Upload | server.js:101-111 | failed authentication answers the gate's 403 or 401 and changes nothing; no file gives 400 with nothing changed; otherwise the blob is stored; a requester that names no user gets 500 with the tables unchanged; otherwise exactly one row is added under the fresh id, owned by the requester, existing rows are unchanged, the counter advances and the new id is returned |
| Backend.Server.ListFiles | server.js:114-120 | behind the gate, exactly the requester's rows (id and stored name), none of any other user's and none of the requester's omitted, in id order |
| Backend.Server.Download | server.js:123-131 | behind the gate, the stored blob is sent exactly when the row exists and belongs to the requester; a missing row and another user's row both give the same 403 "Unauthorized or file not found." |
| Backend.Server.Delete | server.js:134-146 | behind the gate, for the owner exactly that row and its blob are removed, and nothing else; a missing row and another user's row both give the same 403 with nothing changed; after success the id is gone |
| Backend.Server.ResetPassword | server.js:149-161 | an email no user has gives 400 with nothing changed; otherwise every user with that email gets the new password's hash, and no id, username, email, file or blob changes |
| Backend.Server.ServeStatic | server.js:164 | the static route serves a name exactly when that blob is stored, with no token and no ownership check |
| Backend.Server.StaticBypassesOwnership | server.js:164 | the blob behind any file row is served by the static route to anyone |
| Scenarios.RegisterThenLogin | server.js:66-74 | after a successful register, login with the same password succeeds, and both tokens authenticate as the new user for the next hour |
| Scenarios.RegisterTwice | server.js:61-64 | registering a taken username again is refused, and the first account's stored hash is kept |
| Scenarios.OwnerOnly | server.js:126-129 | after one user uploads, another user's download and delete of that id get the 403, while the owner's download gets the blob |
| Scenarios.UploadThenList | server.js:106-118 | after an upload, the owner's listing is the previous listing with the new file appended |
| Scenarios.DeleteTwice | server.js:137-143 | deleting one's own file succeeds once, and the same request a second time gets the 403 |

## Left out

- Password hashing: bcrypt's salt format, work factor and comparison are library code. The model assumes only that a password matches its own hash (`Sound`).
- Token signing: JSON Web Token encoding and HMAC signing are library code, and a decoded token carries only whether its signature checks.
  - Signing uses the hard-coded secret `"secretkey"`, so anyone who knows it can mint a token with a good signature for any id. The model cannot express this, because the signature check is abstract.
- Other `jwt.verify` checks: `nbf`, `iat`, the algorithm and the clock tolerance are not modelled. Only the signature and `exp` are.
- Database: the connection, dotenv, CORS and the listening port are not modelled. Store failures are also left out: the model assumes the store never fails, except for the foreign-key failure of the upload insert. This covers the 500 branches of register, files, delete and reset, and the crash when a SELECT fails and `results` is undefined.
- AUTO_INCREMENT: the model does not advance the file counter on a failed insert. MySQL may consume an id there.
- `/files` order: SQL without `ORDER BY` promises no order. The model lists rows in ascending id order, which is what the primary-key index gives.
- Request bodies: a missing or non-string field is modelled as the empty string. `bcrypt.hash` and `bcrypt.compare` throw on a missing password in login and reset, and that uncaught rejection is not modelled.
- Name and email matching: `WHERE username = ?` and `WHERE email = ?` are modelled as exact string equality, that is, a binary collation is assumed. The schema is not part of this model. Under MySQL's default case-insensitive collations, "Alice" and "alice" would be the same username for register and login, and the same for emails in reset-password.
- URL parameters: `:fileId` is taken as an already-parsed number. MySQL's coercion of text such as `"5abc"` is not modelled.
- Backend.Server.Upload: requires the stored name to be fresh. The upload middleware names files `Date.now() + "-" + originalname`, which depends on the clock and the file system, so the model takes freshness as given instead of modelling the possible overwrite.
- `crypto.randomBytes` key generation: the key is an opaque parameter. It is stored and never used.
- File contents: `res.download` streaming and the static file server's I/O are reduced to a reply that names the path. Byte content is not modelled, so the upload/download round trip of contents is not stated.
- Blob removal: `fs.unlinkSync` throwing on a missing blob cannot happen under the model's invariant, so the uncaught exception path is not modelled.
- Concurrency: callback ordering and concurrent requests are not modelled. Requests are handled one after another.
- Client: the React client (`App.js`) is not part of this model. It is UI and network plumbing, except that it shows the header form `Bearer ${token}` used here.
