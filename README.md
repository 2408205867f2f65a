# URL shortener tables, modelled in Dafny

This project models the in-memory logic of a small URL-shortening server (Express + lowdb).
The server keeps one JSON document with two tables: `links_table` and `users_table`.
It does four things with them:

- **Shortening** (`POST /dashboard` in `TaskNest.js`, `POST /` in `test.js`). The URL gets
  `"http://"` prepended unless it already starts with `"http://"` or `"https://"`. A record
  with exactly that `original_url` gives back its slug. Otherwise nanoid(5) is drawn until the
  value is no record's `short_slug`, and a new record is appended with `click_count` 0 and
  `created_by`, `expires_at` and `password_hash` null.
- **Resolving** (`GET /:urlCode`). The first record whose `short_slug` equals the code gets
  `click_count = (click_count || 0) + 1` and its `original_url` is the redirect target. An
  unknown code is not found and changes nothing.
- **Accounts** (`POST /register`, `POST /login`). A taken username is refused. Otherwise bcrypt's
  hash is stored in a new account. Login reports user-not-found, or bcrypt's comparison against
  the first account with that username.
- **Initialisation.** Data already in `db.json` is kept. Otherwise the empty default
  `{ users_table: [], links_table: [] }` is installed.

`test.js` repeats the link logic of `TaskNest.js` line for line (`test.js:39-93` against
`TaskNest.js:48-63, 130-168`), so one model covers both files.

Layout:

- `wrappers.dfy`: `Option`, which stands for `null`/`undefined`.
- `tables.dfy`: first-match search (`IndexOf`, the `find` of the source) and distinct keys.
- `links.dfy`: link records, normalization, slug allocation, and the specification functions
  `ResolveTable` and `ShortenTable` with the lemmas relating them.
- `accounts.dfy`: user records and the specification functions `RegisterTable` and `Authenticate`.
- `server.dfy`: the class `Db`, whose field `data` is lowdb's `db.data`, and the handlers
  that change it. The login handler changes nothing (`TaskNest.js:69-89`), so it is the pure
  `Accounts.Authenticate` on the users table rather than a `Db` method.
  Each other handler is a method that changes `data` in place and is proved equal to its
  specification function. `Db.Valid()` (unique slugs and unique usernames) holds after a
  handler whenever it held before.

Foreign pieces become parameters:

- `draws` is the sequence of values nanoid(5) returns during one request.
- `id` and `now` stand for `nanoid()` and `new Date().toISOString()`.
- `hashed` is bcrypt.hash's result, `None` when bcrypt reports an error.
- `verify` is bcrypt.compare.
- `stored` is what `db.read()` found.

## Model

| member | source | states |
|---|---|---|
| `Links.Normalize` | TaskNest.js:133-135 | the result always starts with "http://" or "https://"; it equals the input exactly when the input already has one of those prefixes, and is "http://" + input otherwise |
| `Links.NormalizeIdempotent` | test.js:59-61 | normalizing twice gives the same URL as normalizing once |
| `Links.FindBySlug` | TaskNest.js:51 | the index found holds the code as short_slug and no earlier record does; none is found exactly when no record has that slug |
| `Links.FindByUrl` | TaskNest.js:138 | the index found holds the URL as original_url and no earlier record does; none is found exactly when no record has that URL |
| `Links.FirstUnusedIndex` | TaskNest.js:145-149 | the retry loop stops at a draw that is no existing slug, and every earlier draw was an existing slug |
| `Links.AllocateSlug` | test.js:71-75 | the do-while loop returns the first draw that is not a short_slug of the table; the result has 5 characters |
| `Links.ResolveTable` | TaskNest.js:51-61 | not found exactly when no record has the code; on a hit the target is the first match's original_url, that record's count (missing read as 0) grows by 1 and nothing else in it changes, every other record and the table length are unchanged; on a miss the table is unchanged; the slug and URL columns never change |
| `Links.ShortenTable` | TaskNest.js:130-163 | a normalized URL already present gives the first matching record's slug and an unchanged table; a new URL gets a 5-character slug taken from the draws and used by no record, and exactly one record is appended (normalized URL, that slug, click_count 0, null created_by/expires_at/password_hash); unique slugs stay unique |
| `Links.ShortenIdempotent` | TaskNest.js:138-142 | registering the same URL a second time returns the same slug and leaves the table as the first registration left it |
| `Links.ShortenThenResolve` | TaskNest.js:138-162 | in a table with unique slugs, resolving the slug a registration returned yields the normalized URL, for new and for known URLs |
| `Links.ShortenNewStartsUnclicked` | test.js:77-88 | after registering a new URL its slug is found at the appended record, whose click count is 0 |
| `Links.ResolveTwice` | test.js:42-47 | resolving a known code twice returns the same target both times and adds two clicks to the same record |
| `Accounts.FindUser` | TaskNest.js:72-74 | the index found holds the username and no earlier account does; none is found exactly when no account has it |
| `Accounts.RegisterTable` | TaskNest.js:95-114 | refused exactly when the username exists; a bcrypt error stores nothing; otherwise exactly one account with the username and hash is appended; unique usernames stay unique |
| `Accounts.Authenticate` | TaskNest.js:69-89 | user-not-found exactly when no account has the username; success exactly when the first such account's hash passes the comparison |
| `Accounts.RegisterThenAuthenticate` | TaskNest.js:104-114 | after registering a new username, login succeeds exactly when the comparison accepts the password against the stored hash, and reports an invalid password otherwise |
| `Accounts.RegisterTwiceRejected` | TaskNest.js:98-102 | a username that was taken or has just been registered is refused next time, with the table unchanged |
| `Server.Db.constructor` | test.js:14-21 | stored data is kept; without it both tables are empty (and the invariant holds) |
| `Server.Db.Resolve` | test.js:39-54 | the click increment in place equals `ResolveTable` on the old links table; users untouched; the invariant is kept |
| `Server.Db.Shorten` | TaskNest.js:130-168 | normalization, lookup, the allocation loop and the push equal `ShortenTable` on the old links table; users untouched; the invariant is kept |
| `Server.Example` | test.js:39-93 | an example run on an empty store: "example.com" gets the drawn slug "aB3xZ", which resolves to "http://example.com" twice with two clicks counted, and registering it again returns the same slug with still one record |
| `Server.Db.Register` | TaskNest.js:95-124 | the push into users_table equals `RegisterTable` on the old users table; links untouched; the invariant is kept |

## Left out

- HTTP routing, middleware, static files, the HTML bodies, redirects and status codes are web plumbing. Outcomes are returned as values instead.
- The `/:urlCode` route is declared before `/login`, `/register` and `/dashboard`, which shadows their GET pages. This is route-ordering behaviour of the HTTP layer.
- The second `res.send` after shortening (`TaskNest.js:166`) and the QR code it would carry are HTTP-layer behaviour and a foreign library.
- Reading and writing `db.json` are file I/O; they are no-ops on the in-memory snapshot. A failed `db.write()` after registering (500 "Error saving user") therefore is not modelled. The account is still in memory in that case, as in the model.
- bcrypt hashing and comparison are foreign calls. They are the parameters `hashed` and `verify`.
- nanoid's alphabet and randomness are not modelled. Draws are an input sequence of 5-character strings.
- Links.AllocateSlug, Server.Db.Shorten: the source retries without bound and ends only with probability 1. The model demands, for a new URL only, that some draw is unused. This states termination instead of proving it.
- `id` and `created_at` come from nanoid() and the clock; they are parameters.
- Concurrent requests and lost click updates are not modelled; each handler is one atomic step.
- A missing `url` field makes `url.startsWith` throw (`TaskNest.js:133`, `test.js:59`); the URL is a string here. A missing `username` or `password` does not throw: it is compared with `===` and handed to bcrypt, whose error or falsy result are the `HashFailed` and invalid-password paths. An account whose `username` is undefined (pushed by a `/register` without a username) cannot be represented, because usernames are strings here.
- Links.ResolveTable: counts are unbounded integers; the JavaScript double's saturation at 2^53, where `(click_count || 0) + 1` stops changing the value, is not modelled; stored numeric counts that are not natural numbers (negative or fractional) are not modelled, since a count is `Option<nat>`.
- The record the handler updates (`theLink`) is an object inside the table. The model replaces that record in the sequence, which is the same since nothing else refers to it.
- Login only serves a page and returns no account (`TaskNest.js:78-86`). The retry loop has no cap (`TaskNest.js:146-149`). `created_by` is always null (`TaskNest.js:155`). The model follows this.
