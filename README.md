# Digital locker — a Dafny model of the document portal's handlers

The portal lets people register, log in, reset a forgotten password and log
out, then upload and fetch personal files in four fixed categories
(education, health, service, transport). Underneath its web handlers sits a
small sequential state machine:

- a user table keyed by username, each user holding a name, an e-mail
  address and a plain-text password;
- four document tables, one per category, each a sequence of rows
  `{id, user_id, filename, data}` with its own auto-increment id;
- four upload folders, one per category, mapping a sanitized file name to
  the file's bytes;
- the browser session, holding an optional username and an optional name.

The model has four modules:

- `Documents` (`documents.dfy`): rows and tables, inserting a row, the
  per-user listing (`filter_by(user_id=…).all()`), the first-match search by
  id and owner (`filter_by(id=…, user_id=…).first()`), and retrieval's
  search over the tables in the order health, education, service,
  transport.
- `Portal` (`portal.dfy`): the whole locker as one value `State` and one
  pure step function per handler, returning the new state and the handler's
  outcome. The four copy-pasted category handlers are one function with a
  `Category` parameter. HTTP responses become outcome tags: `Registered` /
  `UsernameTaken`, `LoggedIn` / `InvalidPassword` / `NotRegistered`,
  `PasswordReset` / `PasswordMismatch` / `NoSuchUser`, a category page with
  its flash message and listing, `Sent(bytes)` / `FileMissing` /
  `ServeRedirect` for retrieval.
- `Properties` (`properties.dfy`): facts relating several calls. They cover
  upload followed by listing or retrieval, the stale bytes an older row
  serves after a same-named re-upload by the same or by another user, and
  which table wins retrieval. They also cover which rows retrieval and the
  listings draw on (only rows the session user owns), and a consistency
  invariant every handler keeps.
- `Locker` (`locker.dfy`): the class `DigitalLocker`, whose fields are the
  user table, the tables, the folders and the session, and whose handler
  methods update them in place, step by step as the handlers do. Each method
  is proved to produce exactly the state and outcome of the matching `Portal`
  step function. The two read-only handlers, the overview page and document
  retrieval, are `Portal.ViewDocuments` and `Portal.Serve` applied to
  `DigitalLocker.Snapshot()`.

The file-name sanitizer of the web framework (`secure_filename`) is a
foreign library. It is an uninterpreted function `sanitize: string -> string`,
a constant of the locker object and a parameter of the step functions.

Behaviour worth knowing, all modelled as the code has it:

- A file is written to its folder before the owner is looked up. An upload
  by a session whose user is missing leaves the file on disk and adds no row.
- Retrieval serves the folder's file under the row's file name, not the
  row's `data`. A same-named re-upload overwrites the file, so the older row
  then serves the newer bytes (`Properties.StaleBytesAfterReupload`).
- A folder is keyed by the sanitized file name alone, not by its owner. An
  upload by ANY user of the same name into the same category overwrites the
  file, so another user's upload changes what an earlier owner's row serves
  (`Properties.OtherUserOverwritesFile`). Retrieval only picks rows the
  session user owns; it does not guarantee the bytes are ones that user
  uploaded.
- Each table counts its ids on its own, so the same id can exist in two
  tables. Retrieval probes health first, then education, service and
  transport. A fresh education, service or transport row whose id the same
  user already holds in health is therefore never served; the health file
  is (`Properties.UploadShadowedByHealth`). "Upload then retrieve returns
  the uploaded bytes" holds only when no table probed earlier holds that
  id for that user (`Properties.UploadThenServe`).
- Login writes only the session's username, never its name. Logout removes
  only the username. Registration writes both.
- The web framework treats a file field whose file name is empty as "no
  file selected". A non-empty name that sanitizes to the empty string makes
  the save target the category folder itself. That save raises, so the
  request fails with nothing changed (`ServerError`).
- Retrieval and the overview page also demand that the session's user exist
  in the user table. The category pages only demand a session username.

## Model

| member | source | states |
|---|---|---|
| `Documents.Insert` | app.py:44-48 | the new row is appended at the end with the table's next id and the given owner, name and data; earlier rows are unchanged; in a valid table the new id is held by no earlier row and validity is kept |
| `Documents.Owned` | app.py:193 | the listing holds the rows of the table owned by the user and no others, and no more rows than the table; that each appears exactly once is `Documents.OwnedCounts` |
| `Documents.FindOwned` | app.py:337 | none is found exactly when no row has that id and owner; a found row is a row of the table with that id and owner and no earlier row matches |
| `Documents.Lookup` | app.py:337-351 | nothing is found exactly when no table has a matching row; otherwise the result is the first match in its table, and every table probed before it (health, education, service, transport) has none |
| `Documents.OwnedAppend` | app.py:184-193 | listing a table after appending a row gives the old listing followed by that row if the user owns it, and the old listing otherwise |
| `Documents.OwnedCounts` | app.py:193 | a listing holds each row the user owns exactly as many times as the table does (once, in a valid table) and holds no row of anyone else |
| `Documents.FindOwnedAt` | app.py:45 | in a valid table the search by a row's id and its owner finds exactly that row |
| `Portal.Initial` | app.py:24-28 | the locker starts valid, with no users, no session, four empty tables and four empty folders |
| `Portal.Register` | app.py:90-101 | a taken username is rejected and changes nothing, the stored password included; otherwise exactly that user is added with the given details, every other user is kept, and the session's username and name become the registered ones |
| `Portal.Login` | app.py:113-124 | login succeeds exactly when the user exists and the stored password equals the given one; an unknown user is its own error; success sets only the session's username, and failure changes nothing |
| `Portal.ForgotPassword` | app.py:134-146 | a mismatch is reported exactly when the passwords differ, whether or not the user exists; an unknown user is reported only when they match; on success only that user's password changes |
| `Portal.Logout` | app.py:151-154 | the session's username is removed; its name, the users, the tables and the folders are kept |
| `Portal.CategoryRequest` | app.py:165-194 | the shared education/service/transport/health handler (app.py:165-287). Without a session it redirects and changes nothing. Without a selected file, or on a GET, nothing changes. The file is saved to the category's folder even when the user is missing. A row with the bytes just written is appended only when the user exists. No other category, the users and the session are untouched. The page lists the user's rows of that category and no others; that it is exactly the owned rows, each once, is `Properties.CategoryPageListsOwned` |
| `Portal.ViewDocuments` | app.py:290-306 | the overview exists exactly when the session's user is registered, and then lists, for each of the four categories, that user's rows and no others; that each appears exactly once is `Properties.ViewDocumentsListsOwned` |
| `Portal.Serve` | app.py:328-357 | retrieval redirects exactly when there is no session username, the user is not registered, or no table has a row with that id owned by the user |
| `Properties.RegisterTwiceKeepsFirst` | app.py:90-93 | registering a name a second time is rejected, changes nothing and keeps the first password |
| `Properties.MismatchCheckedBeforeLookup` | app.py:134-138 | a mismatched confirmation is reported, with nothing changed, even for an unknown user |
| `Properties.ServedBytesComeFromOwnRow` | app.py:330-355 | served bytes come only from a row with that id owned by the registered session user, read from that row's category folder under the row's file name |
| `Properties.OthersDocumentsNotServed` | app.py:337-351 | an id whose rows all belong to other users is never served, only redirected |
| `Properties.ServeFirstHit` | app.py:337-355 | when the first matching table in probe order is c with row r, retrieval serves c's folder entry under r's file name, or reports it missing |
| `Properties.CategoryPageListsOwned` | app.py:193 | every category page lists exactly the user's rows of that category after the request, each once, in table order |
| `Properties.ViewDocumentsListsOwned` | app.py:297-300 | the overview lists, for every category, exactly the user's rows, each once, in table order |
| `Properties.UploadThenList` | app.py:180-193 | after an upload by a registered user the page lists the user's earlier rows of that category followed by the new row: fresh id, owner, sanitized name and the uploaded bytes |
| `Properties.UploadThenServe` | app.py:174-186 | after such an upload, retrieving the new id returns the uploaded bytes when no earlier-probed table holds that id for the user |
| `Properties.UploadShadowedByHealth` | app.py:337-343 | when the user's health table already holds the new id of an upload to another category, retrieving that id serves the health file instead |
| `Properties.StaleBytesAfterReupload` | app.py:174-186 | two uploads under one sanitized name add two rows, and the first row's data is the first upload's bytes. Retrieving the first row nevertheless serves the second upload's bytes |
| `Properties.OtherUserOverwritesFile` | app.py:174-176 | alice uploads a file, bob logs in and uploads one with the same sanitized name into the same category, alice logs back in: her row still holds her bytes as data, yet retrieving it serves bob's bytes |
| `Properties.InitialConsistent` | app.py:72-73 | the initial locker is consistent: session user registered, every row's owner registered, every row's file present in its folder |
| `Properties.RegisterKeepsConsistent` | app.py:95-100 | registration keeps the locker consistent |
| `Properties.LoginKeepsConsistent` | app.py:115-117 | login keeps the locker consistent |
| `Properties.ForgotPasswordKeepsConsistent` | app.py:140-142 | password reset keeps the locker consistent |
| `Properties.LogoutKeepsConsistent` | app.py:153 | logout keeps the locker consistent |
| `Properties.CategoryRequestKeepsConsistent` | app.py:173-186 | a category request keeps the locker consistent: a new row's owner is registered and its file was just written |
| `Properties.ConsistentUploadFindsUser` | app.py:180-189 | in a consistent locker an upload never reports "User not found" |
| `Properties.ConsistentServeNeverMissing` | app.py:353-355 | in a consistent locker a found row's file is always present in its folder |
| `Properties.AliceUploadsReport` | app.py:165-194 | alice registers and uploads report.pdf to education: the page lists that one document with id 1, and retrieving id 1 returns exactly its bytes |
| `Locker.DigitalLocker.constructor` | app.py:24-28 | a new locker is valid and equal to the initial state |
| `Locker.DigitalLocker.Registration` | app.py:82-103 | updates the user table and session in place exactly as `Portal.Register` describes, keeping validity |
| `Locker.DigitalLocker.LogIn` | app.py:106-124 | updates the session in place exactly as `Portal.Login` describes |
| `Locker.DigitalLocker.ResetPassword` | app.py:127-148 | assigns the user's password in place exactly as `Portal.ForgotPassword` describes |
| `Locker.DigitalLocker.LogOut` | app.py:151-154 | pops the session's username exactly as `Portal.Logout` describes |
| `Locker.DigitalLocker.CategoryPage` | app.py:165-194 | overwrites the folder entry, then appends the row read back from it, exactly as `Portal.CategoryRequest` describes, keeping validity |

## Left out

- Routing, templates, flash rendering and redirects: handlers return outcome tags instead of HTTP responses.
- GET requests of the identity pages, which only render a form, and the home page (app.py:76-80), which only reads the session.
- The download's streaming and its 404 response: a row whose file is absent is the outcome `FileMissing`.
- Database and folder creation at startup (app.py:9-30, app.py:72-73): the model starts from `Portal.Initial`.
- Database internals: ids are a per-table counter starting at 1, which matches SQLite's row ids because rows are never deleted. The queries have no `ORDER BY`, so SQL promises no order; the model lists rows in insertion order, which is the rowid order this un-indexed table scan gives in practice.
- The character rules of `secure_filename`: a foreign library, kept as the uninterpreted `sanitize`.
- The `/upload` route (app.py:309-325): it uses a `Document` model that is never defined, so it cannot run.
- `save_uploaded_file` (app.py:157-163): it is never called.
- A POST whose form lacks the `document` field: reading `request.files['document']` (app.py:171) fails with a 400 error after the session check, so without a session such a POST still redirects to the login form.
- Column widths (`String(12)` and the others): SQLite does not enforce them.
- Password hashing: the code stores and compares plain text, and so does the model.
- Concurrent requests racing on one file name: the model is sequential.
- Failures of the disk or the database other than saving to the bare folder path.
- Documents.Owned: its own contract states which rows are listed, not how often; the multiplicity is stated by `Documents.OwnedCounts`, because on `Owned` itself that clause makes its callers' proofs too costly.
- Portal.CategoryRequest: its own contract states which rows the page lists; that the listing is exactly `Owned` of the new table is `Properties.CategoryPageListsOwned`, for the same cost reason.
- Portal.ViewDocuments: its own contract states which rows each category lists; that each listing is exactly `Owned` of its table is `Properties.ViewDocumentsListsOwned`.
- Portal.Serve: its own contract states only when retrieval redirects; what it serves is stated by `Properties.ServedBytesComeFromOwnRow` and `Properties.ServeFirstHit`.
