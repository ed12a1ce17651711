# DumpSense core in Dafny

A model of the logic in `app.py` of DumpSense, a Flask application where a
user registers, logs in, uploads a photo of waste, and gets back a
classification text from a generative-AI service. Two parts carry behaviour
worth stating:

* **Upload names** (`filenames.dfy`, module `FileNames`): `allowed_file` and
  its allow-list `{png, jpg, jpeg}`, the MIME type put in the classification
  request, and the stored name `str(uuid4()) + os.path.splitext(name)[1]`.
  `rfind`, `rsplit('.', 1)`, `lower`, `endswith` and POSIX `splitext` are
  written out as functions over `seq<char>`.
* **Credentials and session** (`credentials.dfy`, module `CredentialStore`;
  `webapp.dfy`, module `WebApp`): the `User` table is a sequence of rows
  with a map view `Credentials`. The two `filter_by(...).first()` queries
  are functions over the rows. The handlers `register_user`, `submit`,
  `logout`, `main`, `login_page`, `register_page` and `upload_and_classify`
  are methods of class `App`. Its fields are the table, one client's session
  (`logged_in`, `username`, where `None` means the key is absent), the upload
  folder and the log of requests sent to the classification service.
  `App.Valid` is the invariant every handler keeps:
  * usernames are unique;
  * ids are assigned in insertion order;
  * no stored name or password is empty;
  * a session is either empty or logged in as a registered user.

Form fields are `Option<string>`, because `request.form.get` returns `None`
for a missing field. A `None` name matches no row in a query, since the
column is `NOT NULL` and SQLAlchemy compares `None` with `IS NULL`. The
random upload token and the service's reply are parameters of
`UploadAndClassify`.

Three behaviours of the code worth knowing:

* A failed login leaves the session as it was: a client that is already
  logged in stays logged in. It does not clear the session.
* Login does not reject empty fields. It just never matches, because
  registration never stores an empty name or password (part of `App.Valid`).
* The stored file does not always keep the extension. A name whose last path
  component is a dotfile, such as `.png`, passes `allowed_file`, but
  `splitext` gives it no extension. So it is stored under the bare token
  (`FileNames.DotfileStoredBare`).

## Model

| member | source | states |
|---|---|---|
| `FileNames.RFind` | app.py:45 | the index of the last occurrence of the character, or -1; nothing after it is that character |
| `FileNames.AllowedFileIff` | app.py:42-45 | a name is allowed exactly when it has a dot at some position with no dot after it and the lowercased rest is png, jpg or jpeg; a name without a dot is rejected |
| `FileNames.AllowedFileIgnoresCase` | app.py:45 | two names that lowercase to the same text get the same verdict |
| `FileNames.ExtensionCaseIrrelevant` | app.py:45 | names that differ only in the case of the text after the dot get the same verdict |
| `FileNames.MimeType` | app.py:199 | every name is sent as image/jpeg or image/png |
| `FileNames.MimeTypeOfAccepted` | app.py:199 | for an allowed name the type is image/jpeg exactly when the extension is jpg or jpeg in any case, and image/png exactly when it is png |
| `FileNames.SplitExt` | app.py:173 | splitext splits the name into root and extension that concatenate back to it; the extension is empty or a dot followed by no dot and no slash |
| `FileNames.StoredNameOfAccepted` | app.py:173 | an allowed name is stored as the token, a dot and the original extension in its original case, or as the bare token when its last path component is a dotfile |
| `FileNames.DotfileStoredBare` | app.py:173 | `.png` is allowed but stored without an extension |
| `CredentialStore.FindByName` | app.py:87 | the username query finds a row with that name exactly when one exists, and never for a missing name |
| `CredentialStore.FindCredential` | app.py:120 | the login query finds a row with that name and password exactly when one exists, and never for a missing field |
| `CredentialStore.CredentialsKeys` | app.py:19-22 | the names in the credential map are exactly the names in the table |
| `CredentialStore.CredentialsAgree` | app.py:120 | with unique names, the table holds a (name, password) row exactly when the map sends the name to the password |
| `CredentialStore.InsertNew` | app.py:93-97 | inserting a row with a new name keeps names unique and adds exactly that pair to the map |
| `CredentialStore.RegisteredCanLogIn` | app.py:93-97 | after a new name is inserted, the login query with its name and password finds exactly the inserted row |
| `WebApp.App.constructor` | app.py:19-22 | a fresh application has an empty table, an empty session, no uploads and no service requests |
| `WebApp.App.LoginPage` | app.py:60-65 | the login form is shown exactly when not logged in; otherwise redirect to main |
| `WebApp.App.RegisterPage` | app.py:68-73 | the registration form is shown exactly when not logged in; otherwise redirect to main |
| `WebApp.App.MainPage` | app.py:145-151 | the main page renders exactly when logged in, and then for a registered user; otherwise redirect to login |
| `WebApp.App.RegisterUser` | app.py:76-99 | empty or missing fields and taken names leave the table unchanged; otherwise exactly one row is appended, and the map gains exactly the new pair; the invariant is kept |
| `WebApp.App.Submit` | app.py:112-128 | the session is set to the submitted name exactly when the table (equivalently the map) holds the pair; otherwise the session is unchanged |
| `WebApp.App.Logout` | app.py:137-142 | both session keys are absent afterwards, whatever they held; the table is unchanged |
| `WebApp.App.UploadAndClassify` | app.py:154-240 | login, file part, file name and extension are checked in that order; any failure returns with no upload stored and no service request; otherwise the file is stored under the token plus its extension and exactly one request with the fixed prompt and the MIME type is sent |
| `WebApp.RegisterLoginLogout` | app.py:76-151 | on a fresh application, registering, logging in, the main page, logging out and the main page again give the expected responses |

## Left out

- Flask routing, `render_template`, `redirect`/`url_for` and the text of flash messages. Responses are `Response` values naming the target route and the message.
- The `home` handler (app.py:53-57): it only renders a template from the session.
- The `uploaded_file` route (app.py:47-49): serving a file from disk is framework I/O.
- The `OperationalError` rollback, table creation and retry paths (app.py:100-105, 129-134, 226-231), and the generic database-error path of `register_user` (app.py:106-109). Database plumbing: the table is always present and writes never fail.
- `uuid.uuid4()`: the random prefix is the `token` parameter of `UploadAndClassify`.
- Saving the file, reading it back and base64-encoding it (app.py:174-179). `ApiRequest.data` holds the raw bytes, and a failing save is not modelled.
- The HTTP POST, its URL and API key, `raise_for_status` and the JSON path (app.py:181-217). The outcome is the `reply` parameter.
- Environment configuration, the secret key and upload-folder creation (app.py:11-16, 36-39).
- FileNames.Lower: only ASCII `A`-`Z` are lowercased, not all of Unicode. No other character lowercases to a dot, a slash or a letter of `png`, `jpg` or `jpeg`, so no verdict, MIME type or stored name differs.
- FileNames.SplitExt: models POSIX `os.path.splitext` (separator `/`, no alternative separator).
- The declared column lengths `String(80)` and `String(120)`: SQLite does not enforce them.
- Concurrency: one client's session against one table. The race between the name check and the insert in concurrent registrations is not modelled.
- CredentialStore.FindByName: `.first()` is taken in insertion order. With unique names at most one row can match, so the order does not change any result.
