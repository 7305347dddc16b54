/** The locker's state as one value — the user table, the four document
    tables, the four upload folders and the session — and one pure step
    function per request handler. Each step returns the new state and the
    handler's outcome; the contracts say what each handler promises. */
module Portal {
  import opened Documents

  datatype User = User(name: string, email: string, password: string)

  /** The browser session: `session['username']` and `session['name']`. */
  datatype Session = Session(username: Option<string>, name: Option<string>)

  /** An uploaded form field: its client-side file name and its bytes. An
      empty file name is a field without a selected file. */
  datatype FileField = FileField(filename: string, content: Bytes)

  datatype State = State(
    users: map<string, User>,
    tables: map<Category, Table>,
    disks: map<Category, map<string, Bytes>>,
    session: Session)

  datatype RegisterOutcome = Registered | UsernameTaken
  datatype LoginOutcome = LoggedIn | InvalidPassword | NotRegistered
  datatype ResetOutcome = PasswordReset | PasswordMismatch | NoSuchUser

  /** The flash message a category page carries. */
  datatype Flash = NoMessage | UploadSucceeded | UserNotFound | NoFileSelected

  /** A category page: a redirect to the login form, a failed save, or the
      page listing the session user's documents of that category. */
  datatype PageOutcome = RedirectToLogin | ServerError | Page(flash: Flash, documents: seq<Row>)

  /** Document retrieval: the file's bytes, the row's file absent from its
      folder, or a redirect to the login form. */
  datatype ServeOutcome = Sent(data: Bytes) | FileMissing | ServeRedirect

  /** Every category has its table and its folder, and every table is valid. */
  predicate Valid(st: State) {
    HasAllTables(st.tables) &&
    (forall c: Category :: c in st.disks) &&
    (forall c: Category :: TableValid(st.tables[c]))
  }

  function Initial(): (st: State)
    ensures Valid(st)
    ensures st.users == map[] && st.session == Session(None, None)
    ensures forall c: Category :: st.tables[c].rows == [] && st.disks[c] == map[]
  {
    State(map[], ByCategory(_ => EmptyTable), ByCategory(_ => map[]), Session(None, None))
  }

  /** Registration: a taken username changes nothing; otherwise the user is
      added and logged in. */
  function Register(st: State, username: string, name: string, email: string, password: string)
    : (r: (State, RegisterOutcome))
    ensures r.1 == UsernameTaken <==> username in st.users
    ensures r.1 == UsernameTaken ==> r.0 == st
    ensures r.1 == Registered ==>
              r.0.users.Keys == st.users.Keys + {username} &&
              r.0.users[username] == User(name, email, password) &&
              (forall v :: v in st.users ==> r.0.users[v] == st.users[v]) &&
              r.0.session == Session(Some(username), Some(name))
    ensures r.0.tables == st.tables && r.0.disks == st.disks
  {
    if username in st.users then (st, UsernameTaken)
    else
      (st.(users := st.users[username := User(name, email, password)],
           session := Session(Some(username), Some(name))),
       Registered)
  }

  /** Login: plain-text password comparison; only the session's username is
      written, and only on success. */
  function Login(st: State, username: string, password: string): (r: (State, LoginOutcome))
    ensures r.1 == LoggedIn <==> username in st.users && st.users[username].password == password
    ensures r.1 == NotRegistered <==> username !in st.users
    ensures r.1 == LoggedIn ==> r.0 == st.(session := Session(Some(username), st.session.name))
    ensures r.1 != LoggedIn ==> r.0 == st
  {
    if username in st.users then
      if st.users[username].password == password then
        (st.(session := st.session.(username := Some(username))), LoggedIn)
      else (st, InvalidPassword)
    else (st, NotRegistered)
  }

  /** Password reset: the confirmation is compared before the user is looked
      up; on success exactly that user's password changes. */
  function ForgotPassword(st: State, username: string, password: string, confirm: string)
    : (r: (State, ResetOutcome))
    ensures r.1 == PasswordMismatch <==> password != confirm
    ensures r.1 == NoSuchUser <==> password == confirm && username !in st.users
    ensures r.1 != PasswordReset ==> r.0 == st
    ensures r.1 == PasswordReset ==>
              r.0.users.Keys == st.users.Keys &&
              r.0.users[username] == st.users[username].(password := password) &&
              (forall v :: v in st.users && v != username ==> r.0.users[v] == st.users[v]) &&
              r.0.tables == st.tables && r.0.disks == st.disks && r.0.session == st.session
  {
    if password != confirm then (st, PasswordMismatch)
    else if username in st.users then
      (st.(users := st.users[username := st.users[username].(password := password)]), PasswordReset)
    else (st, NoSuchUser)
  }

  /** Logout drops the session's username and keeps its name. */
  function Logout(st: State): (r: State)
    ensures r.session.username.None? && r.session.name == st.session.name
    ensures r.users == st.users && r.tables == st.tables && r.disks == st.disks
  {
    st.(session := st.session.(username := None))
  }

  /** A category request writes to disk: a logged-in POST whose file field
      names a file that survives sanitizing. */
  predicate Writes(st: State, upload: Option<FileField>, sanitize: string -> string) {
    st.session.username.Some? && upload.Some? && upload.value.filename != "" &&
    sanitize(upload.value.filename) != ""
  }

  /** One category handler, shared by the four categories. `upload` is the
      POSTed file field, `None` for a GET. The file is saved under its
      sanitized name before the owner is looked up; the row's `data` is what
      was read back from that file. The page lists the session user's rows. */
  function CategoryRequest(st: State, c: Category, upload: Option<FileField>, sanitize: string -> string)
    : (r: (State, PageOutcome))
    requires Valid(st)
    ensures Valid(r.0)
    ensures r.1 == RedirectToLogin <==> st.session.username.None?
    ensures r.1 == ServerError <==>
              st.session.username.Some? && upload.Some? && upload.value.filename != "" &&
              sanitize(upload.value.filename) == ""
    ensures !Writes(st, upload, sanitize) ==> r.0 == st
    ensures r.0.users == st.users && r.0.session == st.session
    ensures forall d: Category :: d != c ==> r.0.tables[d] == st.tables[d] && r.0.disks[d] == st.disks[d]
    ensures Writes(st, upload, sanitize) ==>
              r.0.disks[c] == st.disks[c][sanitize(upload.value.filename) := upload.value.content]
    ensures Writes(st, upload, sanitize) && st.session.username.value in st.users ==>
              r.0.tables[c] == Insert(st.tables[c], st.session.username.value,
                                      sanitize(upload.value.filename), upload.value.content) &&
              r.1.Page? && r.1.flash == UploadSucceeded
    ensures Writes(st, upload, sanitize) && st.session.username.value !in st.users ==>
              r.0.tables[c] == st.tables[c] && r.1.Page? && r.1.flash == UserNotFound
    ensures st.session.username.Some? && upload.Some? && upload.value.filename == "" ==>
              r.1.Page? && r.1.flash == NoFileSelected
    ensures st.session.username.Some? && upload.None? ==> r.1.Page? && r.1.flash == NoMessage
    ensures r.1.Page? ==>
              forall x :: x in r.1.documents <==> x in r.0.tables[c].rows && x.userId == st.session.username.value
  {
    if st.session.username.None? then (st, RedirectToLogin)
    else
      var u := st.session.username.value;
      if upload.None? then (st, Page(NoMessage, Owned(st.tables[c].rows, u)))
      else if upload.value.filename == "" then (st, Page(NoFileSelected, Owned(st.tables[c].rows, u)))
      else
        var name := sanitize(upload.value.filename);
        // saving to the bare folder path fails: the request ends in an error
        if name == "" then (st, ServerError)
        else
          var written := st.(disks := st.disks[c := st.disks[c][name := upload.value.content]]);
          if u in st.users then
            var data := written.disks[c][name];
            var st' := written.(tables := st.tables[c := Insert(st.tables[c], u, name, data)]);
            (st', Page(UploadSucceeded, Owned(st'.tables[c].rows, u)))
          else (written, Page(UserNotFound, Owned(st.tables[c].rows, u)))
  }

  /** The overview page: the session user's rows of every category, or a
      redirect when nobody registered is logged in. */
  function ViewDocuments(st: State): (r: Option<map<Category, seq<Row>>>)
    requires Valid(st)
    ensures r.Some? <==> st.session.username.Some? && st.session.username.value in st.users
    ensures r.Some? ==>
              forall c: Category :: c in r.value &&
                (forall x :: x in r.value[c] <==> x in st.tables[c].rows && x.userId == st.session.username.value)
  {
    if st.session.username.Some? && st.session.username.value in st.users then
      var u := st.session.username.value;
      Some(ByCategory(c => Owned(st.tables[c].rows, u)))
    else None
  }

  /** Document retrieval: the first table in probe order holding a row with
      this id owned by the session user decides; its file is served from that
      category's folder under the row's file name, not from the row's data. */
  function Serve(st: State, id: nat): (r: ServeOutcome)
    requires Valid(st)
    ensures r == ServeRedirect <==>
              st.session.username.None? || st.session.username.value !in st.users ||
              forall c: Category :: FindOwned(st.tables[c].rows, id, st.session.username.value).None?
  {
    if st.session.username.None? || st.session.username.value !in st.users then ServeRedirect
    else
      var u := st.session.username.value;
      match Lookup(st.tables, id, u)
      case None => ServeRedirect
      case Some((c, row)) =>
        if row.filename in st.disks[c] then Sent(st.disks[c][row.filename]) else FileMissing
  }
}
