/** Properties that relate several handler calls: upload followed by listing
    or retrieval, the stale bytes an older row serves after a same-named
    re-upload (by the same or by another user), which table wins retrieval,
    which rows retrieval and the listings use, and the consistency every
    handler keeps. */
module Properties {
  import opened Documents
  import opened Portal

  /** The row an upload through a logged-in, registered session appends. */
  function NewRow(st: State, c: Category, f: FileField, sanitize: string -> string): Row
    requires Valid(st) && st.session.username.Some?
  {
    Row(st.tables[c].nextId, st.session.username.value, sanitize(f.filename), f.content)
  }

  // ---------------------------------------------------------------- identity

  /** Registering a taken name is rejected and keeps the first password. */
  lemma RegisterTwiceKeepsFirst(st: State, username: string, name1: string, email1: string, password1: string,
                                name2: string, email2: string, password2: string)
    requires username !in st.users
    ensures var s1 := Register(st, username, name1, email1, password1).0;
            Register(s1, username, name2, email2, password2) == (s1, UsernameTaken) &&
            s1.users[username].password == password1
  {
  }

  /** A mismatched confirmation wins over an unknown user. */
  lemma MismatchCheckedBeforeLookup(st: State, username: string, password: string, confirm: string)
    requires password != confirm && username !in st.users
    ensures ForgotPassword(st, username, password, confirm) == (st, PasswordMismatch)
  {
  }

  // --------------------------------------------------------------- retrieval

  /** Bytes are only ever served from a row that the logged-in, registered
      user owns, read from that row's category folder under its file name. */
  lemma ServedBytesComeFromOwnRow(st: State, id: nat)
    requires Valid(st) && Serve(st, id).Sent?
    ensures st.session.username.Some? && st.session.username.value in st.users
    ensures exists c: Category, i :: 0 <= i < |st.tables[c].rows| &&
              Matches(st.tables[c].rows[i], id, st.session.username.value) &&
              st.tables[c].rows[i].filename in st.disks[c] &&
              Serve(st, id).data == st.disks[c][st.tables[c].rows[i].filename]
  {
    var u := st.session.username.value;
    var hit := Lookup(st.tables, id, u);
    var c := hit.value.0;
    var i :| 0 <= i < |st.tables[c].rows| && st.tables[c].rows[i] == hit.value.1 &&
             Matches(hit.value.1, id, u) && forall j :: 0 <= j < i ==> !Matches(st.tables[c].rows[j], id, u);
    assert Matches(st.tables[c].rows[i], id, u);
  }

  /** A document id that no row of the session user carries is never served,
      whoever else owns rows with that id. */
  lemma OthersDocumentsNotServed(st: State, id: nat)
    requires Valid(st) && st.session.username.Some?
    requires forall c: Category, x :: x in st.tables[c].rows && x.id == id ==> x.userId != st.session.username.value
    ensures Serve(st, id) == ServeRedirect
  {
  }

  /** The first table in probe order (health, education, service, transport)
      that holds a matching row decides what is served. */
  lemma ServeFirstHit(st: State, id: nat, c: Category, row: Row)
    requires Valid(st) && st.session.username.Some? && st.session.username.value in st.users
    requires FindOwned(st.tables[c].rows, id, st.session.username.value) == Some(row)
    requires forall d: Category :: Rank(d) < Rank(c) ==> FindOwned(st.tables[d].rows, id, st.session.username.value).None?
    ensures Serve(st, id) == if row.filename in st.disks[c] then Sent(st.disks[c][row.filename]) else FileMissing
  {
    var u := st.session.username.value;
    match c
    case Health =>
    case Education =>
      assert Rank(Health) < Rank(c);
    case Service =>
      assert Rank(Health) < Rank(c) && Rank(Education) < Rank(c);
    case Transport =>
      assert Rank(Health) < Rank(c) && Rank(Education) < Rank(c) && Rank(Service) < Rank(c);
  }

  // ------------------------------------------------------------------ upload

  /** A category page lists the session user's rows of that category, each
      exactly once and in table order. */
  lemma CategoryPageListsOwned(st: State, c: Category, upload: Option<FileField>, sanitize: string -> string)
    requires Valid(st)
    ensures var (s1, out) := CategoryRequest(st, c, upload, sanitize);
            out.Page? ==> out.documents == Owned(s1.tables[c].rows, st.session.username.value)
  {
  }

  /** The overview lists, for every category, the session user's rows of
      that category, each exactly once and in table order. */
  lemma ViewDocumentsListsOwned(st: State)
    requires Valid(st)
    ensures var shelf := ViewDocuments(st);
            shelf.Some? ==> forall c: Category :: shelf.value[c] == Owned(st.tables[c].rows, st.session.username.value)
  {
  }

  /** After an upload, the page lists exactly the user's earlier rows of that
      category followed by the new row. */
  lemma UploadThenList(st: State, c: Category, f: FileField, sanitize: string -> string)
    requires Valid(st) && Writes(st, Some(f), sanitize) && st.session.username.value in st.users
    ensures CategoryRequest(st, c, Some(f), sanitize).1 ==
              Page(UploadSucceeded, Owned(st.tables[c].rows, st.session.username.value) + [NewRow(st, c, f, sanitize)])
  {
    OwnedAppend(st.tables[c].rows, NewRow(st, c, f, sanitize), st.session.username.value);
  }

  /** After an upload, retrieving the new id gives back the uploaded bytes,
      unless a table probed earlier holds a row of the same user with the
      same id. */
  lemma UploadThenServe(st: State, c: Category, f: FileField, sanitize: string -> string)
    requires Valid(st) && Writes(st, Some(f), sanitize) && st.session.username.value in st.users
    requires forall d: Category :: Rank(d) < Rank(c) ==>
               FindOwned(st.tables[d].rows, st.tables[c].nextId, st.session.username.value).None?
    ensures Serve(CategoryRequest(st, c, Some(f), sanitize).0, st.tables[c].nextId) == Sent(f.content)
  {
    var s1 := CategoryRequest(st, c, Some(f), sanitize).0;
    var u := st.session.username.value;
    FindOwnedAt(s1.tables[c], |st.tables[c].rows|, u);
    ServeFirstHit(s1, st.tables[c].nextId, c, NewRow(st, c, f, sanitize));
  }

  /** The independent id counters let an older health row shadow a new row
      of another category: retrieving the new id serves the health file. */
  lemma UploadShadowedByHealth(st: State, c: Category, f: FileField, sanitize: string -> string, row: Row)
    requires Valid(st) && Writes(st, Some(f), sanitize) && st.session.username.value in st.users
    requires c != Health
    requires FindOwned(st.tables[Health].rows, st.tables[c].nextId, st.session.username.value) == Some(row)
    ensures Serve(CategoryRequest(st, c, Some(f), sanitize).0, st.tables[c].nextId) ==
              if row.filename in st.disks[Health] then Sent(st.disks[Health][row.filename]) else FileMissing
  {
    var s1 := CategoryRequest(st, c, Some(f), sanitize).0;
    ServeFirstHit(s1, st.tables[c].nextId, Health, row);
  }

  /** Two uploads under the same sanitized name into one category: two rows,
      the first row's data is the first upload's bytes, yet retrieving the
      first row serves the second upload's bytes, which overwrote the file. */
  lemma StaleBytesAfterReupload(st: State, c: Category, f1: FileField, f2: FileField, sanitize: string -> string)
    requires Valid(st) && Writes(st, Some(f1), sanitize) && st.session.username.value in st.users
    requires sanitize(f2.filename) == sanitize(f1.filename) && f2.filename != ""
    requires forall d: Category :: Rank(d) < Rank(c) ==>
               FindOwned(st.tables[d].rows, st.tables[c].nextId, st.session.username.value).None?
    ensures var s1 := CategoryRequest(st, c, Some(f1), sanitize).0;
            var s2 := CategoryRequest(s1, c, Some(f2), sanitize).0;
            var first := s2.tables[c].rows[|st.tables[c].rows|];
            |s2.tables[c].rows| == |st.tables[c].rows| + 2 &&
            first.id == st.tables[c].nextId && first.data == f1.content &&
            Serve(s2, first.id) == Sent(f2.content)
  {
    var u := st.session.username.value;
    var s1 := CategoryRequest(st, c, Some(f1), sanitize).0;
    var s2 := CategoryRequest(s1, c, Some(f2), sanitize).0;
    var n := |st.tables[c].rows|;
    assert Writes(s1, Some(f2), sanitize);
    assert s2.tables[c].rows[..n + 1] == s1.tables[c].rows;
    var first := s2.tables[c].rows[n];
    assert first == NewRow(st, c, f1, sanitize);
    FindOwnedAt(s2.tables[c], n, u);
    ServeFirstHit(s2, first.id, c, first);
  }

  /** Folders are keyed by file name alone, not by owner: after user u
      uploads a file, another user v who logs in and uploads a file of the
      same sanitized name into the same category overwrites it, and u's row,
      retrieved by u after logging back in, serves v's bytes. */
  lemma OtherUserOverwritesFile(st: State, c: Category, f1: FileField, f2: FileField, sanitize: string -> string,
                                v: string, pv: string, pu: string, s1: State, s2: State, s3: State, s4: State)
    requires Valid(st) && Writes(st, Some(f1), sanitize) && st.session.username.value in st.users
    requires v in st.users && v != st.session.username.value && st.users[v].password == pv
    requires st.users[st.session.username.value].password == pu
    requires sanitize(f2.filename) == sanitize(f1.filename) && f2.filename != ""
    requires forall d: Category :: Rank(d) < Rank(c) ==>
               FindOwned(st.tables[d].rows, st.tables[c].nextId, st.session.username.value).None?
    requires s1 == CategoryRequest(st, c, Some(f1), sanitize).0
    requires s2 == Login(s1, v, pv).0
    requires s3 == CategoryRequest(s2, c, Some(f2), sanitize).0
    requires s4 == Login(s3, st.session.username.value, pu).0
    ensures |s4.tables[c].rows| == |st.tables[c].rows| + 2
    ensures var mine := s4.tables[c].rows[|st.tables[c].rows|];
            var theirs := s4.tables[c].rows[|st.tables[c].rows| + 1];
            mine.userId == st.session.username.value && mine.data == f1.content && theirs.userId == v &&
            Serve(s4, mine.id) == Sent(f2.content)
  {
    var u := st.session.username.value;
    UploadThenSwitchUser(st, c, f1, sanitize, v, pv, s1, s2);
    assert Writes(s2, Some(f2), sanitize) && s2.users == st.users;
    UploadThenSwitchUser(s2, c, f2, sanitize, u, pu, s3, s4);
    TwoUploadsOneFile(st, s2, s4, c, f1, f2, sanitize);
  }

  /** Two same-named uploads into one category, the first by the user who
      is logged in at the end: whoever made the second upload, that user's
      first row serves the second upload's bytes. */
  lemma TwoUploadsOneFile(st: State, s2: State, s4: State, c: Category, f1: FileField, f2: FileField,
                          sanitize: string -> string)
    requires Valid(st) && st.session.username.Some?
    requires Valid(s2) && s2.session.username.Some? && Valid(s4) && s4.users == st.users
    requires s4.session.username == st.session.username && st.session.username.value in st.users
    requires sanitize(f2.filename) == sanitize(f1.filename)
    requires s2.tables[c].rows == st.tables[c].rows + [NewRow(st, c, f1, sanitize)]
    requires s4.tables[c].rows == s2.tables[c].rows + [NewRow(s2, c, f2, sanitize)]
    requires s4.disks[c] == s2.disks[c][sanitize(f2.filename) := f2.content]
    requires forall d: Category :: d != c ==> s2.tables[d] == st.tables[d] && s4.tables[d] == s2.tables[d]
    requires forall d: Category :: Rank(d) < Rank(c) ==>
               FindOwned(st.tables[d].rows, st.tables[c].nextId, st.session.username.value).None?
    ensures |s4.tables[c].rows| == |st.tables[c].rows| + 2
    ensures s4.tables[c].rows[|st.tables[c].rows|] == NewRow(st, c, f1, sanitize)
    ensures Serve(s4, st.tables[c].nextId) == Sent(f2.content)
  {
    var n := |st.tables[c].rows|;
    var mine := NewRow(st, c, f1, sanitize);
    assert |s2.tables[c].rows| == n + 1 && s2.tables[c].rows[n] == mine;
    assert s4.tables[c].rows[n] == s2.tables[c].rows[n];
    assert mine.id == st.tables[c].nextId;
    assert mine.filename in s4.disks[c] && s4.disks[c][mine.filename] == f2.content;
    forall d: Category | Rank(d) < Rank(c)
      ensures FindOwned(s4.tables[d].rows, mine.id, mine.userId).None?
    {
      assert d != c;
    }
    ServeOwnRowAt(s4, c, n);
  }

  /** An upload followed by a login as a registered user: the row and the
      file are in place, and the session now belongs to that user. */
  lemma UploadThenSwitchUser(st: State, c: Category, f: FileField, sanitize: string -> string,
                             v: string, pv: string, s1: State, s2: State)
    requires Valid(st) && Writes(st, Some(f), sanitize) && st.session.username.value in st.users
    requires v in st.users && st.users[v].password == pv
    requires s1 == CategoryRequest(st, c, Some(f), sanitize).0
    requires s2 == Login(s1, v, pv).0
    ensures Valid(s2) && s2.users == st.users && s2.session.username == Some(v)
    ensures s2.tables[c].rows == st.tables[c].rows + [NewRow(st, c, f, sanitize)]
    ensures s2.disks[c] == st.disks[c][sanitize(f.filename) := f.content]
    ensures forall d: Category :: d != c ==> s2.tables[d] == st.tables[d] && s2.disks[d] == st.disks[d]
  {
    UploadAppends(st, c, f, sanitize);
  }

  /** Retrieving a row of the session user that no earlier-probed table
      shadows serves its category folder's file. */
  lemma ServeOwnRowAt(s: State, c: Category, n: nat)
    requires Valid(s) && s.session.username.Some? && s.session.username.value in s.users
    requires n < |s.tables[c].rows| && s.tables[c].rows[n].userId == s.session.username.value
    requires s.tables[c].rows[n].filename in s.disks[c]
    requires forall d: Category :: Rank(d) < Rank(c) ==>
               FindOwned(s.tables[d].rows, s.tables[c].rows[n].id, s.session.username.value).None?
    ensures Serve(s, s.tables[c].rows[n].id) == Sent(s.disks[c][s.tables[c].rows[n].filename])
  {
    FindOwnedAt(s.tables[c], n, s.session.username.value);
    ServeFirstHit(s, s.tables[c].rows[n].id, c, s.tables[c].rows[n]);
  }

  /** What a successful upload does to the state, in one place. */
  lemma UploadAppends(st: State, c: Category, f: FileField, sanitize: string -> string)
    requires Valid(st) && Writes(st, Some(f), sanitize) && st.session.username.value in st.users
    ensures var s1 := CategoryRequest(st, c, Some(f), sanitize).0;
            s1.users == st.users && s1.session == st.session && Valid(s1) &&
            s1.tables[c].rows == st.tables[c].rows + [NewRow(st, c, f, sanitize)] &&
            s1.tables[c].nextId == st.tables[c].nextId + 1 &&
            s1.disks[c] == st.disks[c][sanitize(f.filename) := f.content] &&
            forall d: Category :: d != c ==> s1.tables[d] == st.tables[d] && s1.disks[d] == st.disks[d]
  {
  }

  // ------------------------------------------------------------- consistency

  /** What the handlers keep true of a state they build from the initial one:
      the session's user is registered, every row's owner is registered, and
      every row's file exists in its category folder. */
  predicate Consistent(st: State) {
    Valid(st) &&
    (st.session.username.Some? ==> st.session.username.value in st.users) &&
    (forall c: Category, x :: x in st.tables[c].rows ==> x.userId in st.users && x.filename in st.disks[c])
  }

  lemma InitialConsistent()
    ensures Consistent(Initial())
  {
  }

  lemma RegisterKeepsConsistent(st: State, username: string, name: string, email: string, password: string)
    requires Consistent(st)
    ensures Consistent(Register(st, username, name, email, password).0)
  {
  }

  lemma LoginKeepsConsistent(st: State, username: string, password: string)
    requires Consistent(st)
    ensures Consistent(Login(st, username, password).0)
  {
  }

  lemma ForgotPasswordKeepsConsistent(st: State, username: string, password: string, confirm: string)
    requires Consistent(st)
    ensures Consistent(ForgotPassword(st, username, password, confirm).0)
  {
  }

  lemma LogoutKeepsConsistent(st: State)
    requires Consistent(st)
    ensures Consistent(Logout(st))
  {
  }

  /** A step that changes only one category's table and folder, only grows
      the folder's names and only adds rows whose owner and file exist,
      keeps a consistent state consistent. */
  lemma OneCategoryStepKeepsConsistent(st: State, r: State, c: Category)
    requires Consistent(st) && Valid(r)
    requires r.users == st.users && r.session == st.session
    requires forall d: Category :: d != c ==> r.tables[d] == st.tables[d] && r.disks[d] == st.disks[d]
    requires st.disks[c].Keys <= r.disks[c].Keys
    requires forall x :: x in r.tables[c].rows ==>
               x in st.tables[c].rows || (x.userId in st.users && x.filename in r.disks[c])
    ensures Consistent(r)
  {
    forall d: Category, x | x in r.tables[d].rows ensures x.userId in r.users && x.filename in r.disks[d] {
      if d != c {
        assert x in st.tables[d].rows;
      }
    }
  }

  lemma CategoryRequestKeepsConsistent(st: State, c: Category, upload: Option<FileField>, sanitize: string -> string)
    requires Consistent(st)
    ensures Consistent(CategoryRequest(st, c, upload, sanitize).0)
  {
    var r := CategoryRequest(st, c, upload, sanitize).0;
    if Writes(st, upload, sanitize) {
      var u := st.session.username.value;
      var name := sanitize(upload.value.filename);
      assert r.disks[c] == st.disks[c][name := upload.value.content];
      if u in st.users {
        var t := Insert(st.tables[c], u, name, upload.value.content);
        assert r.tables[c] == t;
        assert t.rows == st.tables[c].rows + [Row(st.tables[c].nextId, u, name, upload.value.content)];
      }
      OneCategoryStepKeepsConsistent(st, r, c);
    }
  }

  /** In a consistent state an upload never reports an unknown user. */
  lemma ConsistentUploadFindsUser(st: State, c: Category, upload: Option<FileField>, sanitize: string -> string)
    requires Consistent(st)
    ensures var out := CategoryRequest(st, c, upload, sanitize).1;
            out.Page? ==> out.flash != UserNotFound
  {
  }

  /** In a consistent state the file of a found row is always present. */
  lemma ConsistentServeNeverMissing(st: State, id: nat)
    requires Consistent(st)
    ensures Serve(st, id) != FileMissing
  {
    if st.session.username.Some? && st.session.username.value in st.users {
      var hit := Lookup(st.tables, id, st.session.username.value);
      if hit.Some? {
        var c := hit.value.0;
        assert hit.value.1 in st.tables[c].rows;
      }
    }
  }

  // ---------------------------------------------------------------- scenario

  /** Register alice, upload report.pdf to education: the page lists that one
      document with id 1, and retrieving id 1 returns exactly its bytes. */
  lemma AliceUploadsReport(sanitize: string -> string, pdf: Bytes)
    requires sanitize("report.pdf") == "report.pdf"
    ensures var s1 := Register(Initial(), "alice", "Alice", "alice@example.org", "p1").0;
            var (s2, page) := CategoryRequest(s1, Education, Some(FileField("report.pdf", pdf)), sanitize);
            page == Page(UploadSucceeded, [Row(1, "alice", "report.pdf", pdf)]) &&
            Serve(s2, 1) == Sent(pdf)
  {
    var s1 := Register(Initial(), "alice", "Alice", "alice@example.org", "p1").0;
    var f := FileField("report.pdf", pdf);
    UploadThenList(s1, Education, f, sanitize);
    UploadThenServe(s1, Education, f, sanitize);
  }
}
