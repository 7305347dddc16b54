/** The running locker: one object holding the user table, the four document
    tables, the four upload folders and the session, whose handlers update
    those fields in place. Each handler is proved to leave the object in the
    state, and to return the outcome, that the matching step function of
    `Portal` gives for the state it started from; the pure handlers (the
    overview page and document retrieval) are `Portal.ViewDocuments` and
    `Portal.Serve` applied to `Snapshot()`. */
module Locker {
  import opened Documents
  import opened Portal

  class DigitalLocker {
    var users: map<string, User>
    var tables: map<Category, Table>
    var disks: map<Category, map<string, Bytes>>
    var session: Session
    /** The file-name sanitizer of the web framework, left uninterpreted. */
    const sanitize: string -> string

    function Snapshot(): State
      reads this
    {
      State(users, tables, disks, session)
    }

    predicate Valid()
      reads this
    {
      Portal.Valid(Snapshot())
    }

    /** Startup: no users, four empty tables, four empty folders, no session. */
    constructor (sanitize: string -> string)
      ensures Valid() && Snapshot() == Initial() && this.sanitize == sanitize
    {
      var init := Initial();
      users := init.users;
      tables := init.tables;
      disks := init.disks;
      session := init.session;
      this.sanitize := sanitize;
    }

    method Registration(username: string, name: string, email: string, password: string)
      returns (out: RegisterOutcome)
      requires Valid()
      modifies this
      ensures Valid()
      ensures (Snapshot(), out) == Register(old(Snapshot()), username, name, email, password)
    {
      if username in users {
        return UsernameTaken;
      }
      users := users[username := User(name, email, password)];
      session := Session(Some(username), Some(name));
      out := Registered;
    }

    method LogIn(username: string, password: string) returns (out: LoginOutcome)
      requires Valid()
      modifies this
      ensures Valid()
      ensures (Snapshot(), out) == Login(old(Snapshot()), username, password)
    {
      if username in users {
        if users[username].password == password {
          session := session.(username := Some(username));
          out := LoggedIn;
        } else {
          out := InvalidPassword;
        }
      } else {
        out := NotRegistered;
      }
    }

    method ResetPassword(username: string, password: string, confirm: string) returns (out: ResetOutcome)
      requires Valid()
      modifies this
      ensures Valid()
      ensures (Snapshot(), out) == ForgotPassword(old(Snapshot()), username, password, confirm)
    {
      if password != confirm {
        return PasswordMismatch;
      }
      if username in users {
        var user := users[username];
        users := users[username := user.(password := password)];
        out := PasswordReset;
      } else {
        out := NoSuchUser;
      }
    }

    method LogOut()
      requires Valid()
      modifies this
      ensures Valid()
      ensures Snapshot() == Logout(old(Snapshot()))
    {
      session := session.(username := None);
    }

    /** The education, health, service and transport handlers: save the
        file, then append a row holding the bytes read back from it if the
        session user exists, then list the user's rows of the category. */
    method CategoryPage(c: Category, upload: Option<FileField>) returns (out: PageOutcome)
      requires Valid()
      modifies this
      ensures Valid()
      ensures (Snapshot(), out) == CategoryRequest(old(Snapshot()), c, upload, sanitize)
    {
      if session.username.None? {
        return RedirectToLogin;
      }
      var flash := NoMessage;
      if upload.Some? {
        if upload.value.filename == "" {
          flash := NoFileSelected;
        } else {
          var name := sanitize(upload.value.filename);
          if name == "" {
            return ServerError;
          }
          disks := disks[c := disks[c][name := upload.value.content]];
          var username := session.username.value;
          if username in users {
            var data := disks[c][name];
            tables := tables[c := Insert(tables[c], username, name, data)];
            flash := UploadSucceeded;
          } else {
            flash := UserNotFound;
          }
        }
      }
      out := Page(flash, Owned(tables[c].rows, session.username.value));
    }
  }
}
