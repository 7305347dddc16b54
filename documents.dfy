/** The four per-category document tables of the locker: their rows, the
    auto-increment id of a table, the per-user listing and the first-match
    search that document retrieval runs over the tables in a fixed order. */
module Documents {

  type Bytes = seq<bv8>

  datatype Option<+T> = None | Some(value: T)

  /** The four fixed document categories; each has its own table and its own
      upload folder. */
  datatype Category = Education | Health | Service | Transport

  /** One row of a category table: `user_id` is the owner's username, `data`
      the bytes read back from disk when the row was inserted. */
  datatype Row = Row(id: nat, userId: string, filename: string, data: Bytes)

  /** A table is its rows in insertion order and the id the next inserted
      row receives. */
  datatype Table = Table(rows: seq<Row>, nextId: nat)

  const EmptyTable: Table := Table([], 1)

  /** Ids in insertion order are strictly increasing and below the counter,
      so the counter is always a fresh id. */
  predicate TableValid(t: Table) {
    1 <= t.nextId &&
    (forall i :: 0 <= i < |t.rows| ==> t.rows[i].id < t.nextId) &&
    (forall i, j :: 0 <= i < j < |t.rows| ==> t.rows[i].id < t.rows[j].id)
  }

  predicate HasId(rows: seq<Row>, id: nat) {
    exists i :: 0 <= i < |rows| && rows[i].id == id
  }

  /** Adding a document row: the table assigns the next id. */
  function Insert(t: Table, userId: string, filename: string, data: Bytes): (r: Table)
    ensures |r.rows| == |t.rows| + 1 && r.rows[..|t.rows|] == t.rows
    ensures r.rows[|t.rows|] == Row(t.nextId, userId, filename, data)
    ensures TableValid(t) ==> TableValid(r) && !HasId(t.rows, r.rows[|t.rows|].id)
  {
    Table(t.rows + [Row(t.nextId, userId, filename, data)], t.nextId + 1)
  }

  /** The rows a user owns, in table order: `filter_by(user_id=u).all()`. */
  function Owned(rows: seq<Row>, u: string): (r: seq<Row>)
    ensures |r| <= |rows|
    ensures forall x :: x in r <==> x in rows && x.userId == u
  {
    if rows == [] then []
    else (if rows[0].userId == u then [rows[0]] else []) + Owned(rows[1..], u)
  }

  predicate Matches(x: Row, id: nat, u: string) {
    x.id == id && x.userId == u
  }

  /** The first row with the given id and owner: `filter_by(id=id, user_id=u).first()`. */
  function FindOwned(rows: seq<Row>, id: nat, u: string): (r: Option<Row>)
    ensures r.None? <==> forall x :: x in rows ==> !Matches(x, id, u)
    ensures r.Some? ==> exists i :: 0 <= i < |rows| && rows[i] == r.value && Matches(r.value, id, u) &&
                                    forall j :: 0 <= j < i ==> !Matches(rows[j], id, u)
  {
    if rows == [] then None
    else if Matches(rows[0], id, u) then Some(rows[0])
    else
      var r := FindOwned(rows[1..], id, u);
      assert forall x :: x in rows ==> x == rows[0] || x in rows[1..];
      if r.Some? then
        var i :| 0 <= i < |rows[1..]| && rows[1..][i] == r.value && Matches(r.value, id, u) &&
                 forall j :: 0 <= j < i ==> !Matches(rows[1..][j], id, u);
        assert rows[i + 1] == r.value;
        r
      else r
  }

  /** The order in which retrieval probes the tables: health, education,
      service, transport. */
  function Rank(c: Category): (k: nat)
    ensures k < 4
  {
    match c
    case Health => 0
    case Education => 1
    case Service => 2
    case Transport => 3
  }

  /** A map with one entry per category. */
  function ByCategory<T>(f: Category -> T): (m: map<Category, T>)
    ensures forall c: Category :: c in m && m[c] == f(c)
  {
    var m := map[Education := f(Education), Health := f(Health), Service := f(Service), Transport := f(Transport)];
    ByCategoryFull(f, m);
    m
  }

  lemma ByCategoryFull<T>(f: Category -> T, m: map<Category, T>)
    requires m == map[Education := f(Education), Health := f(Health), Service := f(Service), Transport := f(Transport)]
    ensures forall c: Category :: c in m && m[c] == f(c)
  {
    forall c: Category ensures c in m && m[c] == f(c) {
      match c
      case Education =>
      case Health =>
      case Service =>
      case Transport =>
    }
  }

  predicate HasAllTables(tables: map<Category, Table>) {
    forall c: Category :: c in tables
  }

  /** Retrieval's search: the first category, in probe order, whose table has
      a row with this id owned by `u`, together with that row. */
  function Lookup(tables: map<Category, Table>, id: nat, u: string): (r: Option<(Category, Row)>)
    requires HasAllTables(tables)
    ensures r.None? <==> forall c: Category :: FindOwned(tables[c].rows, id, u).None?
    ensures r.Some? ==> FindOwned(tables[r.value.0].rows, id, u) == Some(r.value.1)
    ensures r.Some? ==> forall c: Category :: Rank(c) < Rank(r.value.0) ==> FindOwned(tables[c].rows, id, u).None?
  {
    var health := FindOwned(tables[Health].rows, id, u);
    var education := FindOwned(tables[Education].rows, id, u);
    var service := FindOwned(tables[Service].rows, id, u);
    var transport := FindOwned(tables[Transport].rows, id, u);
    if health.Some? then Some((Health, health.value))
    else if education.Some? then Some((Education, education.value))
    else if service.Some? then Some((Service, service.value))
    else if transport.Some? then Some((Transport, transport.value))
    else
      NoMatchInAnyTable(tables, id, u);
      None
  }

  /** A miss in each of the four tables is a miss in every table. */
  lemma NoMatchInAnyTable(tables: map<Category, Table>, id: nat, u: string)
    requires HasAllTables(tables)
    requires FindOwned(tables[Health].rows, id, u).None? && FindOwned(tables[Education].rows, id, u).None?
    requires FindOwned(tables[Service].rows, id, u).None? && FindOwned(tables[Transport].rows, id, u).None?
    ensures forall c: Category :: FindOwned(tables[c].rows, id, u).None?
  {
    forall c: Category ensures FindOwned(tables[c].rows, id, u).None? {
      match c
      case Health =>
      case Education =>
      case Service =>
      case Transport =>
    }
  }

  /** Listing a table after an insert: the owner's listing grows by the new
      row at its end, and nobody else's listing changes. */
  lemma {:induction false} OwnedAppend(rows: seq<Row>, x: Row, u: string)
    ensures Owned(rows + [x], u) == Owned(rows, u) + (if x.userId == u then [x] else [])
  {
    if rows != [] {
      assert (rows + [x])[1..] == rows[1..] + [x];
      OwnedAppend(rows[1..], x, u);
    }
  }

  /** A listing holds each row the user owns exactly as often as the table
      does, and no other row: nothing is dropped or repeated. */
  lemma {:induction false} OwnedCounts(rows: seq<Row>, u: string)
    ensures forall x :: multiset(Owned(rows, u))[x] == if x.userId == u then multiset(rows)[x] else 0
  {
    if rows != [] {
      assert rows == [rows[0]] + rows[1..];
      OwnedCounts(rows[1..], u);
    }
  }

  /** In a valid table the row holding a given id is unique, so the search by
      id and owner finds exactly the row at that position when the owner
      matches. */
  lemma FindOwnedAt(t: Table, i: nat, u: string)
    requires TableValid(t) && i < |t.rows| && t.rows[i].userId == u
    ensures FindOwned(t.rows, t.rows[i].id, u) == Some(t.rows[i])
  {
    assert t.rows[i] in t.rows;
    var r := FindOwned(t.rows, t.rows[i].id, u);
    var k :| 0 <= k < |t.rows| && t.rows[k] == r.value && Matches(r.value, t.rows[i].id, u) &&
             forall j :: 0 <= j < k ==> !Matches(t.rows[j], t.rows[i].id, u);
    if k < i {
      assert t.rows[k].id < t.rows[i].id;
    } else if i < k {
      assert t.rows[i].id < t.rows[k].id;
    }
  }
}
