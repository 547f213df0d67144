/**
 * The relational `users` table: rows in id order, the AUTO_INCREMENT counter,
 * SELECT ... WHERE as a filter and INSERT under the table's UNIQUE constraints.
 */
module Users {
  import opened Options
  import opened Credentials
  import opened Wire

  /** The column collation: two strings are `=` in SQL when their collation keys agree. */
  type Collation = string -> string

  datatype UserRow = UserRow(id: int, username: string, email: string, password: PasswordHash)

  /** The table's rows in insertion (= id) order and the next AUTO_INCREMENT id. */
  datatype Table = Table(rows: seq<UserRow>, nextId: int)

  /**
   * The table invariant: ids are positive, ascending and below the counter, and
   * username and email are each UNIQUE under the collation.
   */
  predicate WellFormed(t: Table, collation: Collation)
  {
    && 1 <= t.nextId
    && (forall i :: 0 <= i < |t.rows| ==> 1 <= t.rows[i].id < t.nextId)
    && (forall i, j :: 0 <= i < j < |t.rows| ==>
          && t.rows[i].id < t.rows[j].id
          && collation(t.rows[i].username) != collation(t.rows[j].username)
          && collation(t.rows[i].email) != collation(t.rows[j].email))
  }

  /** `SELECT * FROM users WHERE p`: the matching rows, in table order. */
  function Select(rows: seq<UserRow>, p: UserRow -> bool): (r: seq<UserRow>)
    ensures |r| <= |rows|
    ensures forall u :: u in r <==> u in rows && p(u)
  {
    if rows == [] then []
    else (if p(rows[0]) then [rows[0]] else []) + Select(rows[1..], p)
  }

  /** Selecting from a table with one more row at the end. */
  lemma {:induction false} SelectAppend(rows: seq<UserRow>, x: UserRow, p: UserRow -> bool)
    ensures Select(rows + [x], p) == Select(rows, p) + (if p(x) then [x] else [])
  {
    var tail := if p(x) then [x] else [];
    if rows == [] {
      assert rows + [x] == [x];
    } else {
      var head := if p(rows[0]) then [rows[0]] else [];
      assert (rows + [x])[0] == rows[0];
      assert (rows + [x])[1..] == rows[1..] + [x];
      assert Select(rows + [x], p) == head + Select(rows[1..] + [x], p);
      SelectAppend(rows[1..], x, p);
      assert Select(rows + [x], p) == head + (Select(rows[1..], p) + tail);
      assert Select(rows, p) == head + Select(rows[1..], p);
    }
  }

  /** `const [row] = rows`: the first row of a result set, if any. */
  function First(rows: seq<UserRow>): Option<UserRow>
  {
    if rows == [] then None else Some(rows[0])
  }

  function Project(u: UserRow): PublicUser
  {
    PublicUser(u.id, u.username, u.email)
  }

  /** The WHERE conditions the handlers use. */
  function UsernameIs(collation: Collation, username: string): UserRow -> bool
  {
    (u: UserRow) => collation(u.username) == collation(username)
  }

  function EmailIs(collation: Collation, email: string): UserRow -> bool
  {
    (u: UserRow) => collation(u.email) == collation(email)
  }

  function IdIs(id: int): UserRow -> bool
  {
    (u: UserRow) => u.id == id
  }

  /** `SELECT * FROM users WHERE username = ?` */
  function FindByUsername(rows: seq<UserRow>, collation: Collation, username: string): (r: Option<UserRow>)
    ensures r.Some? ==> r.value in rows && collation(r.value.username) == collation(username)
    ensures r.None? ==> forall u :: u in rows ==> collation(u.username) != collation(username)
  {
    First(Select(rows, UsernameIs(collation, username)))
  }

  /** `SELECT * FROM users WHERE email = ?` */
  function FindByEmail(rows: seq<UserRow>, collation: Collation, email: string): (r: Option<UserRow>)
    ensures r.Some? ==> r.value in rows && collation(r.value.email) == collation(email)
    ensures r.None? ==> forall u :: u in rows ==> collation(u.email) != collation(email)
  {
    First(Select(rows, EmailIs(collation, email)))
  }

  /** `SELECT ... FROM users WHERE id = ?` */
  function FindById(rows: seq<UserRow>, id: int): (r: Option<UserRow>)
    ensures r.Some? ==> r.value in rows && r.value.id == id
    ensures r.None? ==> forall u :: u in rows ==> u.id != id
  {
    First(Select(rows, IdIs(id)))
  }

  /** The width of the `username` and `email` columns, `VARCHAR(255)`. */
  const MaxVarchar := 255

  /** The largest value of the `INT AUTO_INCREMENT` id column. */
  const MaxId := 0x7FFF_FFFF

  /**
   * Whether a value fits a `VARCHAR(255)` column: whatever lies past the
   * column width is trailing spaces only.  In strict mode the store refuses a
   * value that would lose any other character.
   */
  predicate FitsVarchar(s: string)
  {
    forall i :: MaxVarchar <= i < |s| ==> s[i] == ' '
  }

  /** The value a `VARCHAR(255)` column keeps: excess trailing spaces are cut off. */
  function Stored(s: string): (r: string)
    requires FitsVarchar(s)
    ensures |r| <= MaxVarchar
    ensures |s| <= MaxVarchar ==> r == s
    ensures r <= s && forall i :: |r| <= i < |s| ==> s[i] == ' '
  {
    if |s| <= MaxVarchar then s else s[..MaxVarchar]
  }

  /** Whether no row has this username or this email under the collation. */
  predicate KeysFree(rows: seq<UserRow>, collation: Collation, username: string, email: string)
  {
    forall u :: u in rows ==> collation(u.username) != collation(username) && collation(u.email) != collation(email)
  }

  /** Whether a row fits the column types. */
  predicate FitsColumns(t: Table, username: string, email: string)
  {
    FitsVarchar(username) && FitsVarchar(email) && t.nextId <= MaxId
  }

  /** The row an accepted INSERT adds. */
  function InsertedRow(t: Table, username: string, email: string, password: PasswordHash): UserRow
    requires FitsVarchar(username) && FitsVarchar(email)
  {
    UserRow(t.nextId, Stored(username), Stored(email), password)
  }

  /**
   * `INSERT INTO users (username, email, password) VALUES (?, ?, ?)`: the new
   * row takes the next AUTO_INCREMENT id and the values the columns keep.
   * The store refuses the row when a username or email would lose more than
   * trailing spaces, when the id would pass the INT maximum, or when the kept
   * username or email duplicates one under the collation, violating a UNIQUE
   * constraint.
   */
  function Insert(t: Table, collation: Collation, username: string, email: string, password: PasswordHash): (r: Option<Table>)
    ensures r.Some? <==> FitsColumns(t, username, email) && KeysFree(t.rows, collation, Stored(username), Stored(email))
    ensures r.Some? ==> r.value == Table(t.rows + [InsertedRow(t, username, email, password)], t.nextId + 1)
    ensures r.Some? && WellFormed(t, collation) ==> WellFormed(r.value, collation)
  {
    if !FitsColumns(t, username, email) then None
    else if FindByUsername(t.rows, collation, Stored(username)).Some? || FindByEmail(t.rows, collation, Stored(email)).Some? then None
    else
      var t' := Table(t.rows + [InsertedRow(t, username, email, password)], t.nextId + 1);
      assert WellFormed(t, collation) ==> WellFormed(t', collation) by {
        if WellFormed(t, collation) {
          forall i, j | 0 <= i < j < |t'.rows|
            ensures t'.rows[i].id < t'.rows[j].id
            ensures collation(t'.rows[i].username) != collation(t'.rows[j].username)
            ensures collation(t'.rows[i].email) != collation(t'.rows[j].email)
          {
            if j == |t.rows| {
              assert t'.rows[i] in t.rows;
            }
          }
        }
      }
      Some(t')
  }

  /** A row whose id is new is the only row the table has under that id. */
  lemma FindAppendedById(t: Table, collation: Collation, x: UserRow)
    requires WellFormed(t, collation)
    requires x.id == t.nextId
    ensures FindById(t.rows + [x], x.id) == Some(x)
  {
    var p := IdIs(x.id);
    SelectAppend(t.rows, x, p);
    if Select(t.rows, p) != [] {
      assert Select(t.rows, p)[0] in t.rows;
    }
  }

  /** A row whose username is new is the only row the table has under that username. */
  lemma FindAppendedByUsername(rows: seq<UserRow>, collation: Collation, x: UserRow)
    requires FindByUsername(rows, collation, x.username).None?
    ensures FindByUsername(rows + [x], collation, x.username) == Some(x)
  {
    var p := UsernameIs(collation, x.username);
    SelectAppend(rows, x, p);
  }
}
