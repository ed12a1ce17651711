/** The `User` table of app.py as a sequence of rows in insertion order, the
    two `filter_by(...).first()` queries the handlers issue, and the abstract
    view of the table as a map from username to password. */
module CredentialStore {
  import opened Wrappers

  /** A row of the `User` table. */
  datatype User = User(id: nat, username: string, password: string)

  /** The `unique=True` constraint on `username`. */
  ghost predicate UniqueNames(rows: seq<User>) {
    forall i, j :: 0 <= i < j < |rows| ==> rows[i].username != rows[j].username
  }

  predicate HasName(rows: seq<User>, name: string) {
    exists i :: 0 <= i < |rows| && rows[i].username == name
  }

  predicate HasCredential(rows: seq<User>, name: string, password: string) {
    exists i :: 0 <= i < |rows| && rows[i].username == name && rows[i].password == password
  }

  /** `User.query.filter_by(username=name).first()`; a `None` name compares
      with SQL `IS NULL` and matches no row, since the column is not nullable. */
  function FindByName(rows: seq<User>, name: Option<string>): (r: Option<User>)
    ensures r.Some? ==> r.value in rows && name == Some(r.value.username)
    ensures r.None? <==> name.None? || !HasName(rows, name.value)
  {
    if rows == [] || name.None? then None
    else if rows[0].username == name.value then Some(rows[0])
    else FindByName(rows[1..], name)
  }

  /** `User.query.filter_by(username=name, password=password).first()` */
  function FindCredential(rows: seq<User>, name: Option<string>, password: Option<string>): (r: Option<User>)
    ensures r.Some? ==> r.value in rows && name == Some(r.value.username) && password == Some(r.value.password)
    ensures r.None? <==> name.None? || password.None? || !HasCredential(rows, name.value, password.value)
  {
    if rows == [] || name.None? || password.None? then None
    else if rows[0].username == name.value && rows[0].password == password.value then Some(rows[0])
    else FindCredential(rows[1..], name, password)
  }

  /** The table seen as the credential map username -> password. */
  function Credentials(rows: seq<User>): map<string, string> {
    if rows == [] then map[]
    else Credentials(rows[..|rows| - 1])[rows[|rows| - 1].username := rows[|rows| - 1].password]
  }

  // ---------------------------------------------------------------------
  // Properties

  /** The names in the map are exactly the names in the table. */
  lemma {:induction false} CredentialsKeys(rows: seq<User>)
    ensures forall name :: name in Credentials(rows) <==> HasName(rows, name)
  {
    if rows != [] {
      var init := rows[..|rows| - 1];
      CredentialsKeys(init);
      forall name ensures name in Credentials(rows) <==> HasName(rows, name) {
        if HasName(init, name) {
          var i :| 0 <= i < |init| && init[i].username == name;
          assert rows[i] == init[i];
        }
        if HasName(rows, name) && name != rows[|rows| - 1].username {
          var i :| 0 <= i < |rows| && rows[i].username == name;
          assert init[i] == rows[i];
        }
      }
    }
  }

  /** With unique usernames the map holds exactly the table's pairs: a login
      query matches precisely when the map sends the name to the password. */
  lemma {:induction false} CredentialsAgree(rows: seq<User>, name: string, password: string)
    requires UniqueNames(rows)
    ensures HasCredential(rows, name, password) <==>
      name in Credentials(rows) && Credentials(rows)[name] == password
  {
    if rows != [] {
      var init := rows[..|rows| - 1];
      var last := rows[|rows| - 1];
      CredentialsAgree(init, name, password);
      CredentialsKeys(init);
      if name == last.username {
        assert !HasName(init, name);
        if HasCredential(rows, name, password) {
          var i :| 0 <= i < |rows| && rows[i].username == name && rows[i].password == password;
          assert i == |rows| - 1;
        }
      } else {
        if HasCredential(rows, name, password) {
          var i :| 0 <= i < |rows| && rows[i].username == name && rows[i].password == password;
          assert init[i] == rows[i];
        }
        if HasCredential(init, name, password) {
          var i :| 0 <= i < |init| && init[i].username == name && init[i].password == password;
          assert rows[i] == init[i];
        }
      }
    }
  }

  /** Appending a row whose name is new keeps usernames unique and adds
      exactly that pair to the map, leaving every other entry as it was. */
  lemma InsertNew(rows: seq<User>, u: User)
    requires UniqueNames(rows) && !HasName(rows, u.username)
    ensures UniqueNames(rows + [u])
    ensures u.username !in Credentials(rows)
    ensures Credentials(rows + [u]) == Credentials(rows)[u.username := u.password]
  {
  }

  /** After a new name is inserted, the login query with that name and
      password finds exactly the inserted row. */
  lemma RegisteredCanLogIn(rows: seq<User>, u: User)
    requires !HasName(rows, u.username)
    ensures FindCredential(rows + [u], Some(u.username), Some(u.password)) == Some(u)
  {
    var ext := rows + [u];
    assert ext[|rows|] == u;
    var r := FindCredential(ext, Some(u.username), Some(u.password));
    var i :| 0 <= i < |ext| && ext[i] == r.value;
    if i < |rows| {
      assert rows[i] == ext[i];
    }
  }

  /** Appending a row keeps every name already present. */
  lemma HasNameGrows(rows: seq<User>, u: User, name: string)
    requires HasName(rows, name)
    ensures HasName(rows + [u], name)
  {
    var i :| 0 <= i < |rows| && rows[i].username == name;
    assert (rows + [u])[i] == rows[i];
  }
}
