/** The users table shared by registration and login: one row per account,
    whose `password` column holds the bcrypt hash. */
module Users {
  import opened Http

  datatype UserRow = UserRow(id: nat, email: string, password: string)

  /** The `{ email, password }` JSON body both auth routes read; `None`
      stands for a field the body lacks. */
  datatype Credentials = Credentials(email: Option<string>, password: Option<string>)

  /** Both fields are present and non-empty. */
  predicate CredentialsGiven(c: Credentials) {
    Given(c.email) && Given(c.password)
  }

  /** No two rows share an email. */
  predicate EmailsUnique(rows: seq<UserRow>) {
    forall i, j :: 0 <= i < j < |rows| ==> rows[i].email != rows[j].email
  }

  /** `SELECT * FROM users WHERE email = $1` and its first row: the
      earliest row with that email, if any. */
  function FindByEmail(rows: seq<UserRow>, email: string): (u: Option<UserRow>)
    ensures u.None? <==> forall r :: r in rows ==> r.email != email
    ensures u.Some? ==> u.value in rows && u.value.email == email
  {
    if rows == [] then None
    else if rows[0].email == email then Some(rows[0])
    else FindByEmail(rows[1..], email)
  }

  /** Appending a row changes a lookup only for an email no earlier row
      has: earlier rows win. */
  lemma {:induction false} FindByEmailAppend(rows: seq<UserRow>, row: UserRow, email: string)
    ensures FindByEmail(rows + [row], email) ==
              if FindByEmail(rows, email).Some? then FindByEmail(rows, email)
              else if row.email == email then Some(row)
              else None
  {
    if rows != [] {
      assert (rows + [row])[1..] == rows[1..] + [row];
      FindByEmailAppend(rows[1..], row, email);
    }
  }

  /** With unique emails the lookup finds the one row with that email. */
  lemma FindByEmailUnique(rows: seq<UserRow>, i: nat)
    requires EmailsUnique(rows) && i < |rows|
    ensures FindByEmail(rows, rows[i].email) == Some(rows[i])
  {
  }

  /** The users table in insertion order, with the serial counter the
      store draws identifiers from. */
  class UserTable {
    var rows: seq<UserRow>
    var nextId: nat

    ghost predicate Valid()
      reads this
    {
      (forall i :: 0 <= i < |rows| ==> rows[i].id < nextId) &&
      (forall i, j :: 0 <= i < j < |rows| ==> rows[i].id < rows[j].id)
    }

    constructor ()
      ensures Valid() && rows == []
    {
      rows := [];
      nextId := 1;
    }

    /** `INSERT INTO users (email, password) ... RETURNING id, email`. */
    method Insert(email: string, passwordHash: string) returns (row: UserRow)
      requires Valid()
      modifies this
      ensures Valid()
      ensures row == UserRow(old(nextId), email, passwordHash)
      ensures rows == old(rows) + [row]
      ensures forall u :: u in old(rows) ==> u.id != row.id
    {
      row := UserRow(nextId, email, passwordHash);
      rows := rows + [row];
      nextId := nextId + 1;
    }
  }
}
