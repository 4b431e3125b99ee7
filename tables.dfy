/** The `violation` and `user` tables as the request handlers change them.
    A date that fails to parse raises before the commit; a username another
    user holds makes the commit itself fail on the unique constraint. Either
    way the session is rolled back and the table stays as it was. The
    database assigns new ids; they are only promised to be fresh. */
module Tables {
  import opened Results
  import opened DateTimes
  import opened Records

  /** The `violation` table. */
  class ViolationTable {
    var rows: map<int, Violation>
    /** The largest id handed out so far. */
    var lastId: int

    ghost predicate Valid()
      reads this
    {
      && 0 <= lastId
      && forall id :: id in rows ==> 1 <= id <= lastId && rows[id].id == id
    }

    constructor ()
      ensures Valid() && rows == map[]
    {
      rows := map[];
      lastId := 0;
    }

    /** An id no row has. */
    method NewId() returns (id: int)
      requires Valid()
      modifies this
      ensures Valid() && rows == old(rows)
      ensures id !in rows && id >= 1 && id == lastId
    {
      lastId := lastId + 1;
      id := lastId;
    }

    /** `add_violation` on a POST: parse the birth date, then the violation
        time, then insert one row with the six submitted values. A date that
        does not parse raises before anything is added. */
    method Add(form: ViolationForm) returns (r: Result<int, Failure>)
      requires Valid()
      modifies this
      ensures Valid()
      ensures FormError(form).Some? ==> r == Err(FormError(form).value) && rows == old(rows)
      ensures FormError(form).None? ==>
        && r.Ok? && r.value !in old(rows)
        && rows == old(rows)[r.value := FromForm(r.value, form)]
    {
      var birthDate := ParseDate(form.birthDate);
      if birthDate.None? {
        return Err(InvalidBirthDate);
      }
      var violationDate := ParseDateTime(form.violationDate);
      if violationDate.None? {
        return Err(InvalidViolationDate);
      }
      var id := NewId();
      rows := rows[id := Violation(id, form.name, birthDate.value, form.address,
                                   form.licensePlate, form.violation, violationDate.value)];
      r := Ok(id);
    }

    /** `edit_violation` on a POST: overwrite all six fields of the row with
        the submitted values and keep its id. The row must exist: the handler
        dereferences the result of the lookup without checking it. A date that
        does not parse raises before the commit, so the row keeps its old
        values. */
    method Edit(id: int, form: ViolationForm) returns (r: Outcome<Failure>)
      requires Valid() && id in rows
      modifies this
      ensures Valid()
      ensures FormError(form).Some? ==> r == Fail(FormError(form).value) && rows == old(rows)
      ensures FormError(form).None? ==> r == Pass && rows == old(rows)[id := FromForm(id, form)]
    {
      var birthDate := ParseDate(form.birthDate);
      if birthDate.None? {
        return Fail(InvalidBirthDate);
      }
      var violationDate := ParseDateTime(form.violationDate);
      if violationDate.None? {
        return Fail(InvalidViolationDate);
      }
      rows := rows[id := Violation(id, form.name, birthDate.value, form.address,
                                   form.licensePlate, form.violation, violationDate.value)];
      r := Pass;
    }

    /** `delete_violation`: remove the row if there is one; a missing id is
        silently ignored. */
    method Delete(id: int)
      requires Valid()
      modifies this
      ensures Valid()
      ensures rows == old(rows) - {id}
      ensures id !in old(rows) ==> rows == old(rows)
    {
      if id in rows {
        rows := rows - {id};
      }
    }
  }

  /** The `user` table, whose `username` column is unique. */
  class UserTable {
    var rows: map<int, User>
    /** The largest id handed out so far. */
    var lastId: int

    ghost predicate Valid()
      reads this
    {
      && 0 <= lastId
      && (forall id :: id in rows ==> 1 <= id <= lastId && rows[id].id == id)
      && UniqueUsernames(rows)
    }

    constructor ()
      ensures Valid() && rows == map[]
    {
      rows := map[];
      lastId := 0;
    }

    /** An id no user has. */
    method NewId() returns (id: int)
      requires Valid()
      modifies this
      ensures Valid() && rows == old(rows)
      ensures id !in rows && id >= 1 && id == lastId
    {
      lastId := lastId + 1;
      id := lastId;
    }

    /** `add_user`, and `register`, which does the same: insert a user with
        the given name and the hash of the given password. The commit fails on
        the unique constraint when the name is taken, and nothing is added. */
    method Add(username: string, passwordHash: string) returns (r: Result<int, Failure>)
      requires Valid()
      modifies this
      ensures Valid()
      ensures Holders(old(rows), username) != {} ==> r == Err(DuplicateUsername) && rows == old(rows)
      ensures Holders(old(rows), username) == {} ==>
        && r.Ok? && r.value !in old(rows)
        && rows == old(rows)[r.value := User(r.value, username, passwordHash)]
        && Holders(rows, username) == {r.value}
    {
      if Holders(rows, username) != {} {
        return Err(DuplicateUsername);
      }
      var id := NewId();
      rows := rows[id := User(id, username, passwordHash)];
      r := Ok(id);
    }

    /** `edit_user` on a POST: set the username, and replace the hash with the
        hash of the submitted password only when that password is not empty.
        The user must exist: the handler dereferences the lookup unchecked.
        A name held by another user fails the unique constraint at the commit
        and nothing changes. `passwordHash` stands for the hash of `password`. */
    method Edit(id: int, username: string, password: string, passwordHash: string)
      returns (r: Outcome<Failure>)
      requires Valid() && id in rows
      modifies this
      ensures Valid()
      ensures Holders(old(rows), username) - {id} != {} ==> r == Fail(DuplicateUsername) && rows == old(rows)
      ensures Holders(old(rows), username) - {id} == {} ==>
        && r == Pass
        && rows == old(rows)[id := User(id, username, if password == "" then old(rows)[id].passwordHash else passwordHash)]
        && Holders(rows, username) == {id}
    {
      if Holders(rows, username) - {id} != {} {
        return Fail(DuplicateUsername);
      }
      assert forall other :: other in rows && other != id ==> rows[other].username != username by {
        forall other | other in rows && other != id
          ensures rows[other].username != username
        {
          assert other !in Holders(rows, username) - {id};
        }
      }
      var user := rows[id];
      user := user.(username := username);
      if password != "" {
        user := user.(passwordHash := passwordHash);
      }
      rows := rows[id := user];
      r := Pass;
    }

    /** `delete_user`: remove the user if there is one; a missing id is
        silently ignored. */
    method Delete(id: int)
      requires Valid()
      modifies this
      ensures Valid()
      ensures rows == old(rows) - {id}
      ensures id !in old(rows) ==> rows == old(rows)
    {
      if id in rows {
        rows := rows - {id};
      }
    }
  }
}
