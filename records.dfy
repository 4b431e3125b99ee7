/** The two tables' rows and what the add and edit handlers make of a
    submitted violation form. */
module Records {
  import opened Results
  import opened Digits
  import opened DateTimes

  /** A row of the `violation` table. */
  datatype Violation = Violation(
    id: int,
    name: string,
    birthDate: CalendarDate,
    address: string,
    licensePlate: string,
    violation: string,
    violationDate: ClockTime)

  /** A row of the `user` table; the hash is stored as werkzeug produced it. */
  datatype User = User(id: int, username: string, passwordHash: string)

  /** The six text fields of a submitted violation form. */
  datatype ViolationForm = ViolationForm(
    name: string,
    birthDate: string,
    address: string,
    licensePlate: string,
    violation: string,
    violationDate: string)

  /** Why a request leaves its table unchanged: the `ValueError` of one of the
      two `strptime` calls, or the unique constraint on `user.username`. */
  datatype Failure = InvalidBirthDate | InvalidViolationDate | DuplicateUsername

  /** The error a form raises before anything is written, if any: the birth
      date is parsed first, the violation date second. */
  function FormError(form: ViolationForm): (e: Option<Failure>)
    ensures e.None? <==> ParseDate(form.birthDate).Some? && ParseDateTime(form.violationDate).Some?
    ensures e == Some(InvalidBirthDate) <==> ParseDate(form.birthDate).None?
    ensures e != Some(DuplicateUsername)
  {
    if ParseDate(form.birthDate).None? then Some(InvalidBirthDate)
    else if ParseDateTime(form.violationDate).None? then Some(InvalidViolationDate)
    else None
  }

  /** The row a form that raises nothing describes, under the given id: the
      text fields as submitted and the two dates as parsed. The violation time
      has no seconds, and the stored birth date is written back as the text
      submitted exactly when that text was canonical. */
  function FromForm(id: int, form: ViolationForm): (v: Violation)
    requires FormError(form).None?
    ensures v.id == id && v.name == form.name && v.address == form.address
    ensures v.licensePlate == form.licensePlate && v.violation == form.violation
    ensures Some(v.birthDate) == ParseDate(form.birthDate)
    ensures Some(v.violationDate) == ParseDateTime(form.violationDate)
    ensures v.violationDate.second == 0
    ensures FormatDate(v.birthDate) == form.birthDate <==> IsCanonicalDate(form.birthDate)
  {
    FormatParseDate(form.birthDate);
    Violation(id, form.name, ParseDate(form.birthDate).value, form.address,
              form.licensePlate, form.violation, ParseDateTime(form.violationDate).value)
  }

  /** The canonical form that describes a row. */
  function FormOf(v: Violation): (form: ViolationForm)
    ensures form.name == v.name && form.address == v.address
    ensures form.licensePlate == v.licensePlate && form.violation == v.violation
    ensures IsCanonicalDate(form.birthDate) && IsCanonicalDateTime(form.violationDate)
  {
    ViolationForm(v.name, FormatDate(v.birthDate), v.address, v.licensePlate,
                  v.violation, DateTimeInput(v.violationDate))
  }

  /** Every row whose violation time has no seconds (all rows the handlers
      write) is described by its canonical form. */
  lemma FormRoundTrip(v: Violation)
    requires v.violationDate.second == 0
    ensures FormError(FormOf(v)).None?
    ensures FromForm(v.id, FormOf(v)) == v
  {
    ParseFormatDate(v.birthDate);
    ParseDateTimeInput(v.violationDate);
  }

  /** No two rows of a user table share a username. */
  ghost predicate UniqueUsernames(rows: map<int, User>) {
    forall i, j :: i in rows && j in rows && rows[i].username == rows[j].username ==> i == j
  }

  /** A user table keeps its usernames unique exactly when no username has
      more than one holder. */
  lemma UniqueHolders(rows: map<int, User>)
    ensures UniqueUsernames(rows) <==> forall u :: |Holders(rows, u)| <= 1
  {
    if UniqueUsernames(rows) {
      forall u ensures |Holders(rows, u)| <= 1 {
        var ids := Holders(rows, u);
        if |ids| > 1 {
          var i := PickOne(ids);
          var j := PickOne(ids - {i});
        }
      }
    } else {
      var i, j :| i in rows && j in rows && rows[i].username == rows[j].username && i != j;
      var ids := Holders(rows, rows[i].username);
      assert i in ids && j in ids - {i};
      assert |ids - {i}| >= 1;
    }
  }

  /** Some element of a non-empty set of ids. */
  ghost function PickOne(ids: set<int>): (i: int)
    requires ids != {}
    ensures i in ids
  {
    assert exists i :: i in ids by {
      if forall i :: i !in ids {
        assert false;
      }
    }
    var i :| i in ids; i
  }

  /** The ids of the users called `username`. */
  function Holders(rows: map<int, User>, username: string): (ids: set<int>)
    ensures forall id :: id in ids <==> id in rows && rows[id].username == username
  {
    set id | id in rows && rows[id].username == username
  }
}
