/** The rows of the spreadsheet export: a fixed header, then one row per
    violation with both dates rendered as text. The workbook itself and the
    file it is saved to are not modelled. */
module Export {
  import opened Results
  import opened Digits
  import opened DateTimes
  import opened Records

  const NameLabel: string := "Họ tên"
  const BirthDateLabel: string := "Ngày tháng năm sinh"
  const AddressLabel: string := "Địa chỉ"
  const PlateLabel: string := "Biển số xe"
  const ViolationLabel: string := "Lỗi vi phạm"
  const ViolationDateLabel: string := "Ngày giờ vi phạm"

  const Header: seq<string> :=
    [NameLabel, BirthDateLabel, AddressLabel, PlateLabel, ViolationLabel, ViolationDateLabel]

  /** A value of the per-row dictionary: text, a date or a date-time. */
  datatype Cell = Text(text: string) | Day(date: CalendarDate) | Moment(time: ClockTime)

  /** The dictionary the export builds for one violation, keyed by the
      labels; every label it is read back with holds a value of the kind read
      (RowDataKeys: and it has no other key). */
  function RowData(v: Violation): (d: map<string, Cell>)
    ensures IsRowData(d)
  {
    map[NameLabel := Text(v.name),
        BirthDateLabel := Day(v.birthDate),
        AddressLabel := Text(v.address),
        PlateLabel := Text(v.licensePlate),
        ViolationLabel := Text(v.violation),
        ViolationDateLabel := Moment(v.violationDate)]
  }

  /** The dictionary has one entry per header label and no other key. */
  lemma RowDataKeys(v: Violation)
    ensures |RowData(v)| == |Header|
    ensures forall key :: key in RowData(v) <==> key in Header
  {
  }

  /** Every label the row is read back with holds a value of the kind read. */
  predicate IsRowData(d: map<string, Cell>) {
    && NameLabel in d && d[NameLabel].Text?
    && BirthDateLabel in d && d[BirthDateLabel].Day?
    && AddressLabel in d && d[AddressLabel].Text?
    && PlateLabel in d && d[PlateLabel].Text?
    && ViolationLabel in d && d[ViolationLabel].Text?
    && ViolationDateLabel in d && d[ViolationDateLabel].Moment?
  }

  /** The cells appended to the sheet for one dictionary: one per header
      label, the birth date as ten characters and the violation time as
      nineteen. */
  function SheetRow(d: map<string, Cell>): (row: seq<string>)
    requires IsRowData(d)
    ensures |row| == |Header|
    ensures |row[1]| == 10 && |row[5]| == 19
  {
    [d[NameLabel].text,
     FormatDate(d[BirthDateLabel].date),
     d[AddressLabel].text,
     d[PlateLabel].text,
     d[ViolationLabel].text,
     FormatDateTime(d[ViolationDateLabel].time)]
  }

  /** The row the export promises for a violation: its six fields in header
      order, the birth date as 'YYYY-MM-DD', the violation time as
      'YYYY-MM-DD HH:MM:SS'. */
  function ExportRow(v: Violation): (row: seq<string>)
    ensures |row| == |Header|
  {
    [v.name, FormatDate(v.birthDate), v.address, v.licensePlate, v.violation,
     FormatDateTime(v.violationDate)]
  }

  /** The labels are distinct, so the dictionary keeps every field under its
      own label and reading it back by label gives the promised row. */
  lemma SheetRowOfRowData(v: Violation)
    ensures IsRowData(RowData(v))
    ensures SheetRow(RowData(v)) == ExportRow(v)
  {
  }

  /** Each dictionary built from a list of violations is read back as that
      violation's promised row. */
  lemma SheetRowsOfRowData(violations: seq<Violation>, data: seq<map<string, Cell>>)
    requires |data| == |violations|
    requires forall k :: 0 <= k < |data| ==> data[k] == RowData(violations[k])
    ensures forall k :: 0 <= k < |data| ==> IsRowData(data[k]) && SheetRow(data[k]) == ExportRow(violations[k])
  {
    forall k | 0 <= k < |data|
      ensures IsRowData(data[k]) && SheetRow(data[k]) == ExportRow(violations[k])
    {
      SheetRowOfRowData(violations[k]);
    }
  }

  /** Builds the dictionaries, writes the header, then appends one row per
      dictionary. */
  method ExportSheet(violations: seq<Violation>) returns (sheet: seq<seq<string>>)
    ensures |sheet| == |violations| + 1
    ensures sheet[0] == Header
    ensures forall i :: 0 <= i < |violations| ==> sheet[i + 1] == ExportRow(violations[i])
  {
    var data := seq(|violations|, i requires 0 <= i < |violations| => RowData(violations[i]));
    SheetRowsOfRowData(violations, data);
    var rows: seq<seq<string>> := [];
    for i := 0 to |data|
      invariant |rows| == i
      invariant forall k :: 0 <= k < i ==> rows[k] == SheetRow(data[k])
    {
      rows := rows + [SheetRow(data[i])];
    }
    sheet := [Header] + rows;
  }

  /** A violation added through the form exports its text fields as
      submitted and a birth date that parses to the submitted one; canonical
      birth-date text is exported exactly as typed. */
  lemma ExportOfSubmittedForm(id: int, form: ViolationForm)
    requires FormError(form).None?
    ensures |ExportRow(FromForm(id, form))| == 6
    ensures ExportRow(FromForm(id, form))[0] == form.name
    ensures ExportRow(FromForm(id, form))[2] == form.address
    ensures ExportRow(FromForm(id, form))[3] == form.licensePlate
    ensures ExportRow(FromForm(id, form))[4] == form.violation
    ensures ParseDate(ExportRow(FromForm(id, form))[1]) == ParseDate(form.birthDate)
    ensures IsCanonicalDate(form.birthDate) ==> ExportRow(FromForm(id, form))[1] == form.birthDate
  {
    var v := FromForm(id, form);
    assert ExportRow(v)[1] == FormatDate(v.birthDate);
    ParseFormatDate(v.birthDate);
  }

  /** A violation added through the form exports its time as nineteen
      characters ending in ':00' seconds; canonical input text is exported as
      typed, with the 'T' becoming a blank. */
  lemma ExportedViolationTime(id: int, form: ViolationForm)
    requires FormError(form).None?
    ensures |ExportRow(FromForm(id, form))[5]| == 19
    ensures ExportRow(FromForm(id, form))[5][16..] == ":00"
    ensures IsCanonicalDateTime(form.violationDate) ==>
      ExportRow(FromForm(id, form))[5] == form.violationDate[..10] + " " + form.violationDate[11..] + ":00"
  {
    var v := FromForm(id, form);
    assert ExportRow(v)[5] == FormatDateTime(v.violationDate);
    ParsedDateTimeExportsZeroSeconds(form.violationDate);
    if IsCanonicalDateTime(form.violationDate) {
      FormatParseDateTime(form.violationDate);
    }
  }
}
