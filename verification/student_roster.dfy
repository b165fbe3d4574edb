/**
 * The "Authorize & Invite Students" roster of the student-bookings page:
 * pasted CSV/TSV text becomes student records, each record is validated,
 * and only the valid records are sent to grow a public link's list of
 * authorized students. Also the confirmed-booking pipeline table: its
 * search/filter view and the local update after a cell was saved.
 */
module StudentRoster {
  import opened Wrappers
  import opened Text
  import opened Seqs

  datatype Student = Student(
    hiringName: string, domain: string, userId: string, fullName: string,
    email: string, mobileNumber: string, resumeLink: string)

  /** A parsed record with the two markers the preview table shows. */
  datatype Checked = Checked(student: Student, isValid: bool, error: Option<string>)

  const InvalidEmailMessage: string := "Invalid or missing email."
  const MissingNameMessage: string := "Full Name is required."
  const NothingToSaveMessage: string := "No valid student data found."

  // ---------------------------------------------------------------- parsing

  /** The rows of the pasted text: the whole text trimmed, then cut at every line feed. */
  function Lines(data: string): seq<string>
  {
    Split(Trim(data), {'\n'})
  }

  /** The columns of one row: cut at every tab and every comma. */
  function Columns(row: string): seq<string>
  {
    Split(row, {'\t', ','})
  }

  /** columns[i]?.trim() || '' */
  function Column(cols: seq<string>, i: nat): string
  {
    if i < |cols| then Trim(cols[i]) else ""
  }

  /** Some column is not blank. */
  predicate HasContent(cols: seq<string>)
  {
    exists k :: 0 <= k < |cols| && Trim(cols[k]) != []
  }

  /** Columns 0..6 in order; the e-mail is lower-cased after trimming. */
  function ToStudent(cols: seq<string>): Student
  {
    Student(Column(cols, 0), Column(cols, 1), Column(cols, 2), Column(cols, 3),
            ToLower(Column(cols, 4)), Column(cols, 5), Column(cols, 6))
  }

  /** The record of one row, or none when every column of the row is blank. */
  function RowRecord(row: string): (r: seq<Student>)
    ensures |r| <= 1
  {
    var cols := Columns(row);
    if HasContent(cols) then [ToStudent(cols)] else []
  }

  /** The records of the rows that have a non-blank column, in row order. */
  function ParseRows(rows: seq<string>): (r: seq<Student>)
    ensures |r| <= |rows|
    decreases |rows|
  {
    if rows == [] then [] else RowRecord(rows[0]) + ParseRows(rows[1..])
  }

  // ------------------------------------------------------------- validation

  /** A position p holding '@' and d holding '.', the two tested by \S+@\S+\.\S+ . */
  predicate LooseEmailAt(s: string, p: int, d: int)
  {
    0 < p && p + 1 < d && d + 1 < |s| && s[p] == '@' && s[d] == '.' &&
    !IsSpace(s[p - 1]) && !IsSpace(s[d + 1]) && NoSpace(s[p + 1..d])
  }

  /** The unanchored test /\S+@\S+\.\S+/.test(s), decided on the '@' and the '.'. */
  predicate LooseEmail(s: string)
  {
    exists p, d :: 0 <= p < d < |s| && LooseEmailAt(s, p, d)
  }

  /** The regular expression read literally: some slice s[i..e] is \S+ '@' \S+ '.' \S+ . */
  ghost predicate LooseEmailRegexAt(s: string, i: int, p: int, d: int, e: int)
  {
    0 <= i < p && p + 1 < d && d + 1 < e <= |s| && s[p] == '@' && s[d] == '.' &&
    NoSpace(s[i..p]) && NoSpace(s[p + 1..d]) && NoSpace(s[d + 1..e])
  }

  ghost predicate LooseEmailRegex(s: string)
  {
    exists i, p, d, e :: LooseEmailRegexAt(s, i, p, d, e)
  }

  /** The check on the '@' and the '.' decides exactly the regular expression. */
  lemma LooseEmailMatchesRegex(s: string)
    ensures LooseEmail(s) <==> LooseEmailRegex(s)
  {
    if LooseEmail(s) {
      var p, d :| 0 <= p < d < |s| && LooseEmailAt(s, p, d);
      assert LooseEmailRegexAt(s, p - 1, p, d, d + 2);
    }
    if LooseEmailRegex(s) {
      var i, p, d, e :| LooseEmailRegexAt(s, i, p, d, e);
      assert s[i..p][p - 1 - i] == s[p - 1];
      assert s[d + 1..e][0] == s[d + 1];
      assert LooseEmailAt(s, p, d);
    }
  }

  /** The validation map: the e-mail is checked before the name; the fields are kept. */
  function Validate(s: Student): (c: Checked)
    ensures c.student == s
    ensures c.isValid <==> c.error == None
    ensures c.isValid <==> LooseEmail(s.email) && s.fullName != []
    ensures !LooseEmail(s.email) ==> c.error == Some(InvalidEmailMessage)
    ensures LooseEmail(s.email) && s.fullName == [] ==> c.error == Some(MissingNameMessage)
  {
    if s.email == [] || !LooseEmail(s.email) then Checked(s, false, Some(InvalidEmailMessage))
    else if s.fullName == [] then Checked(s, false, Some(MissingNameMessage))
    else Checked(s, true, None)
  }

  function ValidateAll(students: seq<Student>): (r: seq<Checked>)
    ensures |r| == |students|
    ensures forall k :: 0 <= k < |r| ==> r[k] == Validate(students[k])
  {
    seq(|students|, k requires 0 <= k < |students| => Validate(students[k]))
  }

  /**
   * processData: None when the text is empty (the roster is left as it was),
   * otherwise the validated records of the text.
   */
  function ProcessData(data: string): (r: Option<seq<Checked>>)
    ensures r.None? <==> data == []
    ensures r.Some? ==> |r.value| == |ParseRows(Lines(data))|
    ensures r.Some? ==> forall k :: 0 <= k < |r.value| ==> r.value[k] == Validate(ParseRows(Lines(data))[k])
  {
    if data == [] then None else Some(ValidateAll(ParseRows(Lines(data))))
  }

  // ---------------------------------------------------------- counts, save

  predicate IsValidRow(c: Checked)
  {
    c.isValid
  }

  predicate IsInvalidRow(c: Checked)
  {
    !c.isValid
  }

  function ValidCount(rows: seq<Checked>): nat
  {
    CountWhere(rows, IsValidRow)
  }

  /** students.length - validCount is the number of rows marked invalid. */
  function InvalidCount(rows: seq<Checked>): (n: nat)
    ensures n + ValidCount(rows) == |rows|
    ensures n == CountWhere(rows, IsInvalidRow)
  {
    ValidAndInvalidPartition(rows);
    |rows| - ValidCount(rows)
  }

  lemma {:induction false} ValidAndInvalidPartition(rows: seq<Checked>)
    ensures CountWhere(rows, IsValidRow) + CountWhere(rows, IsInvalidRow) == |rows|
    decreases |rows|
  {
    if rows != [] {
      ValidAndInvalidPartition(rows[1..]);
    }
  }

  /** The fields of each row, with the two markers dropped. */
  function Strip(rows: seq<Checked>): (r: seq<Student>)
    ensures |r| == |rows|
    ensures forall k :: 0 <= k < |r| ==> r[k] == rows[k].student
  {
    seq(|rows|, k requires 0 <= k < |rows| => rows[k].student)
  }

  /** handleSave: the valid rows in order without markers, or the error when there is none. */
  function HandleSave(rows: seq<Checked>): (r: Result<seq<Student>>)
    ensures r.Err? <==> ValidCount(rows) == 0
    ensures r.Err? ==> r.message == NothingToSaveMessage
    ensures r.Ok? ==> |r.value| == ValidCount(rows)
    ensures r.Ok? ==> forall s :: s in r.value ==> exists c :: c in rows && c.isValid && c.student == s
    ensures r.Ok? ==> r.value == Strip(Filter(rows, IsValidRow))
  {
    var valid := Filter(rows, IsValidRow);
    CountIsFilterLength(rows, IsValidRow);
    if valid == [] then Err(NothingToSaveMessage)
    else
      var students := Strip(valid);
      assert forall k :: 0 <= k < |valid| ==> valid[k] in valid;
      assert forall s :: s in students ==> exists k :: 0 <= k < |valid| && valid[k].student == s;
      Ok(students)
  }

  // -------------------------------------------------------- properties

  /**
   * Every valid row is sent, at the place given by the number of valid rows
   * before it: nothing valid is dropped and the order of the paste is kept.
   */
  lemma SaveSendsEveryValidRow(rows: seq<Checked>, i: nat)
    requires i < |rows| && rows[i].isValid
    ensures HandleSave(rows).Ok?
    ensures ValidCount(rows[..i]) < |HandleSave(rows).value|
    ensures HandleSave(rows).value[ValidCount(rows[..i])] == rows[i].student
  {
    FilterPosition(rows, i, IsValidRow);
    CountIsFilterLength(rows[..i], IsValidRow);
  }

  /** An earlier valid row is sent before a later one. */
  lemma SaveKeepsRowOrder(rows: seq<Checked>, i: nat, j: nat)
    requires i < j < |rows| && rows[i].isValid
    ensures ValidCount(rows[..i]) < ValidCount(rows[..j])
  {
    FilterPrefixGrows(rows, i, j, IsValidRow);
    CountIsFilterLength(rows[..i], IsValidRow);
    CountIsFilterLength(rows[..j], IsValidRow);
  }

  /** The roster never has more records than the trimmed text has lines. */
  lemma RecordsAtMostLines(data: string)
    requires data != []
    ensures |ProcessData(data).value| <= CountIn(Trim(data), {'\n'}) + 1
  {
  }

  /** Missing columns read as empty and columns past the seventh are ignored. */
  lemma ColumnMapping(cols: seq<string>)
    ensures |cols| <= 4 ==> ToStudent(cols).email == [] && ToStudent(cols).resumeLink == []
    ensures |cols| >= 7 ==> ToStudent(cols) == ToStudent(cols[..7])
    ensures |cols| > 4 ==> ToStudent(cols).email == ToLower(Trim(cols[4]))
  {
  }

  /** Lower-casing leaves whitespace in place, so a trimmed e-mail stays trimmed. */
  lemma LowerKeepsTrimmed(s: string)
    requires s != [] ==> !IsSpace(s[0]) && !IsSpace(s[|s| - 1])
    ensures Trim(ToLower(s)) == ToLower(s)
  {
    var l := ToLower(s);
    if s != [] {
      assert l[0] == LowerChar(s[0]) && l[|l| - 1] == LowerChar(s[|s| - 1]);
    }
    TrimOfTrimmed(l);
  }

  /** A column as read is already trimmed. */
  lemma ColumnIsTrimmed(cols: seq<string>, i: nat)
    ensures Trim(Column(cols, i)) == Column(cols, i)
  {
    if i < |cols| {
      TrimIdempotent(cols[i]);
    }
  }

  /** Every field of a parsed record is already trimmed, and the e-mail is lower case. */
  lemma FieldsAreTrimmed(cols: seq<string>)
    ensures var s := ToStudent(cols);
      Trim(s.hiringName) == s.hiringName && Trim(s.domain) == s.domain &&
      Trim(s.userId) == s.userId && Trim(s.fullName) == s.fullName &&
      Trim(s.mobileNumber) == s.mobileNumber && Trim(s.resumeLink) == s.resumeLink &&
      Trim(s.email) == s.email && ToLower(s.email) == s.email
  {
    var s := ToStudent(cols);
    var e := Column(cols, 4);
    ColumnIsTrimmed(cols, 0);
    ColumnIsTrimmed(cols, 1);
    ColumnIsTrimmed(cols, 2);
    ColumnIsTrimmed(cols, 3);
    ColumnIsTrimmed(cols, 5);
    ColumnIsTrimmed(cols, 6);
    LowerKeepsTrimmed(e);
    ToLowerIdempotent(e);
    assert s.email == ToLower(e);
  }

  /** Every record a save sends is one of the validated students, with a usable e-mail and a name. */
  lemma ValidatedSaveFromInput(students: seq<Student>)
    requires HandleSave(ValidateAll(students)).Ok?
    ensures forall s :: s in HandleSave(ValidateAll(students)).value ==>
      s in students && LooseEmail(s.email) && s.fullName != []
  {
    var rows := ValidateAll(students);
    forall s | s in HandleSave(rows).value
      ensures s in students && LooseEmail(s.email) && s.fullName != []
    {
      var c :| c in rows && c.isValid && c.student == s;
      var k :| 0 <= k < |rows| && rows[k] == c;
      assert s == students[k];
    }
  }

  /** Whatever the text, every record sent by handleSave has a usable e-mail and a full name. */
  lemma SavedRecordsAreUsable(data: string)
    requires data != []
    requires HandleSave(ProcessData(data).value).Ok?
    ensures forall s :: s in HandleSave(ProcessData(data).value).value ==>
      LooseEmail(s.email) && s.fullName != [] && ToLower(s.email) == s.email
  {
    var lines := Lines(data);
    var students := ParseRows(lines);
    assert ProcessData(data).value == ValidateAll(students);
    ValidatedSaveFromInput(students);
    forall s | s in HandleSave(ValidateAll(students)).value
      ensures ToLower(s.email) == s.email
    {
      ParsedRecordsAreLowerCase(lines, s);
    }
  }

  /** The record of one row has a lower-case e-mail. */
  lemma RecordEmailIsLowerCase(row: string, s: Student)
    requires s in RowRecord(row)
    ensures ToLower(s.email) == s.email
  {
    var cols := Columns(row);
    var e := Column(cols, 4);
    ToLowerIdempotent(e);
    assert RowRecord(row) == [ToStudent(cols)];
    assert s.email == ToLower(e);
  }

  /** Every parsed record has a lower-case e-mail. */
  lemma {:induction false} ParsedRecordsAreLowerCase(rows: seq<string>, s: Student)
    requires s in ParseRows(rows)
    ensures ToLower(s.email) == s.email
    decreases |rows|
  {
    assert rows != [];
    assert ParseRows(rows) == RowRecord(rows[0]) + ParseRows(rows[1..]);
    if s in RowRecord(rows[0]) {
      RecordEmailIsLowerCase(rows[0], s);
    } else {
      assert s in ParseRows(rows[1..]);
      ParsedRecordsAreLowerCase(rows[1..], s);
    }
  }

  /** A block of rows starting with one row parses that row first. */
  lemma ParseRowsCons(row: string, rest: seq<string>)
    ensures ParseRows([row] + rest) == RowRecord(row) + ParseRows(rest)
  {
    var rows := [row] + rest;
    assert rows[0] == row && rows[1..] == rest;
  }

  /** Parsing a text made of two blocks of rows parses each block on its own. */
  lemma {:induction false} ParseRowsAppend(a: seq<string>, b: seq<string>)
    ensures ParseRows(a + b) == ParseRows(a) + ParseRows(b)
    decreases |a|
  {
    if a == [] {
      assert a + b == b;
    } else {
      var x, rest := a[0], a[1..];
      assert a == [x] + rest;
      assert a + b == [x] + (rest + b);
      var h := RowRecord(x);
      calc {
        ParseRows(a + b);
        { ParseRowsCons(x, rest + b); }
        h + ParseRows(rest + b);
        { ParseRowsAppend(rest, b); }
        h + (ParseRows(rest) + ParseRows(b));
        (h + ParseRows(rest)) + ParseRows(b);
        { ParseRowsCons(x, rest); }
        ParseRows(a) + ParseRows(b);
      }
    }
  }

  // ------------------------------------------------ confirmed-booking pipeline

  /** The user behind a booked interviewer. */
  datatype Person = Person(firstName: string, lastName: string)

  /**
   * One row of the pipeline. The flat text fields (studentName, studentEmail,
   * userId, domain, publicBookingId, hostEmail, eventTitle, meetLink, ...) are
   * a dictionary, as a field may be missing; the booking date is a day number.
   */
  datatype Booking = Booking(
    id: string, fields: map<string, string>,
    bookedInterviewer: Option<Person>, bookingDay: Option<int>)

  /** The applied filter menu: a day, a domain and a public link id; '' is "no filter". */
  datatype Filters = Filters(day: Option<int>, domain: string, publicId: string)

  predicate NoFilters(f: Filters)
  {
    f.day.None? && f.domain == [] && f.publicId == []
  }

  /** String(item[key]): a missing field reads as "undefined". */
  function FieldText(b: Booking, key: string): (r: string)
    ensures key in b.fields ==> r == b.fields[key]
    ensures key !in b.fields ==> r == "undefined"
  {
    if key in b.fields then b.fields[key] else "undefined"
  }

  /** item[key] === value, where a missing field equals nothing. */
  predicate FieldIs(b: Booking, key: string, value: string)
  {
    key in b.fields && b.fields[key] == value
  }

  /** "first last" of the booked interviewer, or '' when there is none. */
  function InterviewerName(b: Booking): (r: string)
    ensures b.bookedInterviewer.None? <==> r == []
  {
    match b.bookedInterviewer
    case None => ""
    case Some(p) => p.firstName + " " + p.lastName
  }

  /** The five values the search box looks into. */
  function SearchValues(b: Booking): seq<string>
  {
    [FieldText(b, "studentName"), FieldText(b, "studentEmail"), InterviewerName(b),
     FieldText(b, "userId"), FieldText(b, "domain")]
  }

  /** Some searched value contains the term, both lower-cased. */
  predicate MatchesSearch(b: Booking, term: string)
  {
    exists v :: v in SearchValues(b) && Contains(ToLower(v), ToLower(term))
  }

  /** Each condition of the pipeline view; an empty term or filter holds for every row. */
  predicate PassesSearch(b: Booking, term: string)
  {
    term == [] || MatchesSearch(b, term)
  }

  predicate PassesDay(b: Booking, f: Filters)
  {
    f.day.None? || b.bookingDay == Some(f.day.value)
  }

  predicate PassesDomain(b: Booking, f: Filters)
  {
    f.domain == [] || FieldIs(b, "domain", f.domain)
  }

  predicate PassesPublicId(b: Booking, f: Filters)
  {
    f.publicId == [] || FieldIs(b, "publicBookingId", f.publicId)
  }

  /** The four conditions of the pipeline view together. */
  predicate Shown(b: Booking, term: string, f: Filters)
  {
    PassesSearch(b, term) && PassesDay(b, f) && PassesDomain(b, f) && PassesPublicId(b, f)
  }

  /** The bookings the pipeline view shows, in list order. */
  function ShownBookings(bookings: seq<Booking>, term: string, f: Filters): seq<Booking>
  {
    Filter(bookings, (b: Booking) => Shown(b, term, f))
  }

  /** Filtering by the four conditions one after another is filtering by all four at once. */
  lemma SuccessiveFiltersAreShown(bookings: seq<Booking>, term: string, f: Filters,
      search: Booking -> bool, day: Booking -> bool, domain: Booking -> bool, publicId: Booking -> bool)
    requires forall b :: search(b) == PassesSearch(b, term) && day(b) == PassesDay(b, f)
    requires forall b :: domain(b) == PassesDomain(b, f) && publicId(b) == PassesPublicId(b, f)
    ensures Filter(Filter(Filter(Filter(bookings, search), day), domain), publicId) == ShownBookings(bookings, term, f)
  {
    var sd := (b: Booking) => search(b) && day(b);
    var sdm := (b: Booking) => sd(b) && domain(b);
    FilterFilter(bookings, search, day, sd);
    FilterFilter(bookings, sd, domain, sdm);
    FilterFilter(bookings, sdm, publicId, (b: Booking) => Shown(b, term, f));
  }

  /** { ...booking, [key]: value } */
  function SetField(b: Booking, key: string, value: string): (r: Booking)
    ensures r.id == b.id && r.bookedInterviewer == b.bookedInterviewer && r.bookingDay == b.bookingDay
    ensures key in r.fields && r.fields[key] == value
    ensures forall f :: f != key ==> (f in r.fields <==> f in b.fields)
    ensures forall f :: f != key && f in b.fields ==> r.fields[f] == b.fields[f]
  {
    b.(fields := b.fields[key := value])
  }

  /** The list after one cell of the booking with the given id was saved. */
  function UpdateBookings(bs: seq<Booking>, id: string, key: string, value: string): (r: seq<Booking>)
    ensures |r| == |bs|
    ensures forall k :: 0 <= k < |bs| && bs[k].id != id ==> r[k] == bs[k]
    ensures forall k :: 0 <= k < |bs| && bs[k].id == id ==> r[k] == SetField(bs[k], key, value)
  {
    seq(|bs|, k requires 0 <= k < |bs| => if bs[k].id == id then SetField(bs[k], key, value) else bs[k])
  }

  /** The list of host e-mails after a cell save: a new non-empty host e-mail joins it, sorted. */
  function HostEmailsAfter(hosts: seq<string>, key: string, value: string): (r: seq<string>)
    ensures key == "hostEmail" && value != [] && value !in hosts ==>
      Sorted(r) && multiset(r) == multiset(hosts) + multiset{value}
    ensures !(key == "hostEmail" && value != [] && value !in hosts) ==> r == hosts
  {
    if key == "hostEmail" then AddSorted(hosts, value) else hosts
  }

  /** The pipeline table's state: the confirmed bookings and the known host e-mails. */
  class Pipeline {
    var bookings: seq<Booking>
    var hostEmails: seq<string>

    constructor(bookings: seq<Booking>, hostEmails: seq<string>)
      ensures this.bookings == bookings && this.hostEmails == hostEmails
    {
      this.bookings := bookings;
      this.hostEmails := hostEmails;
    }

    /** filteredBookings: four successive filters, each applied only when its control is set. */
    method FilteredBookings(term: string, f: Filters) returns (data: seq<Booking>)
      ensures IsSubsequence(data, bookings)
      ensures forall b :: b in data <==> b in bookings && Shown(b, term, f)
      ensures term == [] && NoFilters(f) ==> data == bookings
      ensures data == ShownBookings(bookings, term, f)
    {
      var search := (b: Booking) => PassesSearch(b, term);
      var day := (b: Booking) => PassesDay(b, f);
      var domain := (b: Booking) => PassesDomain(b, f);
      var publicId := (b: Booking) => PassesPublicId(b, f);
      SubsequenceReflexive(bookings);
      var s := FilterWhen(bookings, bookings, term != [], search);
      var sd := FilterWhen(s, bookings, f.day.Some?, day);
      var sdm := FilterWhen(sd, bookings, f.domain != [], domain);
      data := FilterWhen(sdm, bookings, f.publicId != [], publicId);
      SuccessiveFiltersAreShown(bookings, term, f, search, day, domain, publicId);
    }

    /** handleCellSave: the saved field of the booking with that id changes; a new host e-mail is added. */
    method CellSave(bookingId: string, fieldKey: string, newValue: string)
      modifies this
      ensures bookings == UpdateBookings(old(bookings), bookingId, fieldKey, newValue)
      ensures hostEmails == HostEmailsAfter(old(hostEmails), fieldKey, newValue)
    {
      bookings := UpdateBookings(bookings, bookingId, fieldKey, newValue);
      hostEmails := HostEmailsAfter(hostEmails, fieldKey, newValue);
    }
  }

  /** The search ignores case on the side of the term. */
  lemma SearchIgnoresTermCase(b: Booking, term: string)
    ensures MatchesSearch(b, term) <==> MatchesSearch(b, ToLower(term))
  {
    ToLowerIdempotent(term);
  }

  /** A booking without a student name is found by searching for "undefined". */
  lemma MissingFieldReadsUndefined(b: Booking)
    requires "studentName" !in b.fields
    ensures MatchesSearch(b, "def")
  {
    var v := FieldText(b, "studentName");
    assert v in SearchValues(b);
    assert ToLower(v) == "undefined";
    assert OccursAt(ToLower(v), ToLower("def"), 2);
  }

  /** A host e-mail added by a save occurs exactly once when the list had no duplicates. */
  lemma HostEmailAddedOnce(hosts: seq<string>, value: string)
    requires value != [] && value !in hosts
    ensures value in HostEmailsAfter(hosts, "hostEmail", value)
    ensures multiset(HostEmailsAfter(hosts, "hostEmail", value))[value] == 1
  {
    AddSortedOnce(hosts, value);
  }

  /** Saving a field that no filter or search reads leaves the view of a booking as it was. */
  lemma SaveKeepsShown(b: Booking, key: string, value: string, term: string, f: Filters)
    requires key !in {"studentName", "studentEmail", "userId", "domain", "publicBookingId"}
    ensures Shown(SetField(b, key, value), term, f) <==> Shown(b, term, f)
  {
    assert SearchValues(SetField(b, key, value)) == SearchValues(b);
  }
}
