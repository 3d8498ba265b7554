/** Attendance report: `GET /attendance/:random_code` (server.js:392-427)
    resolves the code and lists the registration number of every mark of
    that class, in table order, with the class's details. */
module AttendanceReport {
  import opened Values
  import opened Tables
  import ClassDirectory

  /** Response of the report route; `Report` is the 200 body flattened
      (`reg_nos` and the three `class_details` fields). */
  datatype ReportResponse =
    | ReportNotFound
    | Report(regNos: seq<Value>, subjectCode: Value, scheduledTime: Value, venue: Value)
  {
    function Status(): int {
      if ReportNotFound? then 404 else 200
    }
  }

  /** `SELECT reg_no FROM attendance WHERE class_id = ?`, projected. */
  function RegNosOf(rows: seq<AttendanceRow>, classId: Value): (r: seq<Value>)
    ensures |r| <= |rows|
    ensures forall x :: x in r <==>
      exists i :: 0 <= i < |rows| && SqlEq(rows[i].classId, classId) && rows[i].regNo == x
  {
    if rows == [] then []
    else
      assert forall i :: 1 <= i < |rows| ==> rows[1..][i - 1] == rows[i];
      (if SqlEq(rows[0].classId, classId) then [rows[0].regNo] else []) + RegNosOf(rows[1..], classId)
  }

  /** The roster of a concatenation is the concatenation of the rosters:
      the report keeps table order. */
  lemma {:induction false} RegNosAppend(a: seq<AttendanceRow>, b: seq<AttendanceRow>, classId: Value)
    ensures RegNosOf(a + b, classId) == RegNosOf(a, classId) + RegNosOf(b, classId)
  {
    if a == [] {
      assert a + b == b;
    } else {
      var ab := a + b;
      var head := if SqlEq(a[0].classId, classId) then [a[0].regNo] else [];
      assert ab[0] == a[0];
      assert ab[1..] == a[1..] + b;
      RegNosAppend(a[1..], b, classId);
      calc {
        RegNosOf(ab, classId);
        head + RegNosOf(ab[1..], classId);
        head + (RegNosOf(a[1..], classId) + RegNosOf(b, classId));
        (head + RegNosOf(a[1..], classId)) + RegNosOf(b, classId);
        RegNosOf(a, classId) + RegNosOf(b, classId);
      }
    }
  }

  /** 404 exactly when the code resolves to no class. Otherwise 200 with the
      roster of the first class carrying the code, possibly empty, and that
      class's subject code, scheduled time and venue. */
  function GetReport(classes: seq<ClassRow>, attendance: seq<AttendanceRow>, code: string): (r: ReportResponse)
    ensures r.ReportNotFound? <==> forall j :: 0 <= j < |classes| ==> classes[j].randomCode != Str(code)
    ensures r.Report? ==>
      exists i :: 0 <= i < |classes| && classes[i].randomCode == Str(code)
        && (forall j :: 0 <= j < i ==> classes[j].randomCode != Str(code))
        && r.regNos == RegNosOf(attendance, classes[i].classId)
        && r.subjectCode == classes[i].subjectCode
        && r.scheduledTime == classes[i].scheduledTime
        && r.venue == classes[i].venue
  {
    match ClassDirectory.Resolve(classes, Str(code))
    case None => ReportNotFound
    case Some(i) =>
      var c := classes[i];
      Report(RegNosOf(attendance, c.classId), c.subjectCode, c.scheduledTime, c.venue)
  }

  /** No row of the class gives an empty roster. */
  lemma {:induction false} RosterOfUnmarkedClass(rows: seq<AttendanceRow>, classId: Value)
    requires forall i :: 0 <= i < |rows| ==> !SqlEq(rows[i].classId, classId)
    ensures RegNosOf(rows, classId) == []
  {
    if rows != [] {
      RosterOfUnmarkedClass(rows[1..], classId);
    }
  }

  /** The class a code resolves to reports an empty roster, not an error,
      when nobody has marked it yet, whatever marks other classes have,
      including other rows that carry the same code. */
  lemma EmptyRosterIsNotAnError(classes: seq<ClassRow>, attendance: seq<AttendanceRow>, code: string)
    requires ClassDirectory.Resolve(classes, Str(code)).Some?
    requires forall i :: 0 <= i < |attendance| ==>
      !SqlEq(attendance[i].classId, classes[ClassDirectory.Resolve(classes, Str(code)).value].classId)
    ensures GetReport(classes, attendance, code).Report? && GetReport(classes, attendance, code).regNos == []
  {
    var i := ClassDirectory.Resolve(classes, Str(code)).value;
    RosterOfUnmarkedClass(attendance, classes[i].classId);
  }

  /** The report resolves a code exactly as `POST /get-class-id` does, and
      lists the marks of the class id that route returns. */
  lemma ReportAgreesWithDirectory(classes: seq<ClassRow>, attendance: seq<AttendanceRow>, code: string)
    ensures GetReport(classes, attendance, code).ReportNotFound?
        <==> ClassDirectory.GetClassId(classes, Str(code)).ClassNotFound?
    ensures GetReport(classes, attendance, code).Report? ==>
      GetReport(classes, attendance, code).regNos
        == RegNosOf(attendance, ClassDirectory.GetClassId(classes, Str(code)).classId)
  {
  }
}
