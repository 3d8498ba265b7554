/** Attendance ledger: `POST /mark-attendance` (server.js:338-390). After the
    field check it looks up the comments, then either reports the existing
    mark for (class_id, reg_no) or appends a new one stamped with the
    caller's `device_time`. */
module AttendanceLedger {
  import opened Values
  import opened Tables
  import opened Query
  import opened CommentLookup
  import opened AttendanceReport

  /** The three body fields the handler reads. */
  datatype MarkRequest = MarkRequest(classId: Value, regNo: Value, deviceTime: Value)
  {
    /** None of `!class_id || !reg_no || !device_time` holds. */
    predicate Complete() {
      classId.Truthy() && regNo.Truthy() && deviceTime.Truthy()
    }
  }

  /** Response of `POST /mark-attendance`, one variant per status. */
  datatype MarkResponse =
    | MissingFields
    | AlreadyMarked(attendedAt: Value, comments: Comments)
    | Marked(attendanceId: nat, attendedAt: Value, comments: Comments)
  {
    function Status(): int {
      match this
      case MissingFields => 400
      case AlreadyMarked(_, _) => 409
      case Marked(_, _, _) => 201
    }
  }

  /** The `attendance` table together with its auto-increment counter. */
  datatype Ledger = Ledger(rows: seq<AttendanceRow>, nextId: nat)

  datatype MarkOutcome = MarkOutcome(response: MarkResponse, ledger: Ledger)

  /** `WHERE class_id = ? AND reg_no = ?`, for one row. */
  predicate IsMarkOf(row: AttendanceRow, classId: Value, regNo: Value) {
    SqlEq(row.classId, classId) && SqlEq(row.regNo, regNo)
  }

  /** Two rows that mark the same (class, student) pair. */
  predicate SamePair(a: AttendanceRow, b: AttendanceRow) {
    IsMarkOf(a, b.classId, b.regNo)
  }

  /** The central invariant: at most one mark per (class, student) pair. */
  predicate UniqueMarks(rows: seq<AttendanceRow>) {
    forall i, j :: 0 <= i < j < |rows| ==> !SamePair(rows[i], rows[j])
  }

  /** Every stored identifier was issued before the counter's current value. */
  predicate IdsBelow(rows: seq<AttendanceRow>, nextId: nat) {
    forall i :: 0 <= i < |rows| ==> rows[i].attendanceId < nextId
  }

  /** Some row marks the pair. */
  predicate HasMark(rows: seq<AttendanceRow>, classId: Value, regNo: Value) {
    exists i :: 0 <= i < |rows| && IsMarkOf(rows[i], classId, regNo)
  }

  /** Index of the first existing mark for the pair, if any. */
  function FindMark(rows: seq<AttendanceRow>, classId: Value, regNo: Value): (r: Option<nat>)
    ensures r.Some? ==> r.value < |rows| && IsMarkOf(rows[r.value], classId, regNo)
    ensures r.Some? ==> forall j :: 0 <= j < r.value ==> !IsMarkOf(rows[j], classId, regNo)
    ensures r.None? <==> forall j :: 0 <= j < |rows| ==> !IsMarkOf(rows[j], classId, regNo)
  {
    First(rows, (row: AttendanceRow) => IsMarkOf(row, classId, regNo))
  }

  /** The handler's effect on the ledger and its response; `comments` and
      `csvs` are `comment_table` and `csv_table`, which it only reads.
      A falsy field gives 400 and an existing mark 409 with the first such
      row's timestamp; neither changes the ledger. Otherwise exactly the
      row (class_id, reg_no, device_time) is appended under the next id and
      201 echoes `device_time`. Both 409 and 201 carry the comment lookup. */
  function Mark(l: Ledger, comments: seq<CommentRow>, csvs: seq<CsvRow>, req: MarkRequest): (r: MarkOutcome)
    ensures r.response.Status() == 400 <==> !req.Complete()
    ensures r.response.Status() == 409 <==> req.Complete() && HasMark(l.rows, req.classId, req.regNo)
    ensures !r.response.Marked? ==> r.ledger == l
    ensures r.response.AlreadyMarked? ==>
      r.response.attendedAt == l.rows[FindMark(l.rows, req.classId, req.regNo).value].attendedAt
    ensures r.response.Marked? ==>
      && r.response.attendedAt == req.deviceTime
      && r.response.attendanceId == l.nextId
      && r.ledger.rows == l.rows + [AttendanceRow(l.nextId, req.classId, req.regNo, req.deviceTime)]
      && r.ledger.nextId == l.nextId + 1
    ensures !r.response.MissingFields? ==>
      r.response.comments == FindComments(comments, csvs, req.regNo, req.classId)
  {
    if !req.Complete() then MarkOutcome(MissingFields, l)
    else
      var found := FindComments(comments, csvs, req.regNo, req.classId);
      match FindMark(l.rows, req.classId, req.regNo)
      case Some(i) => MarkOutcome(AlreadyMarked(l.rows[i].attendedAt, found), l)
      case None =>
        var row := AttendanceRow(l.nextId, req.classId, req.regNo, req.deviceTime);
        MarkOutcome(Marked(l.nextId, req.deviceTime, found), Ledger(l.rows + [row], l.nextId + 1))
  }

  /** One call keeps at most one mark per pair. */
  lemma MarkPreservesUniqueness(l: Ledger, comments: seq<CommentRow>, csvs: seq<CsvRow>, req: MarkRequest)
    requires UniqueMarks(l.rows)
    ensures UniqueMarks(Mark(l, comments, csvs, req).ledger.rows)
  {
    var o := Mark(l, comments, csvs, req);
    if o.response.Marked? {
      var rows := o.ledger.rows;
      assert forall j :: 0 <= j < |l.rows| ==> rows[j] == l.rows[j];
      assert forall j :: 0 <= j < |l.rows| ==> !SamePair(rows[j], rows[|l.rows|]);
    }
  }

  /** One call keeps identifiers below the counter; a new mark's identifier
      differs from every stored one. */
  lemma MarkIdIsFresh(l: Ledger, comments: seq<CommentRow>, csvs: seq<CsvRow>, req: MarkRequest)
    requires IdsBelow(l.rows, l.nextId)
    ensures IdsBelow(Mark(l, comments, csvs, req).ledger.rows, Mark(l, comments, csvs, req).ledger.nextId)
    ensures Mark(l, comments, csvs, req).response.Marked? ==>
      forall i :: 0 <= i < |l.rows| ==> l.rows[i].attendanceId != Mark(l, comments, csvs, req).response.attendanceId
  {
  }

  /** Repeating a call: the second one answers 409 with the timestamp the
      first stored (or reported), the same comments, and no new row. */
  lemma MarkTwice(l: Ledger, comments: seq<CommentRow>, csvs: seq<CsvRow>, req: MarkRequest)
    requires req.Complete()
    ensures var first := Mark(l, comments, csvs, req);
      var second := Mark(first.ledger, comments, csvs, req);
      && second.response.AlreadyMarked?
      && second.ledger == first.ledger
      && second.response.comments == first.response.comments
      && second.response.attendedAt == first.response.attendedAt
  {
    var first := Mark(l, comments, csvs, req);
    if first.response.Marked? {
      var row := AttendanceRow(l.nextId, req.classId, req.regNo, req.deviceTime);
      var p := (r: AttendanceRow) => IsMarkOf(r, req.classId, req.regNo);
      FirstAppend(l.rows, row, p);
      assert FindMark(first.ledger.rows, req.classId, req.regNo) == Some(|l.rows|);
    }
  }

  /** Under the invariant, the 409 timestamp is that of the one persisted
      mark for the pair. */
  lemma DuplicateTimestampIsPersisted(l: Ledger, comments: seq<CommentRow>, csvs: seq<CsvRow>, req: MarkRequest)
    requires UniqueMarks(l.rows)
    requires Mark(l, comments, csvs, req).response.AlreadyMarked?
    ensures forall i :: 0 <= i < |l.rows| && IsMarkOf(l.rows[i], req.classId, req.regNo) ==>
      l.rows[i].attendedAt == Mark(l, comments, csvs, req).response.attendedAt
  {
    var k := FindMark(l.rows, req.classId, req.regNo).value;
    forall i | 0 <= i < |l.rows| && IsMarkOf(l.rows[i], req.classId, req.regNo)
      ensures i == k
    {
      if k < i {
        assert SamePair(l.rows[k], l.rows[i]);
      }
    }
  }

  /** A new mark adds its `reg_no` at the end of its class's roster and
      leaves every other class's roster alone; a rejected call changes no
      roster. */
  lemma MarkExtendsRoster(l: Ledger, comments: seq<CommentRow>, csvs: seq<CsvRow>, req: MarkRequest, classId: Value)
    ensures var o := Mark(l, comments, csvs, req);
      RegNosOf(o.ledger.rows, classId) ==
        if o.response.Marked? && SqlEq(req.classId, classId) then RegNosOf(l.rows, classId) + [req.regNo]
        else RegNosOf(l.rows, classId)
  {
    var o := Mark(l, comments, csvs, req);
    if o.response.Marked? {
      var row := AttendanceRow(l.nextId, req.classId, req.regNo, req.deviceTime);
      RegNosAppend(l.rows, [row], classId);
      assert RegNosOf([row], classId) == (if SqlEq(req.classId, classId) then [req.regNo] else []) + RegNosOf([], classId);
    }
  }

  /** No registration number occurs twice. */
  predicate NoRepeats(vs: seq<Value>) {
    forall i, j :: 0 <= i < j < |vs| ==> !SqlEq(vs[i], vs[j])
  }

  /** Under the invariant a roster names no student twice. */
  lemma {:induction false} UniqueMarksDistinctRoster(rows: seq<AttendanceRow>, classId: Value)
    requires UniqueMarks(rows)
    ensures NoRepeats(RegNosOf(rows, classId))
  {
    if rows != [] {
      var rest := rows[1..];
      assert UniqueMarks(rest) by {
        forall i, j | 0 <= i < j < |rest| ensures !SamePair(rest[i], rest[j]) {
          assert rest[i] == rows[i + 1] && rest[j] == rows[j + 1];
        }
      }
      UniqueMarksDistinctRoster(rest, classId);
      var tail := RegNosOf(rest, classId);
      if SqlEq(rows[0].classId, classId) {
        var r := [rows[0].regNo] + tail;
        assert RegNosOf(rows, classId) == r;
        forall j | 0 < j < |r| ensures !SqlEq(r[0], r[j]) {
          assert r[j] in tail;
          var k :| 0 <= k < |rest| && SqlEq(rest[k].classId, classId) && rest[k].regNo == r[j];
          assert rest[k] == rows[k + 1];
          assert !SamePair(rows[0], rows[k + 1]);
        }
        forall i, j | 0 < i < j < |r| ensures !SqlEq(r[i], r[j]) {
          assert r[i] == tail[i - 1] && r[j] == tail[j - 1];
          assert !SqlEq(tail[i - 1], tail[j - 1]);
        }
      } else {
        assert RegNosOf(rows, classId) == tail;
      }
    }
  }

  /** A sequence of calls against fixed comment and batch tables. */
  function RunMarks(l: Ledger, comments: seq<CommentRow>, csvs: seq<CsvRow>, reqs: seq<MarkRequest>): Ledger
    decreases |reqs|
  {
    if reqs == [] then l
    else RunMarks(Mark(l, comments, csvs, reqs[0]).ledger, comments, csvs, reqs[1..])
  }

  /** Any sequence of calls keeps at most one mark per pair. */
  lemma {:induction false} RunMarksPreservesUniqueness(l: Ledger, comments: seq<CommentRow>, csvs: seq<CsvRow>, reqs: seq<MarkRequest>)
    requires UniqueMarks(l.rows)
    ensures UniqueMarks(RunMarks(l, comments, csvs, reqs).rows)
    decreases |reqs|
  {
    if reqs != [] {
      MarkPreservesUniqueness(l, comments, csvs, reqs[0]);
      RunMarksPreservesUniqueness(Mark(l, comments, csvs, reqs[0]).ledger, comments, csvs, reqs[1..]);
    }
  }

  /** Calls only append: the rows present before a sequence of calls are
      still there, in place, after it. */
  lemma {:induction false} RunMarksOnlyAppends(l: Ledger, comments: seq<CommentRow>, csvs: seq<CsvRow>, reqs: seq<MarkRequest>)
    ensures l.rows <= RunMarks(l, comments, csvs, reqs).rows
    decreases |reqs|
  {
    if reqs != [] {
      var next := Mark(l, comments, csvs, reqs[0]).ledger;
      assert l.rows <= next.rows;
      RunMarksOnlyAppends(next, comments, csvs, reqs[1..]);
    }
  }

  /** After a sequence of calls every complete request has its mark. */
  lemma {:induction false} RunMarksRecordsEveryRequest(l: Ledger, comments: seq<CommentRow>, csvs: seq<CsvRow>, reqs: seq<MarkRequest>, k: nat)
    requires k < |reqs| && reqs[k].Complete()
    ensures HasMark(RunMarks(l, comments, csvs, reqs).rows, reqs[k].classId, reqs[k].regNo)
    decreases |reqs|
  {
    var next := Mark(l, comments, csvs, reqs[0]).ledger;
    if k == 0 {
      var req := reqs[0];
      var found := FindMark(l.rows, req.classId, req.regNo);
      var i := if found.Some? then found.value else |l.rows|;
      assert i < |next.rows| && IsMarkOf(next.rows[i], req.classId, req.regNo);
      RunMarksOnlyAppends(next, comments, csvs, reqs[1..]);
      var rows := RunMarks(l, comments, csvs, reqs).rows;
      assert rows == RunMarks(next, comments, csvs, reqs[1..]).rows;
      assert 0 <= i < |rows| && rows[i] == next.rows[i];
    } else {
      RunMarksRecordsEveryRequest(next, comments, csvs, reqs[1..], k - 1);
    }
  }
}
