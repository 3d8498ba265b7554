/** The handlers that write: `POST /register` and `POST /mark-attendance`,
    as methods on the tables they share. The read-only routes are the
    functions of ClassDirectory, AttendanceReport and Credentials.Login,
    applied to these fields. */
module Server {
  import opened Values
  import opened Tables
  import CommentLookup
  import AttendanceReport
  import AttendanceLedger
  import Credentials

  /** The tables of the store, each a sequence of rows in table order, with
      the auto-increment counters of `user` and `attendance`. */
  class Database {
    var users: seq<UserRow>
    var nextUserId: nat
    var classes: seq<ClassRow>
    var attendance: seq<AttendanceRow>
    var nextAttendanceId: nat
    var comments: seq<CommentRow>
    var csvs: seq<CsvRow>

    /** Auto-increment counters stay above every id they issued. */
    ghost predicate Valid()
      reads this
    {
      Credentials.UserIdsBelow(users, nextUserId)
      && AttendanceLedger.IdsBelow(attendance, nextAttendanceId)
    }

    constructor (users: seq<UserRow>, nextUserId: nat, classes: seq<ClassRow>, attendance: seq<AttendanceRow>,
                 nextAttendanceId: nat, comments: seq<CommentRow>, csvs: seq<CsvRow>)
      requires Credentials.UserIdsBelow(users, nextUserId)
      requires AttendanceLedger.IdsBelow(attendance, nextAttendanceId)
      ensures Valid()
      ensures this.users == users && this.nextUserId == nextUserId && this.classes == classes
      ensures this.attendance == attendance && this.nextAttendanceId == nextAttendanceId
      ensures this.comments == comments && this.csvs == csvs
    {
      this.users, this.nextUserId, this.classes := users, nextUserId, classes;
      this.attendance, this.nextAttendanceId := attendance, nextAttendanceId;
      this.comments, this.csvs := comments, csvs;
    }

    function UserTable(): Credentials.UserTable
      reads this
    {
      Credentials.UserTable(users, nextUserId)
    }

    function AttendanceTable(): AttendanceLedger.Ledger
      reads this
    {
      AttendanceLedger.Ledger(attendance, nextAttendanceId)
    }

    /** `POST /register`: 400 on a falsy field, 409 on a known email, 500 on
        a password bcrypt cannot hash, else one new student account under a
        fresh id. Only `user` and its counter change, and unique emails stay
        unique. */
    method Register(name: Value, email: Value, password: Value, salt: string, hash: (string, string) -> string)
      returns (resp: Credentials.RegisterResponse)
      requires Valid()
      modifies this
      ensures Valid()
      ensures var o := Credentials.Register(old(UserTable()), Credentials.RegisterRequest(name, email, password), salt, hash);
        resp == o.response && UserTable() == o.table
      ensures classes == old(classes) && attendance == old(attendance) && nextAttendanceId == old(nextAttendanceId)
      ensures comments == old(comments) && csvs == old(csvs)
      ensures Credentials.DistinctEmails(old(users)) ==> Credentials.DistinctEmails(users)
      ensures resp.Registered? ==> forall i :: 0 <= i < |old(users)| ==> old(users)[i].userId != resp.user.id
    {
      if !name.Truthy() || !email.Truthy() || !password.Truthy() {
        return Credentials.MissingFields;
      }
      var existing := Credentials.FindUser(users, email);
      if existing.Some? {
        return Credentials.EmailTaken;
      }
      if !password.Str? {
        return Credentials.HashRejected;
      }
      var hashed := hash(password.s, salt);
      var id := nextUserId;
      ghost var before := UserTable();
      users := users + [UserRow(id, name, email, Str(hashed), Credentials.STUDENT_ROLE, Credentials.LOCAL_PROVIDER, Null)];
      nextUserId := nextUserId + 1;
      resp := Credentials.Registered(
        Credentials.Claims(id, name, Some(email), Credentials.STUDENT_ROLE, Credentials.TOKEN_EXPIRY),
        Credentials.UserSummary(id, name, email, Credentials.STUDENT_ROLE));
      ghost var req := Credentials.RegisterRequest(name, email, password);
      if Credentials.DistinctEmails(before.rows) {
        Credentials.RegisterPreservesInvariants(before, req, salt, hash);
      }
    }

    /** `POST /mark-attendance`: 400 on a falsy field; else the comments for
        the student, and either 409 with the existing mark's time or a new
        mark stamped with `deviceTime` under a fresh id. Only `attendance` and its counter
        change, and at most one mark per (class, student) stays so. */
    method MarkAttendance(classId: Value, regNo: Value, deviceTime: Value)
      returns (resp: AttendanceLedger.MarkResponse)
      requires Valid()
      modifies this
      ensures Valid()
      ensures var o := AttendanceLedger.Mark(old(AttendanceTable()), old(comments), old(csvs),
                                             AttendanceLedger.MarkRequest(classId, regNo, deviceTime));
        resp == o.response && AttendanceTable() == o.ledger
      ensures users == old(users) && nextUserId == old(nextUserId) && classes == old(classes)
      ensures comments == old(comments) && csvs == old(csvs)
      ensures AttendanceLedger.UniqueMarks(old(attendance)) ==> AttendanceLedger.UniqueMarks(attendance)
      ensures resp.Marked? ==>
        forall i :: 0 <= i < |old(attendance)| ==> old(attendance)[i].attendanceId != resp.attendanceId
    {
      if !classId.Truthy() || !regNo.Truthy() || !deviceTime.Truthy() {
        return AttendanceLedger.MissingFields;
      }
      var found := CommentLookup.FindComments(comments, csvs, regNo, classId);
      var existing := AttendanceLedger.FindMark(attendance, classId, regNo);
      if existing.Some? {
        return AttendanceLedger.AlreadyMarked(attendance[existing.value].attendedAt, found);
      }
      var id := nextAttendanceId;
      ghost var before := AttendanceTable();
      attendance := attendance + [AttendanceRow(id, classId, regNo, deviceTime)];
      nextAttendanceId := nextAttendanceId + 1;
      resp := AttendanceLedger.Marked(id, deviceTime, found);
      ghost var req := AttendanceLedger.MarkRequest(classId, regNo, deviceTime);
      AttendanceLedger.MarkIdIsFresh(before, comments, csvs, req);
      if AttendanceLedger.UniqueMarks(before.rows) {
        AttendanceLedger.MarkPreservesUniqueness(before, comments, csvs, req);
      }
    }
  }

  /** Register with a numeric password, register, register again, log in,
      and log in with a wrong password. `hash` and `compare` stand for bcrypt and need
      only agree on the one password. */
  method AccountScenario(salt: string, hash: (string, string) -> string, compare: (string, string) -> bool)
    requires compare("pw123", hash("pw123", salt))
    requires !compare("wrong", hash("pw123", salt))
  {
    var db := new Database([], 1, [], [], 1, [], []);
    var alice := Credentials.RegisterRequest(Str("Alice"), Str("a@x.com"), Str("pw123"));
    var reg := db.Register(Str("Bob"), Str("b@x.com"), Num(123), salt, hash);
    assert reg.Status() == 500 && db.users == [];
    ghost var empty := db.UserTable();
    reg := db.Register(alice.name, alice.email, alice.password, salt, hash);
    assert reg.Status() == 201 && reg.user.roleId == 50;
    var u := db.users;
    Credentials.RegisterThenLogin(empty, alice, salt, hash, Str("pw123"), compare, alice, salt);
    Credentials.RegisterThenLogin(empty, alice, salt, hash, Str("wrong"), compare, alice, salt);
    reg := db.Register(alice.name, alice.email, alice.password, salt, hash);
    assert reg.Status() == 409 && db.users == u;

    var login := Credentials.Login(db.users, Str("a@x.com"), Str("pw123"), compare);
    assert login.Status() == 200 && login.userName == Str("Alice");
    login := Credentials.Login(db.users, Str("a@x.com"), Str("wrong"), compare);
    assert login.Status() == 400 && login.InvalidCredentials?;
  }

  /** Mark, mark again with a later clock, mark with an empty registration
      number, then read the report. */
  method AttendanceScenario()
  {
    var lecture := ClassRow(Num(7), Str("CS101"), Str("10:00"), Str("Hall A"), Str("k3x9"));
    var db := new Database([], 1, [lecture], [], 1, [], []);
    var first := AttendanceLedger.MarkRequest(Num(7), Str("R1"), Str("2024-01-01T10:00:00Z"));
    ghost var empty := db.AttendanceTable();

    var mark := db.MarkAttendance(first.classId, first.regNo, first.deviceTime);
    AttendanceLedger.MarkTwice(empty, [], [], first);
    assert mark.Status() == 201 && mark.attendedAt == first.deviceTime;
    mark := db.MarkAttendance(first.classId, first.regNo, first.deviceTime);
    assert mark.Status() == 409 && mark.attendedAt == first.deviceTime;
    mark := db.MarkAttendance(Num(7), Str(""), first.deviceTime);
    assert mark.Status() == 400;

    AttendanceLedger.MarkExtendsRoster(empty, [], [], first, Num(7));
    var report := AttendanceReport.GetReport(db.classes, db.attendance, "k3x9");
    assert report.Report? && report.regNos == [Str("R1")] && report.venue == Str("Hall A");
  }
}
