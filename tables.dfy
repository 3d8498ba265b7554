/** One record type per table the handlers read or write. Columns whose
    SQL type the handlers never rely on hold a `Value`. */
module Tables {
  import opened Values

  /** A row of `user`. `password` holds the stored hash (or NULL for
      accounts of another provider). */
  datatype UserRow = UserRow(
    userId: nat,
    userName: Value,
    email: Value,
    password: Value,
    roleId: int,
    authProvider: string,
    authId: Value)

  /** A row of `classes`; `randomCode` is the rotating public code. */
  datatype ClassRow = ClassRow(
    classId: Value,
    subjectCode: Value,
    scheduledTime: Value,
    venue: Value,
    randomCode: Value)

  /** A row of `attendance`: one mark, stamped with the caller's clock. */
  datatype AttendanceRow = AttendanceRow(
    attendanceId: nat,
    classId: Value,
    regNo: Value,
    attendedAt: Value)

  /** A row of `comment_table`: instructor feedback for one student in one
      uploaded batch. */
  datatype CommentRow = CommentRow(
    regNo: Value,
    csvId: Value,
    comment1: Value,
    comment2: Value)

  /** A row of `csv_table`: links an uploaded batch to a class. */
  datatype CsvRow = CsvRow(csvId: Value, classId: Value)
}
