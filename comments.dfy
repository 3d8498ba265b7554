/** Comment lookup (server.js:347-355): the first `comment_table` row for the
    student whose batch belongs to the class, or two nulls. */
module CommentLookup {
  import opened Values
  import opened Tables
  import opened Query

  /** The `comment_1` / `comment_2` pair a mark-attendance response carries. */
  datatype Comments = Comments(comment1: Value, comment2: Value)

  /** What the handler substitutes when no comment row matches. */
  const NO_COMMENTS := Comments(Null, Null)

  /** `csv_id IN (SELECT csv_id FROM csv_table WHERE class_id = ?)`. */
  predicate InClassBatch(csvs: seq<CsvRow>, csvId: Value, classId: Value) {
    exists k :: 0 <= k < |csvs| && SqlEq(csvs[k].classId, classId) && SqlEq(csvs[k].csvId, csvId)
  }

  /** The WHERE clause of the comment query, for one row. */
  predicate Matches(row: CommentRow, csvs: seq<CsvRow>, regNo: Value, classId: Value) {
    SqlEq(row.regNo, regNo) && InClassBatch(csvs, row.csvId, classId)
  }

  /** The comments for `regNo` in class `classId`: taken from the first
      matching row in table order, or both null when no row matches. */
  function FindComments(rows: seq<CommentRow>, csvs: seq<CsvRow>, regNo: Value, classId: Value): (c: Comments)
    ensures (forall i :: 0 <= i < |rows| ==> !Matches(rows[i], csvs, regNo, classId)) ==> c == NO_COMMENTS
    ensures (exists i :: 0 <= i < |rows| && Matches(rows[i], csvs, regNo, classId)) ==>
      exists i :: 0 <= i < |rows| && Matches(rows[i], csvs, regNo, classId)
        && (forall j :: 0 <= j < i ==> !Matches(rows[j], csvs, regNo, classId))
        && c == Comments(rows[i].comment1, rows[i].comment2)
  {
    match First(rows, (row: CommentRow) => Matches(row, csvs, regNo, classId))
    case None => NO_COMMENTS
    case Some(i) => Comments(rows[i].comment1, rows[i].comment2)
  }

  /** A student with no comment row at all, or a class with no batch, gets
      two nulls. */
  lemma NoBatchNoComments(rows: seq<CommentRow>, csvs: seq<CsvRow>, regNo: Value, classId: Value)
    requires (forall i :: 0 <= i < |rows| ==> !SqlEq(rows[i].regNo, regNo))
          || (forall k :: 0 <= k < |csvs| ==> !SqlEq(csvs[k].classId, classId))
    ensures FindComments(rows, csvs, regNo, classId) == NO_COMMENTS
  {
  }

  /** A comment row of another student, inserted at the front, is ignored. */
  lemma OtherStudentAtHeadIgnored(rows: seq<CommentRow>, row: CommentRow, csvs: seq<CsvRow>, regNo: Value, classId: Value)
    requires !SqlEq(row.regNo, regNo)
    ensures FindComments([row] + rows, csvs, regNo, classId) == FindComments(rows, csvs, regNo, classId)
  {
    assert ([row] + rows)[1..] == rows;
  }

  /** A comment row of another student, inserted anywhere, never changes the
      result. */
  lemma {:induction false} OtherStudentsIgnored(rows: seq<CommentRow>, row: CommentRow, k: nat,
                                                csvs: seq<CsvRow>, regNo: Value, classId: Value)
    requires !SqlEq(row.regNo, regNo)
    requires k <= |rows|
    ensures FindComments(rows[..k] + [row] + rows[k..], csvs, regNo, classId) == FindComments(rows, csvs, regNo, classId)
    decreases k
  {
    if k == 0 {
      assert rows[..0] + [row] + rows[0..] == [row] + rows;
      OtherStudentAtHeadIgnored(rows, row, csvs, regNo, classId);
    } else {
      var s := rows[..k] + [row] + rows[k..];
      var rest := rows[1..];
      assert s[0] == rows[0];
      assert s[1..] == rest[..k - 1] + [row] + rest[k - 1..];
      OtherStudentsIgnored(rest, row, k - 1, csvs, regNo, classId);
    }
  }
}
