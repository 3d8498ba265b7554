/** Class directory: `POST /get-class-id` (server.js:231-244) resolves a
    rotating code to its class by exact comparison. */
module ClassDirectory {
  import opened Values
  import opened Tables
  import opened Query

  /** Response of `POST /get-class-id`. */
  datatype ClassIdResponse = ClassNotFound | ClassFound(classId: Value)
  {
    function Status(): int {
      if ClassNotFound? then 404 else 200
    }
  }

  predicate HasCode(row: ClassRow, code: Value) {
    SqlEq(row.randomCode, code)
  }

  /** Index of the class row `SELECT ... WHERE random_code = ?` returns first. */
  function Resolve(classes: seq<ClassRow>, code: Value): (r: Option<nat>)
    ensures r.Some? ==> r.value < |classes| && classes[r.value].randomCode == code && !code.IsSqlNull()
    ensures r.Some? ==> forall j :: 0 <= j < r.value ==> classes[j].randomCode != code
    ensures r.None? <==> code.IsSqlNull() || forall j :: 0 <= j < |classes| ==> classes[j].randomCode != code
  {
    First(classes, (row: ClassRow) => HasCode(row, code))
  }

  /** 404 exactly when no row carries the code; otherwise the class id of
      the first row that does. */
  function GetClassId(classes: seq<ClassRow>, code: Value): (r: ClassIdResponse)
    ensures r.ClassNotFound? <==> forall j :: 0 <= j < |classes| ==> !SqlEq(classes[j].randomCode, code)
    ensures r.ClassFound? ==>
      exists i :: 0 <= i < |classes| && classes[i].randomCode == code
        && (forall j :: 0 <= j < i ==> classes[j].randomCode != code)
        && r.classId == classes[i].classId
  {
    match Resolve(classes, code)
    case None => ClassNotFound
    case Some(i) => ClassFound(classes[i].classId)
  }

  /** A missing or null `random_code` never resolves. */
  lemma MissingCodeNotFound(classes: seq<ClassRow>, code: Value)
    requires code.IsSqlNull()
    ensures GetClassId(classes, code) == ClassNotFound
  {
  }

  /** In the model, codes are compared exactly (a binary comparison): no
      case folding, no trimming. */
  lemma CodeMatchIsExact(id: Value)
    ensures GetClassId([ClassRow(id, Null, Null, Null, Str("abc"))], Str("ABC")) == ClassNotFound
    ensures GetClassId([ClassRow(id, Null, Null, Null, Str("ABC "))], Str("ABC")) == ClassNotFound
  {
    assert Str("abc") != Str("ABC") by { assert "abc"[0] != "ABC"[0]; }
    assert Str("ABC ") != Str("ABC") by { assert |"ABC "| != |"ABC"|; }
  }
}
