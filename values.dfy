/** JSON request values, JavaScript truthiness, and the SQL comparison the
    handlers' `WHERE col = ?` clauses perform. */
module Values {

  datatype Option<+T> = None | Some(value: T)

  /** A scalar JSON value as it arrives in a request body, or as it is read
      back from a table column. `Undefined` is a field the body does not carry. */
  datatype Value = Undefined | Null | Bool(b: bool) | Num(n: int) | Str(s: string)
  {
    /** JavaScript truthiness: holds exactly when `!v` is false. */
    predicate Truthy() {
      match this
      case Undefined => false
      case Null => false
      case Bool(b) => b
      case Num(n) => n != 0
      case Str(s) => s != ""
    }

    /** The driver sends both `undefined` and `null` as SQL NULL. */
    predicate IsSqlNull() {
      Undefined? || Null?
    }
  }

  /** `a = b` in a WHERE clause: NULL equals nothing, not even NULL;
      otherwise values are compared exactly. */
  predicate SqlEq(a: Value, b: Value) {
    !a.IsSqlNull() && !b.IsSqlNull() && a == b
  }
}

/** The one query shape the handlers read back: the first row of a result
    set (`results[0]`), taken in table order. */
module Query {
  import opened Values

  /** Index of the first element of `s` that satisfies `p`, or None. */
  function First<T>(s: seq<T>, p: T -> bool): (r: Option<nat>)
    ensures r.Some? ==> r.value < |s| && p(s[r.value])
    ensures r.Some? ==> forall j :: 0 <= j < r.value ==> !p(s[j])
    ensures r.None? <==> forall j :: 0 <= j < |s| ==> !p(s[j])
  {
    if |s| == 0 then None
    else if p(s[0]) then Some(0)
    else match First(s[1..], p)
      case None => None
      case Some(k) => Some(k + 1)
  }

  /** Appending a row never changes an existing first match, and becomes
      the first match only when nothing before it qualifies. */
  lemma {:induction false} FirstAppend<T>(s: seq<T>, x: T, p: T -> bool)
    ensures First(s + [x], p) ==
      if First(s, p).Some? then First(s, p)
      else if p(x) then Some(|s|) else None
  {
    if |s| > 0 {
      assert (s + [x])[0] == s[0];
      assert (s + [x])[1..] == s[1..] + [x];
      FirstAppend(s[1..], x, p);
    }
  }
}
