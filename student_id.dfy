/** The test that decides whether a (stripped) cell holds a student ID. */
module StudentIds {
  import opened Text

  /** The five clauses of the roster extractor's ID test, in the tool's
      order: non-empty, not the missing-value rendering, at least 8
      characters, some digit, and not a number once '.' and '-' are deleted. */
  predicate IsStudentId(s: string) {
    && s != ""
    && s != "nan"
    && |s| >= 8
    && HasDigit(s)
    && !IsDigits(RemoveChar(RemoveChar(s, '.'), '-'))
  }

  /** The fallback path's inline `is_student_id`: the same test without
      the first two clauses. */
  predicate LooksLikeId(s: string) {
    && |s| >= 8
    && HasDigit(s)
    && !IsDigits(RemoveChar(RemoveChar(s, '.'), '-'))
  }

  /** A character that keeps an ID from reading as a number. */
  predicate IsIdLetter(c: char) {
    !IsDigit(c) && c != '.' && c != '-'
  }

  /** What the test means: at least 8 characters, holding a digit and
      some character that is neither a digit nor '.' nor '-'. */
  lemma IsStudentIdMeaning(s: string)
    ensures IsStudentId(s) <==>
      |s| >= 8 && HasDigit(s) && exists k :: 0 <= k < |s| && IsIdLetter(s[k])
  {
    var t := RemoveChar(RemoveChar(s, '.'), '-');
    if |s| >= 8 && HasDigit(s) {
      var d :| 0 <= d < |s| && IsDigit(s[d]);
      assert s[d] in t;
      if IsDigits(t) {
        assert forall x :: x in s && x != '.' && x != '-' ==> x in t;
        assert forall k :: 0 <= k < |s| ==> s[k] in s;
      } else {
        var j :| 0 <= j < |t| && !IsDigit(t[j]);
        assert t[j] in s;
      }
    }
  }

  /** The fallback's inline test and the shared predicate agree. */
  lemma LooksLikeIdIsStudentId(s: string)
    ensures LooksLikeId(s) <==> IsStudentId(s)
  {
  }

  /** The examples that document the test. */
  lemma AcceptedIdExample()
    ensures IsStudentId("20230001A")
  {
    var s := "20230001A";
    assert IsDigit(s[0]) && IsIdLetter(s[8]);
    IsStudentIdMeaning(s);
  }

  lemma RejectedIdExamples()
    ensures !IsStudentId("abc")
    ensures !IsStudentId("20230001")
    ensures !IsStudentId("2023-0001.5")
  {
    var s := "20230001";
    assert forall k :: 0 <= k < |s| ==> IsDigit(s[k]);
    IsStudentIdMeaning(s);
    var t := "2023-0001.5";
    assert forall k :: 0 <= k < |t| ==> !IsIdLetter(t[k]);
    IsStudentIdMeaning(t);
  }
}
