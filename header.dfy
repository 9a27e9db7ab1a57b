/** The header locator: finds, in the first 20 rows of a roster grid, the
    first row with at least two keyword cells and maps each field to the
    column it was found in. */
module Header {
  import opened Text

  /** A roster spreadsheet read without a header, every cell already
      rendered as text ("nan" for a missing cell). */
  type Grid = seq<seq<string>>

  /** The semantic fields a header cell can name: 学号, 姓名, 班级, 性别, 序号. */
  datatype Field = StudentId | Name | ClassName | Gender | Seq

  const HeaderWindow := 20

  function Keywords(f: Field): seq<string> {
    match f
    case StudentId => ["学号", "student", "id"]
    case Name => ["姓名", "name", "名字"]
    case ClassName => ["班级", "class", "专业"]
    case Gender => ["性别", "gender", "男女"]
    case Seq => ["序号", "no", "编号"]
  }

  /** Position of a field in the if/elif chain that classifies a cell. */
  function Rank(f: Field): nat {
    match f
    case StudentId => 0
    case Name => 1
    case ClassName => 2
    case Gender => 3
    case Seq => 4
  }

  /** The cell, stripped and lower-cased, holds one of the field's keywords. */
  predicate Mentions(cell: string, f: Field) {
    ContainsAny(Lower(Strip(cell)), Keywords(f))
  }

  /** The order of the if/elif chain that classifies a cell. */
  const Chain := [StudentId, Name, ClassName, Gender, Seq]

  /** The first field of `fields` whose keywords the cell holds. */
  function FirstMentioned(cell: string, fields: seq<Field>): Option<Field> {
    if fields == [] then None
    else if Mentions(cell, fields[0]) then Some(fields[0])
    else FirstMentioned(cell, fields[1..])
  }

  /** The field a header cell stands for, if any; ClassifyMeaning states
      the priority. */
  function Classify(cell: string): Option<Field> {
    FirstMentioned(cell, Chain)
  }

  /** The classification of every cell of a row, in column order. */
  function Classes(row: seq<string>): (cls: seq<Option<Field>>)
    ensures |cls| == |row|
  {
    if row == [] then [] else Classes(row[..|row| - 1]) + [Classify(row[|row| - 1])]
  }

  /** `found_headers` after a row: the number of keyword cells (not of
      distinct fields). */
  function MatchCount(cls: seq<Option<Field>>): (n: nat)
    ensures n <= |cls|
  {
    if cls == [] then 0
    else MatchCount(cls[..|cls| - 1]) + (if cls[|cls| - 1].Some? then 1 else 0)
  }

  /** `temp_mapping` after a row: each field found, with the column of the
      last cell naming it. */
  function FieldMap(cls: seq<Option<Field>>): map<Field, nat> {
    if cls == [] then map[]
    else
      var m := FieldMap(cls[..|cls| - 1]);
      match cls[|cls| - 1]
      case Some(f) => m[f := |cls| - 1]
      case None => m
  }

  /** Every field in the mapping points to a cell of that field with no
      later cell of the same field, and every classified cell's field is
      in the mapping. */
  lemma {:induction false} FieldMapMeaning(cls: seq<Option<Field>>)
    ensures var m := FieldMap(cls);
      && (forall f :: f in m ==> m[f] < |cls| && cls[m[f]] == Some(f))
      && (forall f, j :: f in m && m[f] < j < |cls| ==> cls[j] != Some(f))
      && (forall j :: 0 <= j < |cls| && cls[j].Some? ==> cls[j].value in m)
  {
    if cls != [] {
      var init := cls[..|cls| - 1];
      var last := |cls| - 1;
      FieldMapMeaning(init);
      var p := FieldMap(init);
      var m := FieldMap(cls);
      forall f | f in m ensures m[f] < |cls| && cls[m[f]] == Some(f) {
        if f in p && m[f] == p[f] {
          assert cls[p[f]] == init[p[f]];
        }
      }
      forall f, j | f in m && m[f] < j < |cls| ensures cls[j] != Some(f) {
        if j < last {
          assert cls[j] == init[j];
          assert cls[m[f]] == init[m[f]];
        }
      }
      forall j | 0 <= j < |cls| && cls[j].Some? ensures cls[j].value in m {
        if j < last {
          assert cls[j] == init[j];
        }
      }
    }
  }

  /** A row is taken as the header when it has at least two keyword cells. */
  predicate IsHeaderRow(row: seq<string>) {
    MatchCount(Classes(row)) >= 2
  }

  /** Classify is the tool's if/elif chain written out. */
  lemma ClassifyChain(cell: string)
    ensures Classify(cell) ==
      if Mentions(cell, StudentId) then Some(StudentId)
      else if Mentions(cell, Name) then Some(Name)
      else if Mentions(cell, ClassName) then Some(ClassName)
      else if Mentions(cell, Gender) then Some(Gender)
      else if Mentions(cell, Seq) then Some(Seq)
      else None
  {
    assert Chain[1..] == [Name, ClassName, Gender, Seq];
    assert Chain[1..][1..] == [ClassName, Gender, Seq];
    assert Chain[1..][1..][1..] == [Gender, Seq];
    assert Chain[1..][1..][1..][1..] == [Seq];
    assert Chain[1..][1..][1..][1..][1..] == [];
    assert FirstMentioned(cell, [Seq]) == if Mentions(cell, Seq) then Some(Seq) else None;
    assert FirstMentioned(cell, [Gender, Seq]) ==
      if Mentions(cell, Gender) then Some(Gender) else FirstMentioned(cell, [Seq]);
    assert FirstMentioned(cell, [ClassName, Gender, Seq]) ==
      if Mentions(cell, ClassName) then Some(ClassName) else FirstMentioned(cell, [Gender, Seq]);
    assert FirstMentioned(cell, [Name, ClassName, Gender, Seq]) ==
      if Mentions(cell, Name) then Some(Name) else FirstMentioned(cell, [ClassName, Gender, Seq]);
  }

  /** A cell names a field exactly when it holds one of that field's
      keywords and none of the keywords of a field earlier in the chain. */
  lemma ClassifyMeaning(cell: string)
    ensures Classify(cell).None? <==> forall f :: !Mentions(cell, f)
    ensures forall f :: Classify(cell) == Some(f) <==>
      Mentions(cell, f) && forall g :: Rank(g) < Rank(f) ==> !Mentions(cell, g)
  {
    ClassifyChain(cell);
    forall f ensures Rank(f) == 0 <==> f == StudentId
      ensures Rank(f) == 1 <==> f == Name
      ensures Rank(f) == 2 <==> f == ClassName
      ensures Rank(f) == 3 <==> f == Gender
    {
    }
  }

  function Min(a: int, b: int): int {
    if a < b then a else b
  }

  /** The first row in [i, limit) with at least two keyword cells. */
  function FirstHeaderFrom(grid: Grid, i: nat, limit: nat): (r: Option<nat>)
    requires limit <= |grid|
    ensures r.Some? ==> i <= r.value < limit && IsHeaderRow(grid[r.value])
    ensures r.Some? ==> forall k :: i <= k < r.value ==> !IsHeaderRow(grid[k])
    ensures r.None? ==> forall k :: i <= k < limit ==> !IsHeaderRow(grid[k])
    decreases limit - i
  {
    if i >= limit then None
    else if IsHeaderRow(grid[i]) then Some(i)
    else FirstHeaderFrom(grid, i + 1, limit)
  }

  /** `header_row_idx`: the first of the first 20 rows that qualifies. */
  function HeaderRow(grid: Grid): Option<nat> {
    FirstHeaderFrom(grid, 0, Min(HeaderWindow, |grid|))
  }

  /** One pass over a row: `found_headers` and `temp_mapping`. */
  method ScanRow(row: seq<string>) returns (count: nat, mapping: map<Field, nat>)
    ensures count == MatchCount(Classes(row))
    ensures mapping == FieldMap(Classes(row))
  {
    count, mapping := 0, map[];
    var j := 0;
    while j < |row|
      invariant 0 <= j <= |row|
      invariant count == MatchCount(Classes(row[..j]))
      invariant mapping == FieldMap(Classes(row[..j]))
    {
      var field := Classify(row[j]);
      ClassesStep(row, j);
      CountAndMapStep(Classes(row[..j]), field);
      if field.Some? {
        mapping := mapping[field.value := j];
        count := count + 1;
      }
      j := j + 1;
    }
    assert row[..j] == row;
  }

  /** Classifying one more cell extends the classification by one. */
  lemma ClassesStep(row: seq<string>, j: nat)
    requires j < |row|
    ensures Classes(row[..j + 1]) == Classes(row[..j]) + [Classify(row[j])]
  {
    assert row[..j + 1][..j] == row[..j];
  }

  /** One more cell adds one to the count and records its column when it
      names a field. */
  lemma CountAndMapStep(cls: seq<Option<Field>>, field: Option<Field>)
    ensures MatchCount(cls + [field]) == MatchCount(cls) + (if field.Some? then 1 else 0)
    ensures FieldMap(cls + [field]) == if field.Some? then FieldMap(cls)[field.value := |cls|] else FieldMap(cls)
  {
    assert (cls + [field])[..|cls|] == cls;
  }

  /** The header scan with its early exit; `mapping` is empty when no row
      qualifies. */
  method LocateHeader(grid: Grid) returns (header: Option<nat>, mapping: map<Field, nat>)
    ensures header == HeaderRow(grid)
    ensures header.Some? ==> header.value < |grid| && mapping == FieldMap(Classes(grid[header.value]))
    ensures header.None? ==> mapping == map[]
  {
    header, mapping := None, map[];
    var limit := Min(HeaderWindow, |grid|);
    var i := 0;
    while i < limit
      invariant 0 <= i <= limit
      invariant header.None? && mapping == map[]
      invariant forall k :: 0 <= k < i ==> !IsHeaderRow(grid[k])
    {
      var count, m := ScanRow(grid[i]);
      if count >= 2 {
        assert IsHeaderRow(grid[i]);
        header, mapping := Some(i), m;
        break;
      }
      i := i + 1;
    }
    ghost var expected := HeaderRow(grid);
    if header.Some? {
      assert expected.Some? && expected.value == header.value;
    } else {
      assert expected.None?;
    }
  }

  /** Column j of a row is classified by its own cell. */
  lemma {:induction false} ClassesAt(row: seq<string>, j: nat)
    requires j < |row|
    ensures Classes(row)[j] == Classify(row[j])
  {
    if j < |row| - 1 {
      assert row[..|row| - 1][j] == row[j];
      ClassesAt(row[..|row| - 1], j);
    }
  }

  /** "学号" names the student-ID field. */
  lemma ChineseIdHeader()
    ensures Classify("学号") == Some(StudentId)
  {
    var a := "学号";
    StripUnchanged(a);
    LowerMeaning(a);
    assert Lower(a) == a;
    assert StartsWith(a, "学号");
    ClassifyChain(a);
  }

  /** "Student ID" names the student-ID field. */
  lemma EnglishIdHeader()
    ensures Classify("Student ID") == Some(StudentId)
  {
    var b := "Student ID";
    MentionsStudent(b);
    assert Chain[0] == StudentId;
  }

  // The two lemmas below take the header text as a parameter that must
  // equal "Student ID": the prover then reasons about one name for the
  // string instead of unfolding the literal at every use, which keeps
  // these proofs cheap.

  /** "Student ID", stripped and lower-cased, holds the keyword "student". */
  lemma MentionsStudent(b: string)
    requires b == "Student ID"
    ensures Mentions(b, StudentId)
  {
    StripUnchanged(b);
    LowerStudentPrefix(b);
    assert Keywords(StudentId)[1] == "student";
  }

  /** "Student ID" lower-cased starts with "student". */
  lemma LowerStudentPrefix(b: string)
    requires b == "Student ID"
    ensures StartsWith(Lower(b), "student")
  {
    LowerMeaning(b);
    var lb := Lower(b);
    assert lb[0] == LowerChar('S') == 's';
    assert lb[1] == LowerChar('t') == 't';
    assert lb[2] == LowerChar('u') == 'u';
    assert lb[3] == LowerChar('d') == 'd';
    assert lb[4] == LowerChar('e') == 'e';
    assert lb[5] == LowerChar('n') == 'n';
    assert lb[6] == LowerChar('t') == 't';
    assert lb[..7] == "student";
  }

  /** Two cells naming the same field make a header row on their own,
      and the later column is the one kept. */
  lemma RepeatedFieldMakesHeader(a: string, b: string, f: Field)
    requires Classify(a) == Some(f) && Classify(b) == Some(f)
    ensures IsHeaderRow([a, b])
    ensures FieldMap(Classes([a, b])) == map[f := 1]
  {
    var row := [a, b];
    ClassesAt(row, 0);
    ClassesAt(row, 1);
    var cls := Classes(row);
    assert cls == [Some(f), Some(f)];
    assert cls[..1] == [Some(f)] && cls[..1][..0] == [];
    assert FieldMap(cls[..1]) == map[f := 0];
  }

  /** The header row ["学号", "Student ID"]: two cells, one field. */
  lemma CountsCellsNotFields()
    ensures IsHeaderRow(["学号", "Student ID"])
    ensures FieldMap(Classes(["学号", "Student ID"])) == map[StudentId := 1]
  {
    ChineseIdHeader();
    EnglishIdHeader();
    RepeatedFieldMakesHeader("学号", "Student ID", StudentId);
  }

  /** The mapping never has more fields than the row has keyword cells. */
  lemma {:induction false} FieldMapBoundedByCount(cls: seq<Option<Field>>)
    ensures |FieldMap(cls)| <= MatchCount(cls)
  {
    if cls != [] {
      var init := cls[..|cls| - 1];
      FieldMapBoundedByCount(init);
      var m := FieldMap(init);
      match cls[|cls| - 1]
      case Some(f) =>
        assert m[f := |cls| - 1].Keys == m.Keys + {f};
        assert |m.Keys + {f}| <= |m.Keys| + |{f}|;
      case None =>
    }
  }
}
