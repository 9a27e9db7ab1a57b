/** The roster extractor: walks up to 30 rows below a header (or below the
    first ID-keyword cell) and emits one student record per row whose ID
    cell passes the ID test. */
module Roster {
  import opened Text
  import opened StudentIds
  import opened Header

  /** One roster entry: 学号, 姓名, 原序号, 班级, 性别, 来源文件. */
  datatype Student = Student(
    id: string,
    name: string,
    originalSeq: string,
    className: string,
    gender: string,
    sourceFile: string)

  /** How the columns of a roster file are found: from the header row's
      field mapping, or by inference around a lone ID column. */
  datatype Strategy = Mapped(columns: map<Field, nat>) | Fallback(idColumn: nat)

  /** The mapped strategy is only used with a mapping that has an ID column. */
  predicate Usable(s: Strategy) {
    s.Mapped? ==> StudentId in s.columns
  }

  function IdColumn(s: Strategy): nat
    requires Usable(s)
  {
    match s
    case Mapped(columns) => columns[StudentId]
    case Fallback(col) => col
  }

  const SearchDepth := 30
  const Missing := "nan"

  // ---------------------------------------------------------------------
  // The ID cell of a row

  /** The stripped ID in column `col`, when the row has that column and the
      ID test accepts it. */
  function RowId(row: seq<string>, col: nat): (r: Option<string>)
    ensures r.Some? <==> col < |row| && IsStudentId(Strip(row[col]))
    ensures r.Some? ==> r.value == Strip(row[col])
  {
    if col < |row| && IsStudentId(Strip(row[col])) then Some(Strip(row[col])) else None
  }

  // ---------------------------------------------------------------------
  // Mapped attributes

  /** 姓名, 班级 or 性别 under a header mapping: the stripped cell, unless
      the column is unmapped, beyond the row, blank or "nan". */
  function MappedText(row: seq<string>, columns: map<Field, nat>, f: Field): (r: string)
    ensures r != Missing
    ensures r != "" <==>
      f in columns && columns[f] < |row| && Strip(row[columns[f]]) !in {"", Missing}
    ensures r != "" ==> r == Strip(row[columns[f]])
  {
    if f in columns && columns[f] < |row| then
      var v := Strip(row[columns[f]]);
      if v != "" && v != Missing then v else ""
    else ""
  }

  /** 原序号 under a header mapping: kept only when all digits. */
  function MappedSeq(row: seq<string>, columns: map<Field, nat>): (r: string)
    ensures r == "" || IsDigits(r)
    ensures r != "" <==> Seq in columns && columns[Seq] < |row| && IsDigits(Strip(row[columns[Seq]]))
    ensures r != "" ==> r == Strip(row[columns[Seq]])
  {
    if Seq in columns && columns[Seq] < |row| then
      var v := Strip(row[columns[Seq]]);
      assert !IsDigit(Missing[0]);
      if v != "" && v != Missing && IsDigits(v) then v else ""
    else ""
  }

  // ---------------------------------------------------------------------
  // Fallback attributes

  /** Name, sequence, gender and class inferred from a row, "" when unset. */
  datatype Attributes = Attributes(name: string, originalSeq: string, gender: string, className: string)

  const NoAttributes := Attributes("", "", "", "")
  const NameExclusions := ["class", "grade", "班", "级", "系", "院", "专业"]
  const ClassMarkers := ["T", "工商", "管理", "经济", "金融", "会计"]

  /** A value that takes the name branch of the chain while no name is set. */
  predicate EntersNameBranch(v: string) {
    !(LooksLikeId(v) || IsDigits(RemoveChar(v, '.')))
  }

  predicate IsNameCandidate(v: string) {
    EntersNameBranch(v) && 2 <= |v| <= 15 && !ContainsAny(Lower(v), NameExclusions)
  }

  predicate IsSeqCandidate(v: string) {
    IsDigits(v) && |v| <= 3
  }

  predicate IsGender(v: string) {
    v == "男" || v == "女"
  }

  predicate IsClassCandidate(v: string) {
    ContainsAny(v, ClassMarkers) && 3 <= |v| <= 20
  }

  /** One cell of the fallback's if/elif chain. A blank or "nan" cell is
      skipped; otherwise its stripped value fills at most one unset field. */
  function Absorb(a: Attributes, cell: string): Attributes {
    if cell == "" || cell == Missing then a
    else
      var v := Strip(cell);
      if a.name == "" && EntersNameBranch(v) then
        (if 2 <= |v| <= 15 && !ContainsAny(Lower(v), NameExclusions) then a.(name := v) else a)
      else if a.originalSeq == "" && IsSeqCandidate(v) then a.(originalSeq := v)
      else if a.gender == "" && IsGender(v) then a.(gender := v)
      else if a.className == "" then
        (if IsClassCandidate(v) then a.(className := v) else a)
      else a
  }

  /** One cell never overwrites a field already set, keeps every set
      field of its own kind, and sets at most one field; a blank or "nan"
      cell sets none. */
  lemma AbsorbMeaning(a: Attributes, cell: string)
    ensures var b := Absorb(a, cell);
      && Keeps(a, b)
      && (WellFormed(a) ==> WellFormed(b))
      && (b == a || b == a.(name := b.name) || b == a.(originalSeq := b.originalSeq)
          || b == a.(gender := b.gender) || b == a.(className := b.className))
      && (cell == "" || cell == Missing ==> b == a)
  {
  }

  /** The attributes inferred from the cells of `row`, left to right,
      skipping the ID column. */
  function Infer(row: seq<string>, idCol: nat): Attributes {
    if row == [] then NoAttributes
    else
      var a := Infer(row[..|row| - 1], idCol);
      if |row| - 1 == idCol then a else Absorb(a, row[|row| - 1])
  }

  /** Every field that is set holds a value of its own kind. */
  predicate WellFormed(a: Attributes) {
    && (a.name == "" || IsNameCandidate(a.name))
    && (a.originalSeq == "" || IsSeqCandidate(a.originalSeq))
    && (a.gender == "" || IsGender(a.gender))
    && (a.className == "" || IsClassCandidate(a.className))
  }

  /** `b` keeps every field `a` has set (first wins). */
  predicate Keeps(a: Attributes, b: Attributes) {
    && (a.name != "" ==> b.name == a.name)
    && (a.originalSeq != "" ==> b.originalSeq == a.originalSeq)
    && (a.gender != "" ==> b.gender == a.gender)
    && (a.className != "" ==> b.className == a.className)
  }

  /** The fallback's loop over the other cells of a row. */
  method InferAttributes(row: seq<string>, idCol: nat) returns (a: Attributes)
    ensures a == Infer(row, idCol)
  {
    a := NoAttributes;
    var k := 0;
    while k < |row|
      invariant 0 <= k <= |row|
      invariant a == Infer(row[..k], idCol)
    {
      assert row[..k + 1][..k] == row[..k];
      if k != idCol {
        a := Absorb(a, row[k]);
      }
      k := k + 1;
    }
    assert row[..k] == row;
  }

  // ---------------------------------------------------------------------
  // Records over a window of rows

  /** The record a row yields under a strategy, if its ID cell passes. */
  function RowStudent(row: seq<string>, s: Strategy, file: string): (r: Option<Student>)
    requires Usable(s)
    ensures r.Some? <==> RowId(row, IdColumn(s)).Some?
    ensures r.Some? ==> r.value.id == RowId(row, IdColumn(s)).value && r.value.sourceFile == file
  {
    match RowId(row, IdColumn(s))
    case None => None
    case Some(id) =>
      match s
      case Mapped(c) =>
        Some(Student(id, MappedText(row, c, Name), MappedSeq(row, c),
                     MappedText(row, c, ClassName), MappedText(row, c, Gender), file))
      case Fallback(col) =>
        var a := Infer(row, col);
        Some(Student(id, a.name, a.originalSeq, a.className, a.gender, file))
  }

  /** The records of `rows`, one per row whose ID cell passes, in row order. */
  function Records(rows: seq<seq<string>>, s: Strategy, file: string): (r: seq<Student>)
    requires Usable(s)
    ensures |r| <= |rows|
    ensures forall k :: 0 <= k < |r| ==> IsStudentId(r[k].id) && r[k].sourceFile == file
  {
    if rows == [] then []
    else
      var init := Records(rows[..|rows| - 1], s, file);
      match RowStudent(rows[|rows| - 1], s, file)
      case Some(st) => init + [st]
      case None => init
  }

  /** The rows searched below row `start`: at most 30, never past the end. */
  function Window(grid: Grid, start: nat): (w: Grid)
    requires start < |grid|
    ensures |w| <= SearchDepth
  {
    grid[start + 1..Min(start + SearchDepth + 1, |grid|)]
  }

  /** The body of the extraction loop for one row: the ID test, then the
      attributes from the mapping or by inference. */
  method ExtractRow(row: seq<string>, s: Strategy, file: string) returns (r: Option<Student>)
    requires Usable(s)
    ensures r == RowStudent(row, s, file)
  {
    var id := RowId(row, IdColumn(s));
    if id.None? {
      return None;
    }
    match s {
      case Mapped(c) =>
        r := Some(Student(id.value, MappedText(row, c, Name), MappedSeq(row, c),
                          MappedText(row, c, ClassName), MappedText(row, c, Gender), file));
      case Fallback(col) =>
        var a := InferAttributes(row, col);
        r := Some(Student(id.value, a.name, a.originalSeq, a.className, a.gender, file));
    }
  }

  /** The extraction loop of either path over the window below `start`. */
  method ExtractWindow(grid: Grid, start: nat, s: Strategy, file: string) returns (students: seq<Student>)
    requires start < |grid| && Usable(s)
    ensures students == Records(Window(grid, start), s, file)
  {
    var rows := Window(grid, start);
    students := [];
    var i := 0;
    while i < |rows|
      invariant 0 <= i <= |rows|
      invariant students == Records(rows[..i], s, file)
    {
      assert rows[..i + 1][..i] == rows[..i];
      var st := ExtractRow(rows[i], s, file);
      if st.Some? {
        students := students + [st.value];
      }
      i := i + 1;
    }
    assert rows[..i] == rows;
  }

  // ---------------------------------------------------------------------
  // The fallback anchor

  /** The first cell at or after column j that holds an ID keyword. */
  function FirstIdCellFrom(row: seq<string>, j: nat): (r: Option<nat>)
    ensures r.Some? ==> j <= r.value < |row| && Mentions(row[r.value], StudentId)
    ensures r.Some? ==> forall l :: j <= l < r.value ==> !Mentions(row[l], StudentId)
    ensures r.None? ==> forall l :: j <= l < |row| ==> !Mentions(row[l], StudentId)
    decreases |row| - j
  {
    if j >= |row| then None
    else if Mentions(row[j], StudentId) then Some(j)
    else FirstIdCellFrom(row, j + 1)
  }

  /** The first ID-keyword cell, in row-major order, of rows [i, limit). */
  function AnchorFrom(grid: Grid, i: nat, limit: nat): (r: Option<(nat, nat)>)
    requires limit <= |grid|
    ensures r.Some? ==> i <= r.value.0 < limit && r.value.1 < |grid[r.value.0]|
    ensures r.Some? ==> Mentions(grid[r.value.0][r.value.1], StudentId)
    ensures r.Some? ==> forall l :: 0 <= l < r.value.1 ==> !Mentions(grid[r.value.0][l], StudentId)
    ensures r.Some? ==> forall k, l :: i <= k < r.value.0 && 0 <= l < |grid[k]| ==> !Mentions(grid[k][l], StudentId)
    ensures r.None? ==> forall k, l :: i <= k < limit && 0 <= l < |grid[k]| ==> !Mentions(grid[k][l], StudentId)
    decreases limit - i
  {
    if i >= limit then None
    else
      match FirstIdCellFrom(grid[i], 0)
      case Some(j) => Some((i, j))
      case None => AnchorFrom(grid, i + 1, limit)
  }

  /** The fallback's anchor: row and column of the first ID-keyword cell
      among the first 20 rows. */
  function Anchor(grid: Grid): Option<(nat, nat)> {
    AnchorFrom(grid, 0, Min(HeaderWindow, |grid|))
  }

  /** The fallback's nested search for an ID-keyword cell. */
  method FindAnchor(grid: Grid) returns (anchor: Option<(nat, nat)>)
    ensures anchor == Anchor(grid)
  {
    anchor := None;
    var limit := Min(HeaderWindow, |grid|);
    var i := 0;
    while i < limit
      invariant 0 <= i <= limit
      invariant anchor.None?
      invariant forall k, l :: 0 <= k < i && 0 <= l < |grid[k]| ==> !Mentions(grid[k][l], StudentId)
    {
      var row := grid[i];
      var j := 0;
      while j < |row|
        invariant 0 <= j <= |row|
        invariant anchor.None?
        invariant forall l :: 0 <= l < j ==> !Mentions(row[l], StudentId)
      {
        if Mentions(row[j], StudentId) {
          anchor := Some((i, j));
          break;
        }
        j := j + 1;
      }
      if anchor.Some? {
        break;
      }
      i := i + 1;
    }
    ghost var expected := Anchor(grid);
    if anchor.Some? {
      assert expected.Some? && expected.value == anchor.value;
    } else {
      assert expected.None?;
    }
  }

  // ---------------------------------------------------------------------
  // One roster file

  /** The path a roster grid takes: the header mapping when a header row
      was found and maps 学号, otherwise the anchor, otherwise nothing. */
  function ChooseStrategy(grid: Grid): (r: Option<(nat, Strategy)>)
    ensures r.Some? ==> r.value.0 < |grid| && Usable(r.value.1)
  {
    match HeaderRow(grid)
    case Some(h) =>
      var m := FieldMap(Classes(grid[h]));
      if StudentId in m then Some((h, Mapped(m))) else FallbackStrategy(grid)
    case None => FallbackStrategy(grid)
  }

  function FallbackStrategy(grid: Grid): (r: Option<(nat, Strategy)>)
    ensures r.Some? ==> r.value.0 < |grid| && Usable(r.value.1)
  {
    match Anchor(grid)
    case Some(cell) => Some((cell.0, Fallback(cell.1)))
    case None => None
  }

  /** The records one roster grid contributes: at most 30, each with an
      ID that passes the test and the file's name as its source. */
  function RosterOf(grid: Grid, file: string): (r: seq<Student>)
    ensures |r| <= SearchDepth
    ensures forall k :: 0 <= k < |r| ==> IsStudentId(r[k].id) && r[k].sourceFile == file
  {
    match ChooseStrategy(grid)
    case None => []
    case Some(choice) => Records(Window(grid, choice.0), choice.1, file)
  }

  /** Extraction from one roster file: header scan, then one of the paths. */
  method ExtractRoster(grid: Grid, file: string) returns (students: seq<Student>)
    ensures students == RosterOf(grid, file)
  {
    var header, mapping := LocateHeader(grid);
    if header.Some? && StudentId in mapping {
      students := ExtractWindow(grid, header.value, Mapped(mapping), file);
    } else {
      var anchor := FindAnchor(grid);
      if anchor.Some? {
        students := ExtractWindow(grid, anchor.value.0, Fallback(anchor.value.1), file);
      } else {
        students := [];
      }
    }
  }

  // ---------------------------------------------------------------------
  // Properties

  function Yield(r: Option<Student>): seq<Student> {
    match r
    case Some(st) => [st]
    case None => []
  }

  /** Records are produced row by row: concatenating rows concatenates
      their records. */
  lemma {:induction false} RecordsAppend(a: seq<seq<string>>, b: seq<seq<string>>, s: Strategy, file: string)
    requires Usable(s)
    ensures Records(a + b, s, file) == Records(a, s, file) + Records(b, s, file)
    decreases |b|
  {
    if b == [] {
      assert a + b == a;
    } else {
      var b' := b[..|b| - 1];
      assert (a + b)[..|a + b| - 1] == a + b';
      RecordsAppend(a, b', s, file);
    }
  }

  /** Row i contributes exactly its own record, if any, between the
      records of the rows before and after it. */
  lemma RowContribution(rows: seq<seq<string>>, i: nat, s: Strategy, file: string)
    requires Usable(s) && i < |rows|
    ensures Records(rows, s, file) ==
      Records(rows[..i], s, file) + Yield(RowStudent(rows[i], s, file)) + Records(rows[i + 1..], s, file)
  {
    assert rows == rows[..i] + [rows[i]] + rows[i + 1..];
    RecordsAppend(rows[..i] + [rows[i]], rows[i + 1..], s, file);
    RecordsAppend(rows[..i], [rows[i]], s, file);
    assert [rows[i]][..0] == [];
  }

  /** Inference only ever stores values of the right kind. */
  lemma {:induction false} InferWellFormed(row: seq<string>, idCol: nat)
    ensures WellFormed(Infer(row, idCol))
  {
    if row != [] {
      InferWellFormed(row[..|row| - 1], idCol);
    }
  }

  /** First wins: a field set by the first n cells is never changed by the
      cells after them. */
  lemma {:induction false} InferFirstWins(row: seq<string>, n: nat, idCol: nat)
    requires n <= |row|
    ensures Keeps(Infer(row[..n], idCol), Infer(row, idCol))
    decreases |row|
  {
    if n == |row| {
      assert row[..n] == row;
    } else {
      var init := row[..|row| - 1];
      assert init[..n] == row[..n];
      InferFirstWins(init, n, idCol);
    }
  }

  /** The ID column's own cell never feeds the inferred attributes. */
  lemma {:induction false} InferIgnoresIdColumn(row: seq<string>, idCol: nat, x: string)
    requires idCol < |row|
    ensures Infer(row[idCol := x], idCol) == Infer(row, idCol)
    decreases |row|
  {
    var row' := row[idCol := x];
    if idCol < |row| - 1 {
      assert row'[..|row'| - 1] == row[..|row| - 1][idCol := x];
      InferIgnoresIdColumn(row[..|row| - 1], idCol, x);
    } else {
      assert row'[..|row'| - 1] == row[..|row| - 1];
    }
  }

  /** While no name is set, a cell that is neither ID-like nor numeric is
      spent on the name branch even when it is rejected there, so it can
      never become the sequence, the gender or the class. */
  lemma NameBranchShadows(a: Attributes, cell: string)
    requires cell != "" && cell != Missing
    requires a.name == "" && EntersNameBranch(Strip(cell))
    ensures var b := Absorb(a, cell);
      b.originalSeq == a.originalSeq && b.gender == a.gender && b.className == a.className
  {
  }

  /** So a gender column left of the name column is lost: the row
      ["20230001A", "男", "张三"] infers no gender. */
  lemma GenderBeforeNameIsLost()
    ensures Infer(["20230001A", "男", "张三"], 0).gender == ""
  {
    var row := ["20230001A", "男", "张三"];
    var male := "男";
    StripUnchanged(male);
    assert RemoveChar(male, '.') == male;
    assert !IsDigit(male[0]);
    assert EntersNameBranch(male);
    assert row[..2] == ["20230001A", "男"] && row[..2][..1] == ["20230001A"];
    var r1: seq<string> := ["20230001A"];
    assert r1[..|r1| - 1] == [];
    assert Infer(r1, 0) == Infer([], 0);
    var a1 := Infer(row[..2][..1], 0);
    assert a1 == NoAttributes;
    var a2 := Infer(row[..2], 0);
    assert a2 == Absorb(a1, male);
    assert a2.gender == "";
  }
}
