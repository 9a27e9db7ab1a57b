/** The score collector: SA and LA files fill a book keyed by student ID and
    then by the file's category key; TL files fill a flat map keyed by ID. */
module Scores {
  import opened Text
  import opened Files

  /** A cell of a score table as the spreadsheet reader delivers it. */
  datatype Value = Nan | Str(str: string) | Num(n: int)

  /** A score spreadsheet read with its first row as column labels. */
  datatype Table = Table(columns: seq<string>, rows: seq<seq<Value>>)

  /** A discovered file with the two reads the tool makes of it: without a
      header (the roster grid) and with one (the score table); None where
      the reader fails on it. */
  datatype InputFile = InputFile(path: string, grid: Option<seq<seq<string>>>, table: Option<Table>)

  /** ID → category key → score. */
  type ScoreBook = map<string, map<string, Value>>

  /** ID → discussion score. */
  type Discussion = map<string, Value>

  const IdLabel := "学号"
  const ScoreMarker := "得分"
  const DiscussionLabel := "讨论/"

  /** `row[column]`; a row shorter than the header reads as missing. */
  function CellAt(row: seq<Value>, col: nat): Value {
    if col < |row| then row[col] else Nan
  }

  function DigitChar(d: nat): char
    requires d < 10
  {
    ('0' as int + d) as char
  }

  /** The number a string of decimal digits denotes. */
  function DecimalValue(s: string): int {
    if s == [] then 0 else 10 * DecimalValue(s[..|s| - 1]) + (s[|s| - 1] as int - '0' as int)
  }

  /** The decimal digits of n: they denote n and have no leading zero. */
  function Digits(n: nat): (r: string)
    ensures IsDigits(r)
    ensures DecimalValue(r) == n
    ensures r[0] == '0' ==> r == "0"
  {
    if n < 10 then [DigitChar(n)]
    else
      var p := Digits(n / 10);
      var r := p + [DigitChar(n % 10)];
      assert r[..|p|] == p;
      r
  }

  /** `str(v)`: "nan" for a missing cell, the text of a text cell, and
      the decimal form, with a minus sign when negative, of a number. */
  function Render(v: Value): (r: string)
    ensures v.Nan? ==> r == "nan"
    ensures v.Str? ==> r == v.str
    ensures v.Num? && v.n >= 0 ==> IsDigits(r) && DecimalValue(r) == v.n
    ensures v.Num? && v.n < 0 ==> |r| > 1 && r[0] == '-' && IsDigits(r[1..]) && DecimalValue(r[1..]) == -v.n
  {
    match v
    case Nan => "nan"
    case Str(t) => t
    case Num(n) => if n < 0 then "-" + Digits(-n) else Digits(n)
  }

  /** The first column labelled exactly `name`. */
  function ColumnIndex(columns: seq<string>, name: string): (r: Option<nat>)
    ensures r.Some? ==> r.value < |columns| && columns[r.value] == name
    ensures r.Some? ==> forall k :: 0 <= k < r.value ==> columns[k] != name
    ensures r.None? ==> name !in columns
  {
    if columns == [] then None
    else if columns[0] == name then Some(0)
    else match ColumnIndex(columns[1..], name)
      case Some(k) => Some(k + 1)
      case None => None
  }

  /** The first column whose name contains 得分. */
  function ScoreColumn(columns: seq<string>): (r: Option<nat>)
    ensures r.Some? ==> r.value < |columns| && Contains(columns[r.value], ScoreMarker)
    ensures r.Some? ==> forall k :: 0 <= k < r.value ==> !Contains(columns[k], ScoreMarker)
    ensures r.None? ==> forall k :: 0 <= k < |columns| ==> !Contains(columns[k], ScoreMarker)
  {
    if columns == [] then None
    else if Contains(columns[0], ScoreMarker) then Some(0)
    else match ScoreColumn(columns[1..])
      case Some(k) => Some(k + 1)
      case None => None
  }

  /** The (ID, score) pair a row yields: both cells present, the ID
      rendered and stripped. */
  function Entry(row: seq<Value>, idCol: nat, scoreCol: nat): Option<(string, Value)> {
    var id := CellAt(row, idCol);
    var score := CellAt(row, scoreCol);
    if id != Nan && score != Nan then Some((Strip(Render(id)), score)) else None
  }

  /** `book[id][key] = v`, creating the ID's inner map when needed. */
  function Put(book: ScoreBook, id: string, key: string, v: Value): ScoreBook {
    book[id := (if id in book then book[id] else map[])[key := v]]
  }

  /** The book after one row: its entry, when it has one, is put in. */
  function BookRow(book: ScoreBook, row: seq<Value>, idCol: nat, scoreCol: nat, key: string): ScoreBook {
    match Entry(row, idCol, scoreCol)
    case Some(e) => Put(book, e.0, key, e.1)
    case None => book
  }

  /** The book after the rows of one file, in row order. */
  function BookRows(book: ScoreBook, rows: seq<seq<Value>>, idCol: nat, scoreCol: nat, key: string): ScoreBook {
    if rows == [] then book
    else BookRow(BookRows(book, rows[..|rows| - 1], idCol, scoreCol, key), rows[|rows| - 1], idCol, scoreCol, key)
  }

  /** One SA/LA file. Without a 得分 column it adds nothing; without a 学号
      column the first row's lookup fails and the file adds nothing. */
  function BookTable(book: ScoreBook, t: Table, key: string): ScoreBook {
    match ScoreColumn(t.columns)
    case None => book
    case Some(sc) =>
      match ColumnIndex(t.columns, IdLabel)
      case None => book
      case Some(ic) => BookRows(book, t.rows, ic, sc, key)
  }

  /** The book after every file of `files` that the marker routes to it. */
  function BookFiles(files: seq<InputFile>, marker: string): ScoreBook {
    if files == [] then map[]
    else
      var book := BookFiles(files[..|files| - 1], marker);
      var f := files[|files| - 1];
      if IsMarkedXls(f.path, marker) && f.table.Some? then BookTable(book, f.table.value, CategoryKey(f.path))
      else book
  }

  /** The discussion map after the rows of one TL file. */
  function DiscussionRows(tl: Discussion, rows: seq<seq<Value>>, idCol: nat, scoreCol: nat): Discussion {
    if rows == [] then tl
    else
      var d := DiscussionRows(tl, rows[..|rows| - 1], idCol, scoreCol);
      match Entry(rows[|rows| - 1], idCol, scoreCol)
      case Some(e) => d[e.0 := e.1]
      case None => d
  }

  /** One TL file: needs a column labelled exactly 讨论/ (and 学号). */
  function DiscussionTable(tl: Discussion, t: Table): Discussion {
    match ColumnIndex(t.columns, DiscussionLabel)
    case None => tl
    case Some(sc) =>
      match ColumnIndex(t.columns, IdLabel)
      case None => tl
      case Some(ic) => DiscussionRows(tl, t.rows, ic, sc)
  }

  function DiscussionFiles(files: seq<InputFile>): Discussion {
    if files == [] then map[]
    else
      var tl := DiscussionFiles(files[..|files| - 1]);
      var f := files[|files| - 1];
      if IsDiscussionFile(f.path) && f.table.Some? then DiscussionTable(tl, f.table.value) else tl
  }

  // ---------------------------------------------------------------------
  // The collection loops

  /** `for col in df.columns: if '得分' in str(col): ...; break` */
  method FindScoreColumn(columns: seq<string>) returns (r: Option<nat>)
    ensures r == ScoreColumn(columns)
  {
    r := None;
    var k := 0;
    while k < |columns|
      invariant 0 <= k <= |columns|
      invariant forall j :: 0 <= j < k ==> !Contains(columns[j], ScoreMarker)
    {
      if Contains(columns[k], ScoreMarker) {
        r := Some(k);
        break;
      }
      k := k + 1;
    }
    ghost var expected := ScoreColumn(columns);
    if r.Some? {
      assert expected.Some? && expected.value == r.value;
    } else {
      assert expected.None?;
    }
  }

  /** One row of an SA/LA file: `book[id][key] = score` when both cells
      are present. */
  method AddRow(book: ScoreBook, row: seq<Value>, idCol: nat, scoreCol: nat, key: string) returns (book': ScoreBook)
    ensures book' == BookRow(book, row, idCol, scoreCol, key)
  {
    book' := book;
    var id := CellAt(row, idCol);
    var score := CellAt(row, scoreCol);
    if id != Nan && score != Nan {
      var sid := Strip(Render(id));
      var inner := if sid in book then book[sid] else map[];
      book' := book[sid := inner[key := score]];
    }
  }

  /** The row loop of one SA/LA file, updating the book in row order. */
  method AddTable(book: ScoreBook, t: Table, key: string) returns (book': ScoreBook)
    ensures book' == BookTable(book, t, key)
  {
    book' := book;
    var sc := FindScoreColumn(t.columns);
    if sc.None? {
      return;
    }
    var ic := ColumnIndex(t.columns, IdLabel);
    if ic.None? {
      return;
    }
    var i := 0;
    while i < |t.rows|
      invariant 0 <= i <= |t.rows|
      invariant book' == BookRows(book, t.rows[..i], ic.value, sc.value, key)
    {
      assert t.rows[..i + 1][..i] == t.rows[..i];
      book' := AddRow(book', t.rows[i], ic.value, sc.value, key);
      i := i + 1;
    }
    assert t.rows[..i] == t.rows;
  }

  /** The SA (or LA) step: every routed, readable file in discovery order. */
  method CollectBook(files: seq<InputFile>, marker: string) returns (book: ScoreBook)
    ensures book == BookFiles(files, marker)
  {
    book := map[];
    var n := 0;
    while n < |files|
      invariant 0 <= n <= |files|
      invariant book == BookFiles(files[..n], marker)
    {
      assert files[..n + 1][..n] == files[..n];
      var f := files[n];
      if IsMarkedXls(f.path, marker) && f.table.Some? {
        book := AddTable(book, f.table.value, CategoryKey(f.path));
      }
      n := n + 1;
    }
    assert files[..n] == files;
  }

  /** The row loop of one TL file. */
  method AddDiscussion(tl: Discussion, t: Table) returns (tl': Discussion)
    ensures tl' == DiscussionTable(tl, t)
  {
    tl' := tl;
    var sc := ColumnIndex(t.columns, DiscussionLabel);
    if sc.None? {
      return;
    }
    var ic := ColumnIndex(t.columns, IdLabel);
    if ic.None? {
      return;
    }
    var i := 0;
    while i < |t.rows|
      invariant 0 <= i <= |t.rows|
      invariant tl' == DiscussionRows(tl, t.rows[..i], ic.value, sc.value)
    {
      assert t.rows[..i + 1][..i] == t.rows[..i];
      var id := CellAt(t.rows[i], ic.value);
      var score := CellAt(t.rows[i], sc.value);
      if id != Nan && score != Nan {
        tl' := tl'[Strip(Render(id)) := score];
      }
      i := i + 1;
    }
    assert t.rows[..i] == t.rows;
  }

  /** The TL step. */
  method CollectDiscussion(files: seq<InputFile>) returns (tl: Discussion)
    ensures tl == DiscussionFiles(files)
  {
    tl := map[];
    var n := 0;
    while n < |files|
      invariant 0 <= n <= |files|
      invariant tl == DiscussionFiles(files[..n])
    {
      assert files[..n + 1][..n] == files[..n];
      var f := files[n];
      if IsDiscussionFile(f.path) && f.table.Some? {
        tl := AddDiscussion(tl, f.table.value);
      }
      n := n + 1;
    }
    assert files[..n] == files;
  }

  // ---------------------------------------------------------------------
  // Properties

  /** The score the last row with this ID carries, if any row has one. */
  function LastScore(rows: seq<seq<Value>>, idCol: nat, scoreCol: nat, id: string): (r: Option<Value>)
    ensures r.Some? ==> exists k :: 0 <= k < |rows| && Entry(rows[k], idCol, scoreCol) == Some((id, r.value))
  {
    if rows == [] then None
    else match Entry(rows[|rows| - 1], idCol, scoreCol)
      case Some(e) =>
        if e.0 == id then Some(e.1) else LastScore(rows[..|rows| - 1], idCol, scoreCol, id)
      case None => LastScore(rows[..|rows| - 1], idCol, scoreCol, id)
  }

  /** The row yields an entry for this ID. */
  predicate Carries(row: seq<Value>, idCol: nat, scoreCol: nat, id: string) {
    Entry(row, idCol, scoreCol).Some? && Entry(row, idCol, scoreCol).value.0 == id
  }

  /** No score is found exactly when no row carries the ID. */
  lemma {:induction false} LastScoreNone(rows: seq<seq<Value>>, idCol: nat, scoreCol: nat, id: string)
    ensures LastScore(rows, idCol, scoreCol, id).None? <==>
      forall k :: 0 <= k < |rows| ==> !Carries(rows[k], idCol, scoreCol, id)
  {
    if rows != [] {
      var init := rows[..|rows| - 1];
      LastScoreNone(init, idCol, scoreCol, id);
      forall k | 0 <= k < |init| ensures init[k] == rows[k] { }
    }
  }

  /** The score found is the one of the last row that carries the ID. */
  lemma {:induction false} LastScoreIsLast(rows: seq<seq<Value>>, idCol: nat, scoreCol: nat, id: string, k: nat)
    requires k < |rows| && Carries(rows[k], idCol, scoreCol, id)
    requires forall j :: k < j < |rows| ==> !Carries(rows[j], idCol, scoreCol, id)
    ensures LastScore(rows, idCol, scoreCol, id) == Some(Entry(rows[k], idCol, scoreCol).value.1)
  {
    if k < |rows| - 1 {
      var init := rows[..|rows| - 1];
      assert !Carries(rows[|rows| - 1], idCol, scoreCol, id);
      assert init[k] == rows[k];
      forall j | k < j < |init| ensures !Carries(init[j], idCol, scoreCol, id) {
        assert init[j] == rows[j];
      }
      LastScoreIsLast(init, idCol, scoreCol, id, k);
    }
  }

  function Lookup(book: ScoreBook, id: string, key: string): Option<Value> {
    if id in book && key in book[id] then Some(book[id][key]) else None
  }

  /** Last write wins within a file: after its rows, book[id][key] is the
      score of the last row carrying that ID, or what it was before if no
      row does; every other key of every ID is untouched. */
  lemma {:induction false} BookRowsLastWins(book: ScoreBook, rows: seq<seq<Value>>, idCol: nat, scoreCol: nat,
                                           key: string, id: string, k: string)
    ensures Lookup(BookRows(book, rows, idCol, scoreCol, key), id, k) ==
      if k == key && LastScore(rows, idCol, scoreCol, id).Some? then LastScore(rows, idCol, scoreCol, id)
      else Lookup(book, id, k)
  {
    if rows != [] {
      BookRowsLastWins(book, rows[..|rows| - 1], idCol, scoreCol, key, id, k);
    }
  }

  /** The same rule for the discussion map, across rows. */
  lemma {:induction false} DiscussionLastWins(tl: Discussion, rows: seq<seq<Value>>, idCol: nat, scoreCol: nat, id: string)
    ensures var d := DiscussionRows(tl, rows, idCol, scoreCol);
      match LastScore(rows, idCol, scoreCol, id)
      case Some(v) => id in d && d[id] == v
      case None => (id in d <==> id in tl) && (id in tl ==> d[id] == tl[id])
  {
    if rows != [] {
      DiscussionLastWins(tl, rows[..|rows| - 1], idCol, scoreCol, id);
    }
  }

  /** Across files: the last routed file whose rows score an ID decides
      that ID's cell under the file's key, whatever earlier files held. */
  lemma LaterFileOverwrites(files: seq<InputFile>, marker: string, f: InputFile, id: string,
                            ic: nat, sc: nat, v: Value)
    requires IsMarkedXls(f.path, marker) && f.table.Some?
    requires ScoreColumn(f.table.value.columns) == Some(sc)
    requires ColumnIndex(f.table.value.columns, IdLabel) == Some(ic)
    requires LastScore(f.table.value.rows, ic, sc, id) == Some(v)
    ensures Lookup(BookFiles(files + [f], marker), id, CategoryKey(f.path)) == Some(v)
  {
    var g := files + [f];
    assert g[..|g| - 1] == files;
    BookRowsLastWins(BookFiles(files, marker), f.table.value.rows, ic, sc, CategoryKey(f.path), id, CategoryKey(f.path));
  }

  /** All category keys that occur in a book. */
  function CategoryKeys(book: ScoreBook): set<string> {
    set id, k | id in book && k in book[id] :: k
  }

  /** A file adds at most one new column: its own category key. */
  lemma {:induction false} BookRowsKeys(book: ScoreBook, rows: seq<seq<Value>>, idCol: nat, scoreCol: nat, key: string)
    ensures CategoryKeys(BookRows(book, rows, idCol, scoreCol, key)) <= CategoryKeys(book) + {key}
  {
    if rows != [] {
      var b := BookRows(book, rows[..|rows| - 1], idCol, scoreCol, key);
      BookRowsKeys(book, rows[..|rows| - 1], idCol, scoreCol, key);
      match Entry(rows[|rows| - 1], idCol, scoreCol)
      case Some(e) =>
        var b' := Put(b, e.0, key, e.1);
        forall k | k in CategoryKeys(b') ensures k in CategoryKeys(b) + {key} {
          var id :| id in b' && k in b'[id];
          if k != key {
            assert id in b && k in b[id];
          }
        }
      case None =>
    }
  }

  /** A file whose table has no 得分 column leaves the book as it was. */
  lemma NoScoreColumnNoChange(book: ScoreBook, t: Table, key: string)
    requires forall k :: 0 <= k < |t.columns| ==> !Contains(t.columns[k], ScoreMarker)
    ensures BookTable(book, t, key) == book
  {
  }
}
