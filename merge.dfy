/** The merge step: one summary row per roster record, in roster order,
    with one column per SA key and per LA key (each block sorted) and a
    final discussion column; a score the books do not hold reads as 0. */
module Merge {
  import opened Roster
  import opened Scores
  import opened Ordering

  const FixedColumns := ["序号", "原序号", "学号", "姓名", "班级", "性别", "来源文件"]
  const DiscussionColumn := "TL讨论"

  /** Position of the 学号 cell in every row. */
  const IdPosition := 2

  /** The summary table: column names and rows of cells. */
  datatype Summary = Summary(columns: seq<string>, rows: seq<seq<Value>>)

  /** The header of the summary for the given SA and LA key lists. */
  function Columns(saKeys: seq<string>, laKeys: seq<string>): seq<string> {
    FixedColumns + saKeys + laKeys + [DiscussionColumn]
  }

  /** `book[id][key]` when both are present, else 0. */
  function Score(book: ScoreBook, id: string, key: string): (v: Value)
    ensures v != Num(0) ==> id in book && key in book[id] && v == book[id][key]
    ensures id in book && key in book[id] ==> v == book[id][key]
  {
    if id in book && key in book[id] then book[id][key] else Num(0)
  }

  /** `tl_scores.get(id, 0)` */
  function DiscussionScore(tl: Discussion, id: string): (v: Value)
    ensures id in tl ==> v == tl[id]
    ensures id !in tl ==> v == Num(0)
  {
    if id in tl then tl[id] else Num(0)
  }

  /** The student's scores under the keys, in key order. */
  function ScoreCells(book: ScoreBook, id: string, keys: seq<string>): (r: seq<Value>)
    ensures |r| == |keys|
    ensures forall k :: 0 <= k < |keys| ==> r[k] == Score(book, id, keys[k])
  {
    if keys == [] then [] else ScoreCells(book, id, keys[..|keys| - 1]) + [Score(book, id, keys[|keys| - 1])]
  }

  /** The seven roster cells of a row; n is the 1-based new index. */
  function InfoCells(n: nat, st: Student): seq<Value> {
    [Num(n), Str(st.originalSeq), Str(st.id), Str(st.name), Str(st.className), Str(st.gender), Str(st.sourceFile)]
  }

  function SummaryRow(n: nat, st: Student, sa: ScoreBook, la: ScoreBook, tl: Discussion,
                      saKeys: seq<string>, laKeys: seq<string>): (r: seq<Value>)
    ensures |r| == |Columns(saKeys, laKeys)|
  {
    InfoCells(n, st) + ScoreCells(sa, st.id, saKeys) + ScoreCells(la, st.id, laKeys) + [DiscussionScore(tl, st.id)]
  }

  /** The rows for a roster prefix. */
  function Rows(roster: seq<Student>, sa: ScoreBook, la: ScoreBook, tl: Discussion,
                saKeys: seq<string>, laKeys: seq<string>): (r: seq<seq<Value>>)
    ensures |r| == |roster|
    ensures forall i :: 0 <= i < |r| ==> |r[i]| == |Columns(saKeys, laKeys)|
  {
    if roster == [] then []
    else Rows(roster[..|roster| - 1], sa, la, tl, saKeys, laKeys)
         + [SummaryRow(|roster|, roster[|roster| - 1], sa, la, tl, saKeys, laKeys)]
  }

  /** The summary the merge step builds from the roster and the three maps. */
  ghost function MergeOf(roster: seq<Student>, sa: ScoreBook, la: ScoreBook, tl: Discussion): Summary {
    var saKeys := SortedOf(CategoryKeys(sa));
    var laKeys := SortedOf(CategoryKeys(la));
    Summary(Columns(saKeys, laKeys), Rows(roster, sa, la, tl, saKeys, laKeys))
  }

  /** `for key in keys: row.append(score or 0)` */
  method AppendScores(row: seq<Value>, book: ScoreBook, id: string, keys: seq<string>) returns (row': seq<Value>)
    ensures row' == row + ScoreCells(book, id, keys)
  {
    row' := row;
    var k := 0;
    while k < |keys|
      invariant 0 <= k <= |keys|
      invariant row' == row + ScoreCells(book, id, keys[..k])
    {
      assert keys[..k + 1][..k] == keys[..k];
      var score := Num(0);
      if id in book && keys[k] in book[id] {
        score := book[id][keys[k]];
      }
      row' := row' + [score];
      k := k + 1;
    }
    assert keys[..k] == keys;
  }

  /** One summary row: the roster cells, then the SA, LA and TL scores. */
  method BuildRow(n: nat, st: Student, sa: ScoreBook, la: ScoreBook, tl: Discussion,
                  saKeys: seq<string>, laKeys: seq<string>) returns (row: seq<Value>)
    ensures row == SummaryRow(n, st, sa, la, tl, saKeys, laKeys)
  {
    row := InfoCells(n, st);
    row := AppendScores(row, sa, st.id, saKeys);
    row := AppendScores(row, la, st.id, laKeys);
    var tlScore := if st.id in tl then tl[st.id] else Num(0);
    row := row + [tlScore];
  }

  /** The merge step: the sorted key lists, then one row per roster record. */
  method MergeScores(roster: seq<Student>, sa: ScoreBook, la: ScoreBook, tl: Discussion) returns (summary: Summary)
    ensures summary == MergeOf(roster, sa, la, tl)
  {
    var saKeys := SortedKeys(CategoryKeys(sa));
    var laKeys := SortedKeys(CategoryKeys(la));
    var rows := [];
    var i := 0;
    while i < |roster|
      invariant 0 <= i <= |roster|
      invariant rows == Rows(roster[..i], sa, la, tl, saKeys, laKeys)
    {
      assert roster[..i + 1][..i] == roster[..i];
      var row := BuildRow(i + 1, roster[i], sa, la, tl, saKeys, laKeys);
      rows := rows + [row];
      i := i + 1;
    }
    assert roster[..i] == roster;
    summary := Summary(Columns(saKeys, laKeys), rows);
  }

  // ---------------------------------------------------------------------
  // Properties

  /** Row i is built from roster record i. */
  lemma {:induction false} RowsAt(roster: seq<Student>, sa: ScoreBook, la: ScoreBook, tl: Discussion,
                                  saKeys: seq<string>, laKeys: seq<string>, i: nat)
    requires i < |roster|
    ensures Rows(roster, sa, la, tl, saKeys, laKeys)[i] == SummaryRow(i + 1, roster[i], sa, la, tl, saKeys, laKeys)
  {
    if i < |roster| - 1 {
      assert roster[..|roster| - 1][i] == roster[i];
      RowsAt(roster[..|roster| - 1], sa, la, tl, saKeys, laKeys, i);
    }
  }

  /** The header: fixed columns, then the SA keys, the LA keys and the
      discussion column. */
  lemma ColumnsAt(saKeys: seq<string>, laKeys: seq<string>)
    ensures var cols := Columns(saKeys, laKeys);
      && |cols| == 8 + |saKeys| + |laKeys|
      && cols[IdPosition] == "学号"
      && (forall k :: 0 <= k < |saKeys| ==> cols[7 + k] == saKeys[k])
      && (forall k :: 0 <= k < |laKeys| ==> cols[7 + |saKeys| + k] == laKeys[k])
      && cols[|cols| - 1] == DiscussionColumn
  {
  }

  /** The roster part of a row. */
  lemma RowInfoAt(n: nat, st: Student, sa: ScoreBook, la: ScoreBook, tl: Discussion,
                  saKeys: seq<string>, laKeys: seq<string>)
    ensures var row := SummaryRow(n, st, sa, la, tl, saKeys, laKeys);
      row[0] == Num(n) && row[IdPosition] == Str(st.id) && row[6] == Str(st.sourceFile)
  {
  }

  /** The k-th SA cell holds the student's score under the k-th SA key, 0
      when the book has none. */
  lemma RowSaAt(n: nat, st: Student, sa: ScoreBook, la: ScoreBook, tl: Discussion,
                saKeys: seq<string>, laKeys: seq<string>)
    ensures var row := SummaryRow(n, st, sa, la, tl, saKeys, laKeys);
      forall k :: 0 <= k < |saKeys| ==> row[7 + k] == Score(sa, st.id, saKeys[k])
  {
  }

  /** The same for the LA block, after the SA block. */
  lemma RowLaAt(n: nat, st: Student, sa: ScoreBook, la: ScoreBook, tl: Discussion,
                saKeys: seq<string>, laKeys: seq<string>)
    ensures var row := SummaryRow(n, st, sa, la, tl, saKeys, laKeys);
      forall k :: 0 <= k < |laKeys| ==> row[7 + |saKeys| + k] == Score(la, st.id, laKeys[k])
  {
  }

  /** The last cell is the discussion score, 0 when there is none. */
  lemma RowDiscussionAt(n: nat, st: Student, sa: ScoreBook, la: ScoreBook, tl: Discussion,
                        saKeys: seq<string>, laKeys: seq<string>)
    ensures var row := SummaryRow(n, st, sa, la, tl, saKeys, laKeys);
      row[|row| - 1] == DiscussionScore(tl, st.id)
  {
  }

  /** The header lists every SA key once and every LA key once, each block
      in ascending order, and nothing else beyond the fixed columns and the
      discussion column. */
  lemma ColumnsMeaning(sa: ScoreBook, la: ScoreBook)
    ensures var saKeys := SortedOf(CategoryKeys(sa));
      var laKeys := SortedOf(CategoryKeys(la));
      var cols := MergeOf([], sa, la, map[]).columns;
      && cols == FixedColumns + saKeys + laKeys + [DiscussionColumn]
      && StrictlySorted(saKeys) && (forall x :: x in saKeys <==> exists id :: id in sa && x in sa[id])
      && StrictlySorted(laKeys) && (forall x :: x in laKeys <==> exists id :: id in la && x in la[id])
  {
    var saKeys := SortedOf(CategoryKeys(sa));
    var laKeys := SortedOf(CategoryKeys(la));
    forall x ensures x in saKeys <==> exists id :: id in sa && x in sa[id] {
      if x in saKeys {
        assert x in CategoryKeys(sa);
      } else {
        assert x !in CategoryKeys(sa);
      }
    }
    forall x ensures x in laKeys <==> exists id :: id in la && x in la[id] {
      if x in laKeys {
        assert x in CategoryKeys(la);
      } else {
        assert x !in CategoryKeys(la);
      }
    }
  }

  /** Two books that agree on an ID give that ID the same score cells. */
  lemma ScoreCellsAgree(book: ScoreBook, book': ScoreBook, id: string, keys: seq<string>)
    requires id in book <==> id in book'
    requires id in book ==> book[id] == book'[id]
    ensures ScoreCells(book, id, keys) == ScoreCells(book', id, keys)
  {
    var a := ScoreCells(book, id, keys);
    var b := ScoreCells(book', id, keys);
    forall k | 0 <= k < |keys| ensures a[k] == b[k] {
      assert a[k] == Score(book, id, keys[k]) && b[k] == Score(book', id, keys[k]);
    }
  }

  /** Only the IDs on the roster matter: scores recorded for other IDs
      change no row (they can only add columns). */
  lemma {:induction false} LeftJoin(roster: seq<Student>, sa: ScoreBook, la: ScoreBook, tl: Discussion,
                                    sa': ScoreBook, la': ScoreBook, tl': Discussion,
                                    saKeys: seq<string>, laKeys: seq<string>)
    requires forall i :: 0 <= i < |roster| ==>
      var id := roster[i].id;
      && (id in sa <==> id in sa') && (id in sa ==> sa[id] == sa'[id])
      && (id in la <==> id in la') && (id in la ==> la[id] == la'[id])
      && (id in tl <==> id in tl') && (id in tl ==> tl[id] == tl'[id])
    ensures Rows(roster, sa, la, tl, saKeys, laKeys) == Rows(roster, sa', la', tl', saKeys, laKeys)
  {
    if roster != [] {
      var st := roster[|roster| - 1];
      LeftJoin(roster[..|roster| - 1], sa, la, tl, sa', la', tl', saKeys, laKeys);
      ScoreCellsAgree(sa, sa', st.id, saKeys);
      ScoreCellsAgree(la, la', st.id, laKeys);
    }
  }

  /** Row i starts with the index i + 1 and carries record i's ID and
      source file. */
  lemma RowFollowsRecord(roster: seq<Student>, sa: ScoreBook, la: ScoreBook, tl: Discussion,
                         saKeys: seq<string>, laKeys: seq<string>, i: nat)
    requires i < |roster|
    ensures var row := Rows(roster, sa, la, tl, saKeys, laKeys)[i];
      row[0] == Num(i + 1) && row[IdPosition] == Str(roster[i].id) && row[6] == Str(roster[i].sourceFile)
  {
    RowsAt(roster, sa, la, tl, saKeys, laKeys, i);
    RowInfoAt(i + 1, roster[i], sa, la, tl, saKeys, laKeys);
  }

  /** The rows follow the roster one to one and in order: same count, the
      new index counts from 1, and each row carries its record's ID and
      source file. */
  lemma RowsFollowRoster(roster: seq<Student>, sa: ScoreBook, la: ScoreBook, tl: Discussion,
                         saKeys: seq<string>, laKeys: seq<string>)
    ensures var rows := Rows(roster, sa, la, tl, saKeys, laKeys);
      && |rows| == |roster|
      && forall i :: 0 <= i < |roster| ==>
           rows[i][0] == Num(i + 1) && rows[i][IdPosition] == Str(roster[i].id) && rows[i][6] == Str(roster[i].sourceFile)
  {
    forall i | 0 <= i < |roster|
      ensures var row := Rows(roster, sa, la, tl, saKeys, laKeys)[i];
        row[0] == Num(i + 1) && row[IdPosition] == Str(roster[i].id) && row[6] == Str(roster[i].sourceFile)
    {
      RowFollowsRecord(roster, sa, la, tl, saKeys, laKeys, i);
    }
  }
}
