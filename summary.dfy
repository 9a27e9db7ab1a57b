/** The whole reconciliation: roster records from the CL files, SA, LA and
    TL scores from their files, then the merge into the summary table. */
module GradeSummary {
  import opened Text
  import opened StudentIds
  import opened Files
  import opened Roster
  import opened Scores
  import opened Merge
  import opened Ordering

  /** The records one file adds to the roster: none unless it is a
      readable CL file. */
  function RosterOfFile(f: InputFile): (r: seq<Student>)
    ensures |r| <= SearchDepth
  {
    if IsRosterFile(f.path) && f.grid.Some? then RosterOf(f.grid.value, Basename(f.path)) else []
  }

  /** Only a CL file adds records, each with a valid ID and the file's name. */
  lemma RosterOfFileMeaning(f: InputFile)
    ensures var r := RosterOfFile(f);
      && (r != [] ==> IsRosterFile(f.path))
      && forall k :: 0 <= k < |r| ==> IsStudentId(r[k].id) && r[k].sourceFile == Basename(f.path)
  {
  }

  /** The roster records of every CL file, in discovery order; the source
      file of each record is the file's name. */
  function RosterFiles(files: seq<InputFile>): seq<Student> {
    if files == [] then []
    else RosterFiles(files[..|files| - 1]) + RosterOfFile(files[|files| - 1])
  }

  /** One file of the first step: extraction when it is a readable CL file. */
  method ReadRosterFile(f: InputFile) returns (more: seq<Student>)
    ensures more == RosterOfFile(f)
  {
    more := [];
    if IsRosterFile(f.path) && f.grid.Some? {
      more := ExtractRoster(f.grid.value, Basename(f.path));
    }
  }

  /** The first step: every CL file in turn. */
  method CollectRoster(files: seq<InputFile>) returns (students: seq<Student>)
    ensures students == RosterFiles(files)
  {
    students := [];
    var n := 0;
    while n < |files|
      invariant 0 <= n <= |files|
      invariant students == RosterFiles(files[..n])
    {
      assert files[..n + 1][..n] == files[..n];
      var more := ReadRosterFile(files[n]);
      assert RosterFiles(files[..n + 1]) == RosterFiles(files[..n]) + RosterOfFile(files[n]);
      students := students + more;
      n := n + 1;
    }
    assert files[..n] == files;
  }

  /** The summary the tool builds from the discovered files. */
  ghost function Summarize(files: seq<InputFile>): Summary {
    MergeOf(RosterFiles(files), BookFiles(files, SaMarker), BookFiles(files, LaMarker), DiscussionFiles(files))
  }

  /** `create_grade_summary`: the four collection steps and the merge. */
  method CreateGradeSummary(files: seq<InputFile>) returns (summary: Summary)
    ensures summary == Summarize(files)
  {
    var roster := CollectRoster(files);
    var sa := CollectBook(files, SaMarker);
    var la := CollectBook(files, LaMarker);
    var tl := CollectDiscussion(files);
    summary := MergeScores(roster, sa, la, tl);
  }

  // ---------------------------------------------------------------------
  // Properties

  /** Files are read independently and their records concatenated: a
      student listed in two CL files gets two rows. */
  lemma {:induction false} RosterFilesAppend(a: seq<InputFile>, b: seq<InputFile>)
    ensures RosterFiles(a + b) == RosterFiles(a) + RosterFiles(b)
    decreases |b|
  {
    if b == [] {
      assert a + b == a;
    } else {
      var ab := a + b;
      var b' := b[..|b| - 1];
      var last := b[|b| - 1];
      assert ab[..|ab| - 1] == a + b';
      assert ab[|ab| - 1] == last;
      RosterFilesAppend(a, b');
      RosterFilesLast(ab);
      RosterFilesLast(b);
      var x, y, z := RosterFiles(a), RosterFiles(b'), RosterOfFile(last);
      assert RosterFiles(ab) == (x + y) + z;
      assert RosterFiles(b) == y + z;
      ConcatAssociative(x, y, z);
    }
  }

  lemma ConcatAssociative(x: seq<Student>, y: seq<Student>, z: seq<Student>)
    ensures (x + y) + z == x + (y + z)
  {
  }

  /** One unfolding of the roster over the files. */
  lemma RosterFilesLast(files: seq<InputFile>)
    requires files != []
    ensures RosterFiles(files) == RosterFiles(files[..|files| - 1]) + RosterOfFile(files[|files| - 1])
  {
  }

  /** Each file adds at most 30 records. */
  lemma {:induction false} RosterFilesBound(files: seq<InputFile>)
    ensures |RosterFiles(files)| <= SearchDepth * |files|
  {
    if files != [] {
      RosterFilesBound(files[..|files| - 1]);
    }
  }

  /** Every record on the roster carries an ID that passes the ID test. */
  lemma {:induction false} RosterIdsValid(files: seq<InputFile>)
    ensures forall k :: 0 <= k < |RosterFiles(files)| ==> IsStudentId(RosterFiles(files)[k].id)
  {
    if files != [] {
      var p := RosterFiles(files[..|files| - 1]);
      var extra := RosterOfFile(files[|files| - 1]);
      RosterOfFileMeaning(files[|files| - 1]);
      RosterIdsValid(files[..|files| - 1]);
      var r: seq<Student> := p + extra;
      assert RosterFiles(files) == r;
      forall k | 0 <= k < |r| ensures IsStudentId(r[k].id) {
        if k < |p| {
          assert r[k] == p[k];
        } else {
          assert r[k] == extra[k - |p|];
        }
      }
    } else {
      assert RosterFiles(files) == [];
    }
  }

  /** The record's source file is the name of a CL file among the inputs. */
  predicate ComesFromRosterFile(st: Student, files: seq<InputFile>) {
    exists j :: 0 <= j < |files| && IsRosterFile(files[j].path) && st.sourceFile == Basename(files[j].path)
  }

  /** Record k of the roster is record k of the earlier files or one of
      the last file's records. */
  lemma RosterFilesAt(files: seq<InputFile>, k: nat)
    requires files != [] && k < |RosterFiles(files)|
    ensures var p := RosterFiles(files[..|files| - 1]);
      RosterFiles(files)[k] == if k < |p| then p[k] else RosterOfFile(files[|files| - 1])[k - |p|]
  {
  }

  /** Record k of the roster comes from CL file j among the inputs. */
  lemma {:induction false} RecordSource(files: seq<InputFile>, k: nat) returns (j: nat)
    requires k < |RosterFiles(files)|
    ensures j < |files| && IsRosterFile(files[j].path)
    ensures RosterFiles(files)[k].sourceFile == Basename(files[j].path)
  {
    assert files != [];
    RosterFilesAt(files, k);
    var init := files[..|files| - 1];
    if k < |RosterFiles(init)| {
      j := RecordSource(init, k);
      assert files[j].path == init[j].path;
    } else {
      j := |files| - 1;
      RosterOfFileMeaning(files[j]);
    }
  }

  /** Every record's source file is the name of a CL file among the inputs. */
  lemma RosterSources(files: seq<InputFile>)
    ensures forall k :: 0 <= k < |RosterFiles(files)| ==> ComesFromRosterFile(RosterFiles(files)[k], files)
  {
    forall k | 0 <= k < |RosterFiles(files)| ensures ComesFromRosterFile(RosterFiles(files)[k], files) {
      var j := RecordSource(files, k);
    }
  }

  /** A file that no step routes to changes nothing; in particular an
      ".xlsx" file without TL in its path is ignored. */
  lemma UnroutedFileIgnored(files: seq<InputFile>, f: InputFile)
    requires !IsRosterFile(f.path) && !IsMarkedXls(f.path, SaMarker) && !IsMarkedXls(f.path, LaMarker)
    requires !IsDiscussionFile(f.path)
    ensures Summarize(files + [f]) == Summarize(files)
  {
    var g := files + [f];
    assert g[..|files|] == files;
    assert RosterFiles(g) == RosterFiles(files);
    assert BookFiles(g, SaMarker) == BookFiles(files, SaMarker);
    assert BookFiles(g, LaMarker) == BookFiles(files, LaMarker);
    assert DiscussionFiles(g) == DiscussionFiles(files);
  }

  lemma XlsxScoreFileIgnored(files: seq<InputFile>, f: InputFile)
    requires EndsWith(f.path, ".xlsx") && !IsDiscussionFile(f.path)
    ensures Summarize(files + [f]) == Summarize(files)
  {
    XlsxNeverMarkedXls(f.path, RosterMarker);
    XlsxNeverMarkedXls(f.path, SaMarker);
    XlsxNeverMarkedXls(f.path, LaMarker);
    UnroutedFileIgnored(files, f);
  }

  /** One row per roster record, numbered from 1, each carrying an ID
      that passes the ID test and the name of the CL file it came from. */
  lemma SummaryRows(files: seq<InputFile>)
    ensures var s := Summarize(files);
      var roster := RosterFiles(files);
      && |s.rows| == |roster| <= SearchDepth * |files|
      && forall i :: 0 <= i < |roster| ==>
           && s.rows[i][0] == Num(i + 1)
           && s.rows[i][IdPosition] == Str(roster[i].id)
           && IsStudentId(roster[i].id)
  {
    RosterIdsValid(files);
    RosterFilesBound(files);
    var roster := RosterFiles(files);
    var sa := BookFiles(files, SaMarker);
    var la := BookFiles(files, LaMarker);
    RowsFollowRoster(roster, sa, la, DiscussionFiles(files), SortedOf(CategoryKeys(sa)), SortedOf(CategoryKeys(la)));
  }
}
