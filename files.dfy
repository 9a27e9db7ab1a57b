/** Which discovered files feed which step, and the column key a score
    file contributes. */
module Files {
  import opened Text

  const RosterMarker := "CL"
  const SaMarker := "SA"
  const LaMarker := "LA"
  const DiscussionMarker := "TL"
  const OldExcel := ".xls"

  /** Roster and SA/LA score files: the marker anywhere in the path and a
      path that ends in ".xls" (so ".xlsx" files are never taken). */
  predicate IsMarkedXls(path: string, marker: string) {
    Contains(path, marker) && EndsWith(path, OldExcel)
  }

  predicate IsRosterFile(path: string) {
    IsMarkedXls(path, RosterMarker)
  }

  /** TL files need only the marker, whatever the extension. */
  predicate IsDiscussionFile(path: string) {
    Contains(path, DiscussionMarker)
  }

  /** `Path(f).name.replace('.xls', '')` */
  function CategoryKey(path: string): string {
    RemoveAll(Basename(path), OldExcel)
  }

  /** No ".xlsx" file passes the ".xls" filters. */
  lemma XlsxNeverMarkedXls(path: string, marker: string)
    requires EndsWith(path, ".xlsx")
    ensures !IsMarkedXls(path, marker)
  {
    assert path[|path| - 1] == 'x';
  }

  /** ".xls" cannot overlap itself: no proper prefix is also a suffix. */
  lemma XlsStartsNowhereInside(stem: string)
    requires stem != [] && |stem| < |OldExcel|
    ensures !StartsWith(stem + OldExcel, OldExcel)
  {
    var s := stem + OldExcel;
    assert s[|stem|] == '.';
    assert s[..|OldExcel|][|stem|] == s[|stem|];
  }

  /** A file named `stem + ".xls"` whose stem holds no ".xls" gets the
      stem itself as its category key. */
  lemma {:induction false} StripXlsSuffix(stem: string)
    requires !Contains(stem, OldExcel)
    ensures RemoveAll(stem + OldExcel, OldExcel) == stem
    decreases |stem|
  {
    var s := stem + OldExcel;
    if stem == [] {
      assert s == OldExcel;
      assert s[|OldExcel|..] == [];
    } else {
      if |stem| < |OldExcel| {
        XlsStartsNowhereInside(stem);
      } else {
        assert s[..|OldExcel|] == stem[..|OldExcel|];
      }
      assert !StartsWith(s, OldExcel);
      assert s[1..] == stem[1..] + OldExcel;
      StripXlsSuffix(stem[1..]);
      assert [stem[0]] + stem[1..] == stem;
    }
  }

  /** "dir/SA1.xls" becomes the column "SA1". */
  lemma CategoryKeyExample()
    ensures CategoryKey("dir/SA1.xls") == "SA1"
  {
    BasenameAfterSlash("dir", "SA1.xls");
    assert "dir" + "/" + "SA1.xls" == "dir/SA1.xls";
    AbsentCharNotContained("SA1", OldExcel, 0);
    StripXlsSuffix("SA1");
    assert "SA1" + OldExcel == "SA1.xls";
  }
}
