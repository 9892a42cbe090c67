/**
 Table assembly of the MOF extractor (mof_extractor.py): merge the
 positioned fragments with the strategy of the processing method, bucket
 them into lines, drop short lines and footnote markers, reshape the header
 for the second method, and split the result into header and body.
 */
module MofTable {
  import opened Collections
  import opened Text
  import opened Fragments
  import opened LineBuckets

  /**
   `Method1` reads fragments as `(top, left, text)` and merges runs of equal
   `left`; `Method2` (used for table 4.06) reads them as `(left, top, text)`
   and merges neighbouring pairs of equal `left`.
   */
  datatype ProcessingMethod = Method1 | Method2

  /** A table: its column labels and its body rows. */
  datatype Table = Table(columns: seq<string>, body: seq<seq<string>>)

  /** A whole cell of the form `(d)` or `(dd)`: a footnote reference. */
  predicate IsFootnoteMarker(s: string)
  {
    (|s| == 3 || |s| == 4) && s[0] == '(' && s[|s| - 1] == ')' && AllDigits(s[1..|s| - 1])
  }

  /** A footnote marker is one or two digits in parentheses, and nothing else. */
  lemma FootnoteMarkerShape(s: string)
    ensures IsFootnoteMarker(s) <==> exists d :: 1 <= |d| <= 2 && AllDigits(d) && s == "(" + d + ")"
  {
    if IsFootnoteMarker(s) {
      var d := s[1..|s| - 1];
      assert s == "(" + d + ")";
    }
  }

  lemma FootnoteMarkerExamples()
    ensures IsFootnoteMarker("(1)") && IsFootnoteMarker("(12)")
    ensures !IsFootnoteMarker("(123)") && !IsFootnoteMarker("()") && !IsFootnoteMarker("(a)")
    ensures !IsFootnoteMarker("x(1)") && !IsFootnoteMarker("(1)x") && !IsFootnoteMarker("( 1)")
  {
    assert "(a)"[1..2][0] == 'a';
    assert "( 1)"[1..3][0] == ' ';
  }

  predicate KeepCell(c: string)
  {
    !IsFootnoteMarker(c)
  }

  /** A line without its footnote markers, other cells in order. */
  function CleanRow(row: seq<string>): (r: seq<string>)
    ensures |r| <= |row|
    ensures forall i :: 0 <= i < |r| ==> !IsFootnoteMarker(r[i])
  {
    Filter(KeepCell, row)
  }

  /** A line is kept when it has at least five cells before cleaning. */
  predicate IsWide(row: seq<string>)
  {
    |row| >= 5
  }

  function CountWide(lines: seq<seq<string>>): nat
  {
    if |lines| == 0 then 0 else (if IsWide(lines[0]) then 1 else 0) + CountWide(lines[1..])
  }

  /** clean_lists: keep the wide lines, each without its footnote markers. */
  function CleanLists(lines: seq<seq<string>>): (r: seq<seq<string>>)
    ensures |r| == CountWide(lines) <= |lines|
    ensures forall i, j :: 0 <= i < |r| && 0 <= j < |r[i]| ==> !IsFootnoteMarker(r[i][j])
  {
    if |lines| == 0 then []
    else (if IsWide(lines[0]) then [CleanRow(lines[0])] else []) + CleanLists(lines[1..])
  }

  /** The i-th cleaned line is the i-th wide input line without its markers. */
  lemma {:induction false} CleanListsIsMapFilter(lines: seq<seq<string>>)
    ensures CleanLists(lines) == Map(CleanRow, Filter(IsWide, lines))
  {
    if |lines| > 0 {
      CleanListsIsMapFilter(lines[1..]);
      var head := if IsWide(lines[0]) then [lines[0]] else [];
      assert Filter(IsWide, lines) == head + Filter(IsWide, lines[1..]);
      MapAppend(CleanRow, head, Filter(IsWide, lines[1..]));
      assert Map(CleanRow, head) == (if IsWide(lines[0]) then [CleanRow(lines[0])] else []);
    }
  }

  /** Every cleaned line comes from a wide input line. */
  lemma {:induction false} CleanListsFromWide(lines: seq<seq<string>>, i: int)
    requires 0 <= i < |CleanLists(lines)|
    ensures exists j :: 0 <= j < |lines| && IsWide(lines[j]) && CleanLists(lines)[i] == CleanRow(lines[j])
  {
    var rest := CleanLists(lines[1..]);
    var off := |CleanLists(lines)| - |rest|;
    if i >= off {
      CleanListsFromWide(lines[1..], i - off);
      var j :| 0 <= j < |lines[1..]| && IsWide(lines[1..][j]) && rest[i - off] == CleanRow(lines[1..][j]);
      assert lines[j + 1] == lines[1..][j];
    } else {
      assert CleanLists(lines)[i] == CleanRow(lines[0]);
    }
  }

  /** Wide lines without footnote markers pass unchanged. */
  lemma {:induction false} CleanListsKeepsCleanLines(lines: seq<seq<string>>)
    requires forall i :: 0 <= i < |lines| ==> IsWide(lines[i])
    requires forall i, j :: 0 <= i < |lines| && 0 <= j < |lines[i]| ==> !IsFootnoteMarker(lines[i][j])
    ensures CleanLists(lines) == lines
  {
    if |lines| > 0 {
      CleanListsKeepsCleanLines(lines[1..]);
      FilterAll(KeepCell, lines[0]);
      assert lines == [lines[0]] + lines[1..];
    }
  }

  /** Cleaning a line keeps exactly its cells that are not footnote markers. */
  lemma CleanRowKeeps(row: seq<string>)
    ensures forall i :: 0 <= i < |CleanRow(row)| ==> CleanRow(row)[i] in row
    ensures forall i :: 0 <= i < |row| && !IsFootnoteMarker(row[i]) ==> row[i] in CleanRow(row)
  {
    FilterMembers(KeepCell, row);
  }

  lemma CleanRowExample()
    ensures CleanRow(["col1", "col2", "(1)", "col3", "(2)", "col4", "col5"]) == ["col1", "col2", "col3", "col4", "col5"]
  {
    assert IsFootnoteMarker("(1)") && IsFootnoteMarker("(2)");
  }

  /** The worked example of the extractor's demonstration, plus a dropped short line. */
  lemma CleanListsExample()
    ensures CleanLists([["col1", "col2", "(1)", "col3", "(2)", "col4", "col5"], ["a", "b", "c", "d"]])
         == [["col1", "col2", "col3", "col4", "col5"]]
  {
    var lines: seq<seq<string>> := [["col1", "col2", "(1)", "col3", "(2)", "col4", "col5"], ["a", "b", "c", "d"]];
    CleanRowExample();
    assert lines[1..][1..] == [];
    assert CleanLists(lines[1..]) == [];
  }

  /** Every item written twice in a row. */
  function DuplicateEach(xs: seq<string>): (r: seq<string>)
    ensures |r| == 2 * |xs|
    ensures forall i :: 0 <= i < |xs| ==> r[2 * i] == xs[i] && r[2 * i + 1] == xs[i]
  {
    if |xs| == 0 then [] else [xs[0], xs[0]] + DuplicateEach(xs[1..])
  }

  /**
   The second method's reshaping: each label of the first line doubled with
   "Year" in front, and "Currency" in front of the second line.
   */
  function FormatMethod2(lines: seq<seq<string>>): (r: seq<seq<string>>)
    ensures |r| == |lines|
    ensures |lines| > 0 ==>
      && |r[0]| == 1 + 2 * |lines[0]| && r[0][0] == "Year"
      && forall i :: 0 <= i < |lines[0]| ==> r[0][1 + 2 * i] == lines[0][i] && r[0][2 + 2 * i] == lines[0][i]
    ensures |lines| > 1 ==> |r[1]| == 1 + |lines[1]| && r[1][0] == "Currency" && r[1][1..] == lines[1]
    ensures forall i :: 2 <= i < |lines| ==> r[i] == lines[i]
  {
    if |lines| == 0 then []
    else if |lines| == 1 then [["Year"] + DuplicateEach(lines[0])]
    else [["Year"] + DuplicateEach(lines[0]), ["Currency"] + lines[1]] + lines[2..]
  }

  /** The merge strategy of the method. */
  function Merge(m: ProcessingMethod, rows: seq<Fragment>): (r: seq<Fragment>)
    ensures |r| <= |rows|
    ensures |rows| > 0 ==> |r| > 0
  {
    match m
    case Method1 => MergeRuns(rows)
    case Method2 => MergePairs(rows)
  }

  /**
   The lines the method produces from the fragments: one line per rounded
   key of the merged fragments, keys ascending, each holding the texts of
   exactly the merged fragments with its key, in input order.
   */
  function SortedLines(m: ProcessingMethod, rows: seq<Fragment>): (r: seq<seq<string>>)
    ensures var lines := Bucket(Merge(m, rows));
      && |r| == |lines| && KeysAscending(lines)
      && forall i :: 0 <= i < |r| ==> r[i] != [] && r[i] == TextsWithKey(Merge(m, rows), lines[i].key)
    ensures TotalLength(r) == |Merge(m, rows)| <= |rows|
  {
    var merged := Merge(m, rows);
    BucketRowsByKey(merged);
    BucketKeepsAll(merged);
    Rows(Bucket(merged))
  }

  /** Cleaning, reshaping and the header/body split of the bucketed lines. */
  function Assemble(m: ProcessingMethod, lines: seq<seq<string>>): (r: Option<Table>)
    ensures r.Some? <==> |CleanLists(lines)| >= 2
    ensures r.Some? && m == Method1 ==> r.value == Table(CleanLists(lines)[0], CleanLists(lines)[1..])
    ensures r.Some? && m == Method2 ==>
      var t := CleanLists(lines);
      && r.value.columns == ["Year"] + DuplicateEach(t[0])
      && r.value.body == [["Currency"] + t[1]] + t[2..]
  {
    var t := CleanLists(lines);
    if |t| == 0 then None
    else
      var f := if m == Method2 then FormatMethod2(t) else t;
      if |f| > 1 then Some(Table(f[0], f[1..])) else None
  }

  /** extract_table_from_page after the spans are read: no fragments, no table. */
  function ExtractTable(m: ProcessingMethod, rows: seq<Fragment>): (r: Option<Table>)
    ensures |rows| == 0 ==> r == None
  {
    if |rows| == 0 then None else Assemble(m, SortedLines(m, rows))
  }

  lemma {:induction false} CountWideBound(lines: seq<seq<string>>)
    ensures 5 * CountWide(lines) <= TotalLength(lines)
  {
    if |lines| > 0 {
      CountWideBound(lines[1..]);
    }
  }

  /** A table needs two lines of at least five texts, so at least ten fragments. */
  lemma ExtractTableNeedsTenFragments(m: ProcessingMethod, rows: seq<Fragment>)
    requires ExtractTable(m, rows).Some?
    ensures |rows| >= 10
  {
    CountWideBound(SortedLines(m, rows));
  }

  /** No table cell or column label of a method-1 table is a footnote marker. */
  lemma Method1TableHasNoMarkers(rows: seq<Fragment>)
    requires ExtractTable(Method1, rows).Some?
    ensures forall j :: 0 <= j < |ExtractTable(Method1, rows).value.columns| ==> !IsFootnoteMarker(ExtractTable(Method1, rows).value.columns[j])
    ensures forall i, j ::
      0 <= i < |ExtractTable(Method1, rows).value.body| && 0 <= j < |ExtractTable(Method1, rows).value.body[i]| ==>
      !IsFootnoteMarker(ExtractTable(Method1, rows).value.body[i][j])
  {
    var t := CleanLists(SortedLines(Method1, rows));
    var tab := ExtractTable(Method1, rows).value;
    assert tab == Table(t[0], t[1..]);
    forall i, j | 0 <= i < |tab.body| && 0 <= j < |tab.body[i]| ensures !IsFootnoteMarker(tab.body[i][j]) {
      assert tab.body[i] == t[i + 1];
    }
  }
}
