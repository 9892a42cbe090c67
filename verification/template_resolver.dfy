/**
 The hierarchical table reader of extract_template.py: every row whose
 rightmost value cell is a number or a null marker becomes one record; the
 non-empty cells left of the value are the row's group labels, which
 replace the group stack from its first level, and the record carries the
 whole stack and the value.

 A table is given as the texts of its rows' cells (`td` and `th`, already
 stripped); `None` stands for a document without a table.
 */
module TemplateResolver {
  import opened Collections
  import opened Text
  import opened Records

  /** The exceptions the reader raises. */
  datatype ReadError =
    | NoTable      // the document has no table
    | NoRows       // the table has no row
    | NoColumns    // no row has a cell
    | MissingValue // a template record without a VALUE column is consulted

  // ---------------------------------------------------------------------
  // Value tokens: re.match(r'^-?\d+\.?\d*$', s) and the null markers
  // ---------------------------------------------------------------------

  /**
   The whole of `s` is: an optional minus sign, one or more digits, an
   optional point and any number of digits.
   */
  predicate IsNumberBody(s: string)
  {
    var t := if |s| > 0 && s[0] == '-' then s[1..] else s;
    var n := LeadingDigits(t);
    n >= 1 && (n == |t| || (t[n] == '.' && AllDigits(t[n + 1..])))
  }

  /** The pattern matched from the start; `$` also matches before a final newline. */
  predicate IsNumberToken(s: string)
  {
    IsNumberBody(s) || (|s| > 0 && s[|s| - 1] == '\n' && IsNumberBody(s[..|s| - 1]))
  }

  /** The parts of a number token: sign, whole digits, point, fraction digits. */
  datatype NumberParts = NumberParts(negative: bool, whole: string, point: bool, fraction: string)

  predicate WellFormed(p: NumberParts)
  {
    |p.whole| >= 1 && AllDigits(p.whole) && AllDigits(p.fraction) && (!p.point ==> p.fraction == "")
  }

  function Render(p: NumberParts): string
  {
    (if p.negative then "-" else "") + p.whole + (if p.point then "." else "") + p.fraction
  }

  /** The parts of a number body. */
  function Parse(s: string): (p: NumberParts)
    requires IsNumberBody(s)
    ensures WellFormed(p) && Render(p) == s
  {
    var neg := |s| > 0 && s[0] == '-';
    var t := if neg then s[1..] else s;
    var n := LeadingDigits(t);
    var p := if n == |t| then NumberParts(neg, t, false, "") else NumberParts(neg, t[..n], true, t[n + 1..]);
    assert Unsigned(p) == t by {
      if n < |t| {
        assert t == t[..n] + [t[n]] + t[n + 1..];
      }
    }
    assert s == (if neg then "-" else "") + t by {
      if neg {
        assert s == [s[0]] + s[1..];
      }
    }
    RenderSign(p);
    p
  }

  /** A number without its sign: whole digits, then the point and fraction if present. */
  function Unsigned(p: NumberParts): string
  {
    p.whole + (if p.point then "." else "") + p.fraction
  }

  lemma RenderSign(p: NumberParts)
    ensures Render(p) == (if p.negative then "-" else "") + Unsigned(p)
  {
  }

  /** Every well-formed number renders to a number body that parses back to it. */
  lemma RenderParse(p: NumberParts)
    requires WellFormed(p)
    ensures IsNumberBody(Render(p)) && Parse(Render(p)) == p
  {
    RenderSignRead(p);
    UnsignedRead(p);
  }

  /** The rendering starts with a minus exactly when the number is negative; the rest is unsigned. */
  lemma RenderSignRead(p: NumberParts)
    requires WellFormed(p)
    ensures var s := Render(p);
      && (|s| > 0 && s[0] == '-') == p.negative
      && (if p.negative then s[1..] else s) == Unsigned(p)
  {
    RenderSign(p);
    var t := Unsigned(p);
    assert |t| > 0 && t[0] == p.whole[0] by {
      assert t == p.whole + ((if p.point then "." else "") + p.fraction);
    }
  }

  /** The unsigned text reads back as its whole digits, then the point and the fraction. */
  lemma UnsignedRead(p: NumberParts)
    requires WellFormed(p)
    ensures var t := Unsigned(p);
      && LeadingDigits(t) == |p.whole| && t[..|p.whole|] == p.whole
      && (p.point ==> |p.whole| < |t| && t[|p.whole|] == '.' && t[|p.whole| + 1..] == p.fraction)
      && (!p.point ==> t == p.whole)
  {
    var t := Unsigned(p);
    var tail := (if p.point then "." else "") + p.fraction;
    assert t == p.whole + tail;
    assert |tail| > 0 ==> tail[0] == '.';
    LeadingDigitsOf(p.whole, tail);
    if p.point {
      assert t[|p.whole| + 1..] == tail[1..];
    }
  }

  /** Null markers, compared after upper-casing. */
  predicate IsNullMarker(s: string)
  {
    var u := UpperAscii(s);
    u == "NULL" || u == "N/A" || u == "-"
  }

  /** A cell the reader accepts as the value of its row. */
  predicate IsValueToken(s: string)
  {
    IsNumberToken(s) || IsNullMarker(s)
  }

  lemma NumberTokenExamples()
    ensures IsValueToken("12") && IsValueToken("-3.5") && IsValueToken("7.") && IsValueToken("4\n")
  {
    assert LeadingDigits("12") == 2;
    assert LeadingDigits("3.5") == 1 && "3.5"[2..] == "5";
    assert LeadingDigits("7.") == 1 && "7."[2..] == "";
    assert "4\n"[..1] == "4" && LeadingDigits("4") == 1;
  }

  lemma NullMarkerExamples()
    ensures IsValueToken("n/a") && IsValueToken("Null") && IsValueToken("-")
  {
    assert UpperAscii("n/a") == "N/A";
    assert UpperAscii("Null") == "NULL";
  }

  lemma RejectedTokenExamples()
    ensures !IsValueToken("") && !IsValueToken(".5") && !IsValueToken("1,5") && !IsValueToken("--1")
  {
    assert LeadingDigits(".5") == 0;
    assert LeadingDigits("1,5") == 1;
    assert "--1"[1..] == "-1" && LeadingDigits("-1") == 0;
    assert UpperAscii("1,5")[0] == '1' && UpperAscii("--1")[1] == '-';
  }

  lemma LabelTokenExample()
    ensures !IsValueToken("Kỳ hạn")
  {
    assert UpperAscii("Kỳ hạn")[0] == 'K' && |UpperAscii("Kỳ hạn")| == 6;
    assert LeadingDigits("Kỳ hạn") == 0;
  }

  // ---------------------------------------------------------------------
  // One row
  // ---------------------------------------------------------------------

  /**
   The rightmost cell, at index one or more, that is non-empty and
   satisfies `p`: the backwards scan with `break`.
   */
  function RightmostFrom1(p: string -> bool, cells: seq<string>): (r: Option<nat>)
    ensures r.Some? ==> 1 <= r.value < |cells| && cells[r.value] != "" && p(cells[r.value])
    ensures r.Some? ==> forall j :: r.value < j < |cells| ==> cells[j] == "" || !p(cells[j])
    ensures r.None? ==> forall j :: 1 <= j < |cells| ==> cells[j] == "" || !p(cells[j])
  {
    if |cells| <= 1 then None
    else if cells[|cells| - 1] != "" && p(cells[|cells| - 1]) then Some(|cells| - 1)
    else RightmostFrom1(p, cells[..|cells| - 1])
  }

  /** Where the row's value sits. */
  function FindValue(cells: seq<string>): Option<nat>
  {
    RightmostFrom1(IsValueToken, cells)
  }

  predicate NonEmpty(s: string)
  {
    s != ""
  }

  /** The non-empty cells left of the value, in order: the row's group labels. */
  function GroupCols(cells: seq<string>, v: nat): (labels: seq<string>)
    requires v <= |cells|
    ensures |labels| <= v
    ensures forall i :: 0 <= i < |labels| ==> labels[i] != ""
  {
    Filter(NonEmpty, cells[..v])
  }

  /**
   The labels are collected left to right: none before the first cell, and
   each further cell adds itself exactly when it is non-empty.
   */
  lemma GroupColsStep(cells: seq<string>, v: nat)
    requires v < |cells|
    ensures GroupCols(cells, 0) == []
    ensures GroupCols(cells, v + 1) == GroupCols(cells, v) + (if cells[v] != "" then [cells[v]] else [])
  {
    assert cells[..v + 1] == cells[..v] + [cells[v]];
    FilterAppend(NonEmpty, cells[..v], [cells[v]]);
    assert [cells[v]][1..] == [];
  }

  /** The labels are cells left of the value, and every non-empty such cell is a label. */
  lemma GroupColsMembers(cells: seq<string>, v: nat)
    requires v <= |cells|
    ensures forall i :: 0 <= i < |GroupCols(cells, v)| ==> GroupCols(cells, v)[i] in cells[..v]
    ensures forall i :: 0 <= i < v && cells[i] != "" ==> cells[i] in GroupCols(cells, v)
  {
    FilterMembers(NonEmpty, cells[..v]);
    assert forall i :: 0 <= i < v ==> cells[..v][i] == cells[i];
  }

  /**
   The stack update loop from label `i` on: label `i` is written at level
   `i` when the stack has that level, and every deeper level is cleared.
   */
  function WriteLevels(stack: seq<string>, labels: seq<string>, i: nat): (r: seq<string>)
    ensures |r| == |stack|
    decreases |labels| - i
  {
    if i >= |labels| then stack
    else
      var s := if i < |stack| then stack[..i] + [labels[i]] + Repeat("", |stack| - i - 1) else stack;
      WriteLevels(s, labels, i + 1)
  }

  function UpdateStack(stack: seq<string>, labels: seq<string>): (r: seq<string>)
  {
    WriteLevels(stack, labels, 0)
  }

  /** The stack after the first `i` labels were written: those labels, then empty levels. */
  function Written(labels: seq<string>, i: nat, n: nat): (r: seq<string>)
    requires i <= |labels|
    ensures |r| == n
  {
    if i >= n then labels[..n] else labels[..i] + Repeat("", n - i)
  }

  lemma {:induction false} WriteLevelsFrom(stack: seq<string>, labels: seq<string>, i: nat)
    requires 1 <= i <= |labels|
    requires stack == Written(labels, i, |stack|)
    ensures WriteLevels(stack, labels, i) == Written(labels, |labels|, |stack|)
    decreases |labels| - i
  {
    var n := |stack|;
    if i < |labels| {
      if i < n {
        var s := stack[..i] + [labels[i]] + Repeat("", n - i - 1);
        assert stack[..i] == labels[..i];
        assert labels[..i] + [labels[i]] == labels[..i + 1];
        assert s == Written(labels, i + 1, n);
        WriteLevelsFrom(s, labels, i + 1);
      } else {
        WriteLevelsFrom(stack, labels, i + 1);
      }
    }
  }

  /**
   Writing labels replaces the whole stack: the labels from the first
   level, cut to the stack's length, then empty levels. Writing no label
   leaves the stack as it was.
   */
  lemma UpdateStackClosed(stack: seq<string>, labels: seq<string>)
    ensures |labels| == 0 ==> UpdateStack(stack, labels) == stack
    ensures |labels| > 0 ==> UpdateStack(stack, labels) == Written(labels, |labels|, |stack|)
  {
    var n := |stack|;
    if |labels| > 0 {
      var s := if 0 < n then stack[..0] + [labels[0]] + Repeat("", n - 1) else stack;
      assert s == Written(labels, 1, n);
      assert WriteLevels(stack, labels, 0) == WriteLevels(s, labels, 1);
      WriteLevelsFrom(s, labels, 1);
    }
  }

  predicate AllEmpty(stack: seq<string>)
  {
    forall i :: 0 <= i < |stack| ==> stack[i] == ""
  }

  /**
   One row of the loop: the stack after the row and the record it yields.
   A row without cells or without a value is passed over; a row whose
   stack ends up all empty updates the stack but yields no record.
   */
  function ProcessRow(stack: seq<string>, cells: seq<string>): (r: (seq<string>, Option<Record>))
    ensures |r.0| == |stack|
    ensures FindValue(cells).None? ==> r == (stack, None)
    ensures r.1.Some? ==> r.1.value.groups == r.0 && !AllEmpty(r.0) && IsValueToken(r.1.value.value)
    ensures FindValue(cells).Some? ==> (r.1.Some? <==> !AllEmpty(r.0))
    ensures FindValue(cells).Some? && !AllEmpty(r.0) ==> r.1 == Some(Record(r.0, cells[FindValue(cells).value]))
  {
    if |cells| == 0 then (stack, None)
    else
      match FindValue(cells)
      case None => (stack, None)
      case Some(v) =>
        var s := UpdateStack(stack, GroupCols(cells, v));
        if AllEmpty(s) then (s, None) else (s, Some(Record(s, cells[v])))
  }

  /** The records of the rows, from a given stack. */
  function Resolve(rows: seq<seq<string>>, stack: seq<string>): (records: seq<Record>)
    ensures |records| <= |rows|
    ensures forall k :: 0 <= k < |records| ==> |records[k].groups| == |stack|
    ensures forall k :: 0 <= k < |records| ==> !AllEmpty(records[k].groups) && IsValueToken(records[k].value)
  {
    if |rows| == 0 then []
    else
      var step := ProcessRow(stack, rows[0]);
      (if step.1.Some? then [step.1.value] else []) + Resolve(rows[1..], step.0)
  }

  /** The stack after the loop has gone over `rows`. */
  function StackAfter(rows: seq<seq<string>>, stack: seq<string>): (s: seq<string>)
    ensures |s| == |stack|
  {
    if |rows| == 0 then stack else StackAfter(rows[1..], ProcessRow(stack, rows[0]).0)
  }

  /**
   Reading is a left-to-right loop: the records of `a + b` are those of `a`
   followed by those of `b` read from the stack `a` leaves behind.
   */
  lemma {:induction false} ResolveAppend(a: seq<seq<string>>, b: seq<seq<string>>, stack: seq<string>)
    ensures Resolve(a + b, stack) == Resolve(a, stack) + Resolve(b, StackAfter(a, stack))
    ensures StackAfter(a + b, stack) == StackAfter(b, StackAfter(a, stack))
  {
    if |a| == 0 {
      assert a + b == b;
    } else {
      var step := ProcessRow(stack, a[0]);
      assert (a + b)[0] == a[0] && (a + b)[1..] == a[1..] + b;
      ResolveAppend(a[1..], b, step.0);
      var head := if step.1.Some? then [step.1.value] else [];
      assert Resolve(a + b, stack) == head + Resolve(a[1..] + b, step.0);
      assert head + (Resolve(a[1..], step.0) + Resolve(b, StackAfter(a[1..], step.0)))
          == (head + Resolve(a[1..], step.0)) + Resolve(b, StackAfter(a[1..], step.0));
    }
  }

  /** One row yields a record exactly when it has a value and leaves a non-empty stack. */
  lemma ResolveOne(row: seq<string>, stack: seq<string>)
    ensures var s := ProcessRow(stack, row).0;
      && StackAfter([row], stack) == s
      && |Resolve([row], stack)| <= 1
      && (|Resolve([row], stack)| == 1 <==> FindValue(row).Some? && !AllEmpty(s))
      && (|Resolve([row], stack)| == 1 ==> Resolve([row], stack)[0] == Record(s, row[FindValue(row).value]))
  {
    assert [row][1..] == [];
  }

  /** The number of cells of the widest row. */
  function MaxColumns(rows: seq<seq<string>>): nat
  {
    MaxLength(rows)
  }

  /**
   extract_data_from_html on a parsed table: the errors for a missing
   table, no rows and no cells, else the records read with a stack one
   level shorter than the widest row.
   */
  function ExtractData(table: Option<seq<seq<string>>>): (r: Result<seq<Record>, ReadError>)
    ensures table.None? <==> r == Err(NoTable)
    ensures table.Some? && |table.value| == 0 <==> r == Err(NoRows)
    ensures r.Ok? ==> forall k :: 0 <= k < |r.value| ==> |r.value[k].groups| == MaxColumns(table.value) - 1
  {
    match table
    case None => Err(NoTable)
    case Some(rows) =>
      if |rows| == 0 then Err(NoRows)
      else if MaxColumns(rows) == 0 then Err(NoColumns)
      else Ok(Resolve(rows, Repeat("", MaxColumns(rows) - 1)))
  }

  /** The reader fails only for a missing table, no rows, or rows without cells. */
  lemma ExtractDataErrors(table: Option<seq<seq<string>>>)
    ensures ExtractData(table).Err? <==>
      table.None? || |table.value| == 0 || forall k :: 0 <= k < |table.value| ==> |table.value[k]| == 0
  {
    if table.Some? && |table.value| > 0 && MaxColumns(table.value) > 0 {
      var k :| 0 <= k < |table.value| && |table.value[k]| == MaxColumns(table.value);
    }
  }

  /** A table whose rows have at most one cell yields no record: the stack has no level. */
  lemma SingleColumnNoRecords(rows: seq<seq<string>>)
    requires |rows| > 0 && MaxColumns(rows) == 1
    ensures ExtractData(Some(rows)) == Ok([])
  {
    var records := Resolve(rows, Repeat("", 0));
    if |records| > 0 {
      assert |records[0].groups| == 0;
      assert AllEmpty(records[0].groups);
    }
  }

  /** A valued row without labels keeps the ancestry of the rows before it. */
  lemma UnlabelledRowInherits(stack: seq<string>, cells: seq<string>, v: nat)
    requires FindValue(cells) == Some(v)
    requires forall i :: 0 <= i < v ==> cells[i] == ""
    ensures ProcessRow(stack, cells).0 == stack
  {
    assert forall i :: 0 <= i < v ==> !NonEmpty(cells[..v][i]);
    NoneKept(cells[..v]);
    UpdateStackClosed(stack, GroupCols(cells, v));
  }

  lemma {:induction false} NoneKept(s: seq<string>)
    requires forall i :: 0 <= i < |s| ==> !NonEmpty(s[i])
    ensures Filter(NonEmpty, s) == []
  {
    if |s| > 0 {
      NoneKept(s[1..]);
    }
  }

  /** A valued row with labels replaces the whole ancestry with its labels. */
  lemma LabelledRowReplaces(stack: seq<string>, cells: seq<string>, v: nat)
    requires FindValue(cells) == Some(v)
    requires |GroupCols(cells, v)| > 0
    ensures ProcessRow(stack, cells).0 == Written(GroupCols(cells, v), |GroupCols(cells, v)|, |stack|)
  {
    UpdateStackClosed(stack, GroupCols(cells, v));
  }

  lemma FirstRowOfExample()
    ensures ProcessRow(["", ""], ["Tiền gửi", "Kỳ hạn", "5.5"])
         == (["Tiền gửi", "Kỳ hạn"], Some(Record(["Tiền gửi", "Kỳ hạn"], "5.5")))
  {
    var r0: seq<string> := ["Tiền gửi", "Kỳ hạn", "5.5"];
    var s1: seq<string> := ["Tiền gửi", "Kỳ hạn"];
    assert IsValueToken("5.5") by {
      assert LeadingDigits("5.5") == 1 && "5.5"[2..] == "5";
    }
    assert FindValue(r0) == Some(2);
    assert GroupCols(r0, 2) == s1 by {
      assert r0[..2] == s1;
      FilterAll(NonEmpty, s1);
    }
    assert |s1[0]| == 8;
    UpdateStackClosed(["", ""], s1);
    assert s1[..2] == s1;
  }

  lemma SecondRowOfExample()
    ensures ProcessRow(["Tiền gửi", "Kỳ hạn"], ["", "12 tháng", "6.0"])
         == (["12 tháng", ""], Some(Record(["12 tháng", ""], "6.0")))
  {
    var r1: seq<string> := ["", "12 tháng", "6.0"];
    var s2: seq<string> := ["12 tháng", ""];
    assert IsValueToken("6.0") by {
      assert LeadingDigits("6.0") == 1 && "6.0"[2..] == "0";
    }
    assert FindValue(r1) == Some(2);
    assert GroupCols(r1, 2) == ["12 tháng"] by {
      assert r1[..2] == ["", "12 tháng"];
      assert r1[..2][1..] == ["12 tháng"];
      FilterAll(NonEmpty, ["12 tháng"]);
    }
    UpdateStackClosed(["Tiền gửi", "Kỳ hạn"], ["12 tháng"]);
    assert Repeat("", 1) == [""];
    assert Written(["12 tháng"], 1, 2) == s2;
    assert |s2[0]| == 8;
  }

  /**
   Two valued rows under a two-level stack: the second row's single label
   lands on the first level and clears the second, whatever column it
   stood in.
   */
  lemma TwoRowExample()
    ensures ExtractData(Some([["Tiền gửi", "Kỳ hạn", "5.5"], ["", "12 tháng", "6.0"]]))
         == Ok([Record(["Tiền gửi", "Kỳ hạn"], "5.5"), Record(["12 tháng", ""], "6.0")])
  {
    var r0: seq<string> := ["Tiền gửi", "Kỳ hạn", "5.5"];
    var r1: seq<string> := ["", "12 tháng", "6.0"];
    assert MaxColumns([r0, r1]) == 3;
    assert Repeat("", 2) == ["", ""];
    FirstRowOfExample();
    SecondRowOfExample();
    assert [r0, r1][1..] == [r1] && [r1][1..] == [];
    var s1: seq<string> := ["Tiền gửi", "Kỳ hạn"];
    var s2: seq<string> := ["12 tháng", ""];
    assert Resolve([r1], s1) == [Record(s2, "6.0")] + Resolve([], s2);
    assert Resolve([r0, r1], ["", ""]) == [Record(s1, "5.5")] + Resolve([r1], s1);
    assert Resolve([], s2) == [];
    assert ExtractData(Some([r0, r1])) == Ok(Resolve([r0, r1], Repeat("", 2)));
    assert [Record(s1, "5.5")] + ([Record(s2, "6.0")] + []) == [Record(s1, "5.5"), Record(s2, "6.0")];
  }

  // ---------------------------------------------------------------------
  // The template branch of extract_with_mapping
  // ---------------------------------------------------------------------

  /** The number cells the template branch collects: per row, its rightmost number at index one or more. */
  function HtmlValues(rows: seq<seq<string>>): (vs: seq<string>)
    ensures |vs| <= |rows|
    ensures forall k :: 0 <= k < |vs| ==> IsNumberToken(vs[k])
  {
    if |rows| == 0 then []
    else
      (match RightmostFrom1(IsNumberToken, rows[0])
       case None => []
       case Some(i) => [rows[0][i]])
      + HtmlValues(rows[1..])
  }

  /** The numbers of `a + b` are those of `a`, then those of `b`. */
  lemma {:induction false} HtmlValuesAppend(a: seq<seq<string>>, b: seq<seq<string>>)
    ensures HtmlValues(a + b) == HtmlValues(a) + HtmlValues(b)
  {
    if |a| == 0 {
      assert a + b == b;
    } else {
      assert (a + b)[0] == a[0] && (a + b)[1..] == a[1..] + b;
      HtmlValuesAppend(a[1..], b);
    }
  }

  /**
   A row contributes at most one number: its rightmost non-empty number
   cell at index one or more, or nothing when it has none.
   */
  lemma HtmlValuesRow(row: seq<string>)
    ensures |HtmlValues([row])| <= 1
    ensures |HtmlValues([row])| == 0 <==> forall j :: 1 <= j < |row| ==> row[j] == "" || !IsNumberToken(row[j])
    ensures |HtmlValues([row])| == 1 ==> exists i ::
      && 1 <= i < |row| && HtmlValues([row])[0] == row[i]
      && forall j :: i < j < |row| ==> row[j] == "" || !IsNumberToken(row[j])
  {
    assert [row][1..] == [];
    assert HtmlValues([]) == [];
  }

  predicate Mapped(hvs: seq<string>, mapping: map<string, string>)
  {
    exists k :: 0 <= k < |hvs| && hvs[k] in mapping
  }

  /**
   One template record under a value mapping: the record's VALUE is read
   as soon as a collected number has a mapping (a missing VALUE raises),
   and the record is copied with VALUE set to its own VALUE.
   */
  function MapRecord(item: Fields, hvs: seq<string>, mapping: map<string, string>): (r: Result<Fields, ReadError>)
    ensures r.Ok? ==> r.value == item
    ensures r.Err? <==> Mapped(hvs, mapping) && Get(item, "VALUE").None?
  {
    if |hvs| == 0 then Ok(item)
    else if hvs[0] in mapping then
      match Get(item, "VALUE")
      case None => Err(MissingValue)
      case Some(value) => if mapping[hvs[0]] == value then Ok(item) else MapRecord(item, hvs[1..], mapping)
    else
      assert Mapped(hvs, mapping) <==> Mapped(hvs[1..], mapping) by {
        if Mapped(hvs, mapping) {
          var k :| 0 <= k < |hvs| && hvs[k] in mapping;
          assert hvs[1..][k - 1] in mapping;
        }
        if Mapped(hvs[1..], mapping) {
          var k :| 0 <= k < |hvs[1..]| && hvs[1..][k] in mapping;
          assert hvs[k + 1] in mapping;
        }
      }
      MapRecord(item, hvs[1..], mapping)
  }

  function MapTemplate(template: seq<Fields>, hvs: seq<string>, mapping: map<string, string>): (r: Result<seq<Fields>, ReadError>)
    ensures r.Ok? ==> r.value == template
    ensures r.Err? <==> Mapped(hvs, mapping) && exists k :: 0 <= k < |template| && Get(template[k], "VALUE").None?
  {
    if |template| == 0 then Ok([])
    else
      match MapRecord(template[0], hvs, mapping)
      case Err(e) => Err(e)
      case Ok(first) =>
        match MapTemplate(template[1..], hvs, mapping)
        case Err(e) =>
          assert template[1..][0] == template[1];
          var k :| 0 <= k < |template[1..]| && Get(template[1..][k], "VALUE").None?;
          assert template[k + 1] == template[1..][k];
          Err(e)
        case Ok(rest) =>
          assert template == [template[0]] + template[1..];
          Ok([first] + rest)
  }

  /**
   extract_with_mapping: with a template, the template's records (read
   through the value mapping when there is one); without, the records read
   from the table.
   */
  function ExtractWithMapping(table: Option<seq<seq<string>>>, template: seq<Fields>, mapping: map<string, string>)
    : (r: Result<seq<Fields>, ReadError>)
    ensures table.None? ==> r == Err(NoTable)
    ensures table.Some? && |template| > 0 && r.Ok? ==> r.value == template
    ensures |template| == 0 ==> (r.Ok? <==> ExtractData(table).Ok?)
    ensures |template| == 0 && r.Ok? ==> |r.value| == |ExtractData(table).value|
    ensures |template| == 0 && r.Ok? ==> forall k :: 0 <= k < |r.value| ==> r.value[k] == RecordFields(ExtractData(table).value[k])
  {
    match table
    case None => Err(NoTable)
    case Some(rows) =>
      if |template| > 0 then
        if |mapping| > 0 then MapTemplate(template, HtmlValues(rows), mapping) else Ok(template)
      else
        match ExtractData(table)
        case Err(e) => Err(e)
        case Ok(records) => Ok(seq(|records|, k requires 0 <= k < |records| => RecordFields(records[k])))
  }

  /** Template records that all carry VALUE come back unchanged, whatever the mapping. */
  lemma TemplateWins(rows: seq<seq<string>>, template: seq<Fields>, mapping: map<string, string>)
    requires |template| > 0
    requires forall k :: 0 <= k < |template| ==> Get(template[k], "VALUE").Some?
    ensures ExtractWithMapping(Some(rows), template, mapping) == Ok(template)
  {
  }
}
