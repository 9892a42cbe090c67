/**
 The table-structuring half of the Vietnamese PDF processor
 (vietnamese_pdf_processor.py): OCR detections become text boxes with a
 centre and a size, the boxes are clustered into rows around an anchor,
 each row is ordered left to right, and the cleaned rows are padded to a
 common width.
 */
module OcrRows {
  import opened Collections
  import opened Text
  import opened Sorting
  import opened TextCleaning

  datatype Point = Point(x: real, y: real)

  /** One OCR result: the detected polygon, its text and the recogniser's confidence. */
  datatype Detection = Detection(polygon: seq<Point>, text: string, confidence: real)

  datatype TextBox = TextBox(
    text: string,
    polygon: seq<Point>,
    centerX: real,
    centerY: real,
    confidence: real,
    width: real,
    height: real)

  // ---------------------------------------------------------------------
  // Polygon measures
  // ---------------------------------------------------------------------

  function Xs(p: seq<Point>): (r: seq<real>)
    ensures |r| == |p|
    ensures forall i :: 0 <= i < |p| ==> r[i] == p[i].x
  {
    seq(|p|, i requires 0 <= i < |p| => p[i].x)
  }

  function Ys(p: seq<Point>): (r: seq<real>)
    ensures |r| == |p|
    ensures forall i :: 0 <= i < |p| ==> r[i] == p[i].y
  {
    seq(|p|, i requires 0 <= i < |p| => p[i].y)
  }

  function Min(v: seq<real>): (m: real)
    requires |v| > 0
    ensures forall i :: 0 <= i < |v| ==> m <= v[i]
    ensures exists i :: 0 <= i < |v| && v[i] == m
  {
    if |v| == 1 then v[0]
    else
      var rest := Min(v[1..]);
      assert forall i :: 1 <= i < |v| ==> v[i] == v[1..][i - 1];
      if v[0] <= rest then v[0] else rest
  }

  function Max(v: seq<real>): (m: real)
    requires |v| > 0
    ensures forall i :: 0 <= i < |v| ==> v[i] <= m
    ensures exists i :: 0 <= i < |v| && v[i] == m
  {
    if |v| == 1 then v[0]
    else
      var rest := Max(v[1..]);
      assert forall i :: 1 <= i < |v| ==> v[i] == v[1..][i - 1];
      if v[0] >= rest then v[0] else rest
  }

  function Sum(v: seq<real>): real
  {
    if |v| == 0 then 0.0 else v[0] + Sum(v[1..])
  }

  lemma {:induction false} SumBounds(v: seq<real>, lo: real, hi: real)
    requires forall i :: 0 <= i < |v| ==> lo <= v[i] <= hi
    ensures (|v| as real) * lo <= Sum(v) <= (|v| as real) * hi
  {
    if |v| > 0 {
      SumBounds(v[1..], lo, hi);
      assert (|v| as real) * lo == lo + ((|v| - 1) as real) * lo;
      assert (|v| as real) * hi == hi + ((|v| - 1) as real) * hi;
    }
  }

  /** The mean of non-empty values within bounds is within the same bounds. */
  lemma MeanBetween(v: seq<real>, lo: real, hi: real)
    requires |v| > 0
    requires forall i :: 0 <= i < |v| ==> lo <= v[i] <= hi
    ensures lo <= Sum(v) / (|v| as real) <= hi
  {
    SumBounds(v, lo, hi);
    DivLower(Sum(v), |v| as real, lo);
    DivUpper(Sum(v), |v| as real, hi);
  }

  lemma DivLower(s: real, n: real, lo: real)
    requires n > 0.0 && n * lo <= s
    ensures lo <= s / n
  {
    var q := s / n;
    assert q * n == s;
    if q < lo {
      assert (lo - q) * n > 0.0;
    }
  }

  lemma DivUpper(s: real, n: real, hi: real)
    requires n > 0.0 && s <= n * hi
    ensures s / n <= hi
  {
    var q := s / n;
    assert q * n == s;
    if q > hi {
      assert (q - hi) * n > 0.0;
    }
  }

  // ---------------------------------------------------------------------
  // Detections to text boxes (extract_text_with_positions)
  // ---------------------------------------------------------------------

  /** A detection is kept when its confidence is strictly above one half. */
  predicate IsConfident(d: Detection)
  {
    d.confidence > 0.5
  }

  /**
   The text box of a detection: stripped text, the polygon's mean point as
   centre, and the extent of its coordinates as width and height.
   */
  function ToTextBox(d: Detection): (b: TextBox)
    requires |d.polygon| > 0
    ensures b.polygon == d.polygon && b.confidence == d.confidence
  {
    var xs, ys := Xs(d.polygon), Ys(d.polygon);
    TextBox(
      Strip(d.text),
      d.polygon,
      Sum(xs) / (|xs| as real),
      Sum(ys) / (|ys| as real),
      d.confidence,
      Max(xs) - Min(xs),
      Max(ys) - Min(ys))
  }

  /** The box's text is the stripped text, and its centre lies within the polygon's extent. */
  lemma ToTextBoxCentre(d: Detection)
    requires |d.polygon| > 0
    ensures var b := ToTextBox(d);
      && b.text == Strip(d.text)
      && Min(Xs(d.polygon)) <= b.centerX <= Max(Xs(d.polygon))
      && Min(Ys(d.polygon)) <= b.centerY <= Max(Ys(d.polygon))
  {
    var xs, ys := Xs(d.polygon), Ys(d.polygon);
    MeanBetween(xs, Min(xs), Max(xs));
    MeanBetween(ys, Min(ys), Max(ys));
  }

  /** Width and height are the largest differences of the polygon's coordinates. */
  lemma ToTextBoxExtent(d: Detection)
    requires |d.polygon| > 0
    ensures var b := ToTextBox(d);
      forall i, j :: 0 <= i < |d.polygon| && 0 <= j < |d.polygon| ==>
        d.polygon[i].x - d.polygon[j].x <= b.width && d.polygon[i].y - d.polygon[j].y <= b.height
    ensures exists i, j :: 0 <= i < |d.polygon| && 0 <= j < |d.polygon| && d.polygon[i].x - d.polygon[j].x == ToTextBox(d).width
    ensures exists i, j :: 0 <= i < |d.polygon| && 0 <= j < |d.polygon| && d.polygon[i].y - d.polygon[j].y == ToTextBox(d).height
  {
    var xs, ys := Xs(d.polygon), Ys(d.polygon);
    var b := ToTextBox(d);
    assert b.width == Max(xs) - Min(xs) && b.height == Max(ys) - Min(ys);
    forall i, j | 0 <= i < |d.polygon| && 0 <= j < |d.polygon|
      ensures d.polygon[i].x - d.polygon[j].x <= b.width && d.polygon[i].y - d.polygon[j].y <= b.height
    {
      assert xs[i] == d.polygon[i].x && xs[j] == d.polygon[j].x;
      assert ys[i] == d.polygon[i].y && ys[j] == d.polygon[j].y;
    }
    var i, j := SpreadAt(xs);
    assert d.polygon[i].x - d.polygon[j].x == b.width;
    var k, l := SpreadAt(ys);
    assert d.polygon[k].y - d.polygon[l].y == b.height;
  }

  /** The spread `Max - Min` of non-empty values is the difference of two of them. */
  lemma SpreadAt(v: seq<real>) returns (i: nat, j: nat)
    requires |v| > 0
    ensures i < |v| && j < |v| && v[i] - v[j] == Max(v) - Min(v)
  {
    i :| i < |v| && v[i] == Max(v);
    j :| j < |v| && v[j] == Min(v);
  }

  function CountConfident(ds: seq<Detection>): nat
  {
    if |ds| == 0 then 0 else (if IsConfident(ds[0]) then 1 else 0) + CountConfident(ds[1..])
  }

  /**
   The boxes of the confident detections, in detection order. A confident
   detection must have a polygon: the centre divides by its point count.
   */
  function TextBoxes(ds: seq<Detection>): (r: seq<TextBox>)
    requires forall i :: 0 <= i < |ds| && IsConfident(ds[i]) ==> |ds[i].polygon| > 0
    ensures |r| == CountConfident(ds) <= |ds|
    ensures forall i :: 0 <= i < |r| ==> r[i].confidence > 0.5
  {
    if |ds| == 0 then []
    else
      assert forall i :: 0 <= i < |ds| - 1 ==> ds[1..][i] == ds[i + 1];
      Kept(ds[0]) + TextBoxes(ds[1..])
  }

  /** The box of one detection when it is kept, nothing otherwise. */
  function Kept(d: Detection): (r: seq<TextBox>)
    requires IsConfident(d) ==> |d.polygon| > 0
    ensures |r| == (if IsConfident(d) then 1 else 0)
    ensures forall i :: 0 <= i < |r| ==> r[i].confidence > 0.5
  {
    if IsConfident(d) then [ToTextBox(d)] else []
  }

  /** Converting two runs of detections converts their concatenation. */
  lemma {:induction false} TextBoxesAppend(a: seq<Detection>, b: seq<Detection>)
    requires forall k :: 0 <= k < |a| && IsConfident(a[k]) ==> |a[k].polygon| > 0
    requires forall k :: 0 <= k < |b| && IsConfident(b[k]) ==> |b[k].polygon| > 0
    ensures TextBoxes(a + b) == TextBoxes(a) + TextBoxes(b)
  {
    if |a| == 0 {
      assert a + b == b;
    } else {
      var t: seq<Detection> := a[1..];
      assert (a + b)[1..] == t + b;
      TextBoxesAppend(t, b);
    }
  }

  /** Every confident detection gives a box, after the boxes of the detections before it. */
  lemma ConfidentKept(ds: seq<Detection>, j: int)
    requires forall k :: 0 <= k < |ds| && IsConfident(ds[k]) ==> |ds[k].polygon| > 0
    requires 0 <= j < |ds| && IsConfident(ds[j])
    ensures var i := |TextBoxes(ds[..j])|; i < |TextBoxes(ds)| && TextBoxes(ds)[i] == ToTextBox(ds[j])
  {
    var a, b: seq<Detection> := ds[..j], ds[j..];
    assert ds == a + b;
    TextBoxesAppend(a, b);
    assert b[0] == ds[j];
    assert TextBoxes(b) == [ToTextBox(ds[j])] + TextBoxes(b[1..]);
  }

  /** Detections that are all confident give one box each, in order. */
  lemma {:induction false} TextBoxesAllConfident(ds: seq<Detection>, i: int)
    requires forall j :: 0 <= j < |ds| ==> IsConfident(ds[j]) && |ds[j].polygon| > 0
    requires 0 <= i < |ds|
    ensures |TextBoxes(ds)| == |ds| && TextBoxes(ds)[i] == ToTextBox(ds[i])
  {
    AllConfidentCount(ds);
    AllConfidentCount(ds[..i]);
    ConfidentKept(ds, i);
  }

  lemma {:induction false} AllConfidentCount(ds: seq<Detection>)
    requires forall j :: 0 <= j < |ds| ==> IsConfident(ds[j])
    ensures CountConfident(ds) == |ds|
  {
    if |ds| > 0 {
      AllConfidentCount(ds[1..]);
    }
  }

  // ---------------------------------------------------------------------
  // Row clustering (detect_table_structure)
  // ---------------------------------------------------------------------

  function CenterX(b: TextBox): real
  {
    b.centerX
  }

  function CenterY(b: TextBox): real
  {
    b.centerY
  }

  function Abs(x: real): real
  {
    if x < 0.0 then -x else x
  }

  /** Vertical distance beyond which a box starts a new row. */
  const RowGap: real := 20.0

  /** Length of the longest prefix of `s` whose centres are within `RowGap` of `y`. */
  function NearLength(s: seq<TextBox>, y: real): (n: nat)
    ensures n <= |s|
    ensures forall i :: 0 <= i < n ==> Abs(s[i].centerY - y) <= RowGap
    ensures n < |s| ==> Abs(s[n].centerY - y) > RowGap
  {
    if |s| > 0 && Abs(s[0].centerY - y) <= RowGap then 1 + NearLength(s[1..], y) else 0
  }

  /** Every box of a row is within `RowGap` of the row's first box, its anchor. */
  ghost predicate NearAnchor(row: seq<TextBox>)
  {
    forall i :: 0 <= i < |row| ==> Abs(row[i].centerY - row[0].centerY) <= RowGap
  }

  /** Consecutive rows' anchors are more than `RowGap` apart. */
  ghost predicate AnchorsApart(rows: seq<seq<TextBox>>)
    requires forall k :: 0 <= k < |rows| ==> |rows[k]| > 0
  {
    forall k, l :: 0 <= k < l < |rows| && l == k + 1 ==> Abs(rows[l][0].centerY - rows[k][0].centerY) > RowGap
  }

  /** Each row's anchor lies more than `RowGap` above the next row's anchor. */
  ghost predicate AnchorsRising(rows: seq<seq<TextBox>>)
    requires forall k :: 0 <= k < |rows| ==> |rows[k]| > 0
  {
    forall k, l :: 0 <= k < l < |rows| && l == k + 1 ==> rows[k][0].centerY + RowGap < rows[l][0].centerY
  }

  /** Length of the row anchored by the first box: the anchor and the boxes near it that follow. */
  function RowEnd(s: seq<TextBox>): (n: nat)
    requires |s| > 0
    ensures 1 <= n <= |s|
  {
    1 + NearLength(s[1..], s[0].centerY)
  }

  /**
   The scan over boxes in vertical order: the first box anchors a row, the
   following boxes join it while within `RowGap` of the anchor, and the
   first box further away anchors the next row.
   */
  function GroupRows(s: seq<TextBox>): (rows: seq<seq<TextBox>>)
    ensures forall k :: 0 <= k < |rows| ==> |rows[k]| > 0
    ensures |s| > 0 ==> |rows| > 0 && rows[0][0] == s[0]
    decreases |s|
  {
    if |s| == 0 then []
    else
      var n := RowEnd(s);
      [s[..n]] + GroupRows(s[n..])
  }

  /** The first row stays near its anchor, and the box after it does not. */
  lemma FirstRowNear(s: seq<TextBox>)
    requires |s| > 0
    ensures NearAnchor(s[..RowEnd(s)])
    ensures RowEnd(s) < |s| ==> Abs(s[RowEnd(s)].centerY - s[0].centerY) > RowGap
  {
    var n := RowEnd(s);
    forall i | 0 <= i < n ensures Abs(s[..n][i].centerY - s[..n][0].centerY) <= RowGap {
      if i > 0 {
        assert s[..n][i] == s[1..][i - 1];
      }
    }
    if n < |s| {
      assert s[n] == s[1..][n - 1];
    }
  }

  lemma GroupRowsCons(s: seq<TextBox>)
    requires |s| > 0
    ensures GroupRows(s) == [s[..RowEnd(s)]] + GroupRows(s[RowEnd(s)..])
  {
  }

  /** The rows partition the boxes: concatenated, they give back the input in order. */
  lemma {:induction false} GroupRowsFlatten(s: seq<TextBox>)
    ensures Flatten(GroupRows(s)) == s
    decreases |s|
  {
    if |s| > 0 {
      var n := RowEnd(s);
      assert Flatten(GroupRows(s)) == s[..n] + Flatten(GroupRows(s[n..])) by {
        GroupRowsCons(s);
        FlattenCons(s[..n], GroupRows(s[n..]));
      }
      GroupRowsFlatten(s[n..]);
      assert s[..n] + s[n..] == s;
    }
  }

  /** A row near its anchor in front of rows near theirs, anchors apart. */
  lemma ConsNear(row: seq<TextBox>, rest: seq<seq<TextBox>>)
    requires |row| > 0 && NearAnchor(row)
    requires forall k :: 0 <= k < |rest| ==> |rest[k]| > 0 && NearAnchor(rest[k])
    requires AnchorsApart(rest)
    requires |rest| > 0 ==> Abs(rest[0][0].centerY - row[0].centerY) > RowGap
    ensures forall k :: 0 <= k < |[row] + rest| ==> |([row] + rest)[k]| > 0 && NearAnchor(([row] + rest)[k])
    ensures AnchorsApart([row] + rest)
  {
    var rows := [row] + rest;
    assert forall k :: 1 <= k < |rows| ==> rows[k] == rest[k - 1];
  }

  /** Every box is within `RowGap` of its row's anchor, and consecutive anchors are further apart. */
  lemma {:induction false} GroupRowsNear(s: seq<TextBox>)
    ensures forall k :: 0 <= k < |GroupRows(s)| ==> NearAnchor(GroupRows(s)[k])
    ensures AnchorsApart(GroupRows(s))
    decreases |s|
  {
    if |s| > 0 {
      var n := RowEnd(s);
      var rest: seq<seq<TextBox>> := GroupRows(s[n..]);
      GroupRowsNear(s[n..]);
      FirstRowNear(s);
      assert |rest| > 0 ==> rest[0][0] == s[n];
      ConsNear(s[..n], rest);
      assert GroupRows(s) == [s[..n]] + rest;
    }
  }

  /** A slice of a sorted sequence is sorted. */
  lemma SortedSlice(s: seq<TextBox>, lo: int, hi: int)
    requires SortedBy(s, CenterY) && 0 <= lo <= hi <= |s|
    ensures SortedBy(s[lo..hi], CenterY)
  {
    forall i, j | 0 <= i < j < hi - lo ensures CenterY(s[lo..hi][i]) <= CenterY(s[lo..hi][j]) {
      assert s[lo..hi][i] == s[lo + i] && s[lo..hi][j] == s[lo + j];
    }
  }

  /** A sorted row in front of sorted rows whose anchors rise, its own anchor low enough. */
  lemma ConsSorted(row: seq<TextBox>, rest: seq<seq<TextBox>>)
    requires |row| > 0 && SortedBy(row, CenterY)
    requires forall k :: 0 <= k < |rest| ==> |rest[k]| > 0 && SortedBy(rest[k], CenterY)
    requires AnchorsRising(rest)
    requires |rest| > 0 ==> row[0].centerY + RowGap < rest[0][0].centerY
    ensures forall k :: 0 <= k < |[row] + rest| ==> |([row] + rest)[k]| > 0 && SortedBy(([row] + rest)[k], CenterY)
    ensures AnchorsRising([row] + rest)
  {
    var rows := [row] + rest;
    assert forall k :: 1 <= k < |rows| ==> rows[k] == rest[k - 1];
  }

  /** Rows cut from vertically sorted boxes are sorted, and their anchors rise by more than `RowGap`. */
  lemma {:induction false} GroupRowsSorted(s: seq<TextBox>)
    requires SortedBy(s, CenterY)
    ensures forall k :: 0 <= k < |GroupRows(s)| ==> SortedBy(GroupRows(s)[k], CenterY)
    ensures AnchorsRising(GroupRows(s))
    decreases |s|
  {
    if |s| > 0 {
      var n := RowEnd(s);
      var rest: seq<seq<TextBox>> := GroupRows(s[n..]);
      assert SortedBy(s[n..], CenterY) by {
        SortedSlice(s, n, |s|);
      }
      GroupRowsSorted(s[n..]);
      assert SortedBy(s[..n], CenterY) by {
        SortedSlice(s, 0, n);
      }
      assert |rest| > 0 ==> s[..n][0].centerY + RowGap < rest[0][0].centerY by {
        FirstRowNear(s);
        if n < |s| {
          assert CenterY(s[0]) <= CenterY(s[n]);
        }
      }
      ConsSorted(s[..n], rest);
      assert GroupRows(s) == [s[..n]] + rest;
    }
  }

  /** The smallest vertical centre of a non-empty row: where its anchor sat. */
  function MinCenterY(row: seq<TextBox>): (m: real)
    requires |row| > 0
    ensures forall i :: 0 <= i < |row| ==> m <= row[i].centerY
    ensures exists i :: 0 <= i < |row| && row[i].centerY == m
  {
    var v := seq(|row|, i requires 0 <= i < |row| => row[i].centerY);
    assert forall i :: 0 <= i < |row| ==> v[i] == row[i].centerY;
    Min(v)
  }

  /** Reordering a row does not move its anchor. */
  lemma MinCenterYPermutation(a: seq<TextBox>, b: seq<TextBox>)
    requires |a| > 0 && multiset(a) == multiset(b)
    ensures |b| > 0 && MinCenterY(a) == MinCenterY(b)
  {
    assert a[0] in multiset(b);
    var i :| 0 <= i < |a| && a[i].centerY == MinCenterY(a);
    var j :| 0 <= j < |b| && b[j].centerY == MinCenterY(b);
    assert a[i] in multiset(b);
    assert b[j] in multiset(a);
    var i' :| 0 <= i' < |b| && b[i'] == a[i];
    var j' :| 0 <= j' < |a| && a[j'] == b[j];
  }

  /** Each row ordered left to right. */
  function SortRows(rows: seq<seq<TextBox>>): (r: seq<seq<TextBox>>)
    ensures |r| == |rows|
    ensures forall k :: 0 <= k < |rows| ==> r[k] == SortBy(rows[k], CenterX)
    ensures forall k :: 0 <= k < |rows| ==> SortedBy(r[k], CenterX) && multiset(r[k]) == multiset(rows[k])
  {
    seq(|rows|, k requires 0 <= k < |rows| => SortBy(rows[k], CenterX))
  }

  lemma {:induction false} FlattenPermutation(a: seq<seq<TextBox>>, b: seq<seq<TextBox>>)
    requires |a| == |b|
    requires forall k :: 0 <= k < |a| ==> multiset(a[k]) == multiset(b[k])
    ensures multiset(Flatten(a)) == multiset(Flatten(b))
  {
    if |a| > 0 {
      FlattenPermutation(a[1..], b[1..]);
    }
  }

  /** The rows of the vertical scan, before each is ordered left to right. */
  function ScanRows(boxes: seq<TextBox>): seq<seq<TextBox>>
  {
    GroupRows(SortBy(boxes, CenterY))
  }

  /**
   detect_table_structure: the boxes clustered into rows by vertical
   centre, rows top to bottom, each row left to right.
   */
  function DetectTableStructure(boxes: seq<TextBox>): (rows: seq<seq<TextBox>>)
    ensures |boxes| == 0 <==> rows == []
    ensures forall k :: 0 <= k < |rows| ==> |rows[k]| > 0 && SortedBy(rows[k], CenterX)
  {
    SortRows(ScanRows(boxes))
  }

  /** Each row is a reordering of the scan's row at the same position. */
  lemma DetectTableRowPermutation(boxes: seq<TextBox>, k: int)
    requires 0 <= k < |DetectTableStructure(boxes)|
    ensures k < |ScanRows(boxes)| && multiset(DetectTableStructure(boxes)[k]) == multiset(ScanRows(boxes)[k])
  {
  }

  /** The rows hold every box exactly once. */
  lemma DetectTablePartition(boxes: seq<TextBox>)
    ensures multiset(Flatten(DetectTableStructure(boxes))) == multiset(boxes)
  {
    var sorted := SortBy(boxes, CenterY);
    var rows := DetectTableStructure(boxes);
    GroupRowsFlatten(sorted);
    forall k | 0 <= k < |rows| ensures multiset(rows[k]) == multiset(ScanRows(boxes)[k]) {
      DetectTableRowPermutation(boxes, k);
    }
    FlattenPermutation(rows, ScanRows(boxes));
  }

  /** A row's topmost centre is its anchor in the vertical scan. */
  lemma DetectTableAnchor(boxes: seq<TextBox>, k: int)
    requires 0 <= k < |DetectTableStructure(boxes)|
    ensures k < |ScanRows(boxes)| && MinCenterY(DetectTableStructure(boxes)[k]) == ScanRows(boxes)[k][0].centerY
  {
    var sorted := SortBy(boxes, CenterY);
    var g := ScanRows(boxes)[k];
    GroupRowsSorted(sorted);
    assert SortedBy(g, CenterY);
    assert forall i :: 0 <= i < |g| ==> CenterY(g[0]) <= CenterY(g[i]);
    assert MinCenterY(g) == g[0].centerY;
    DetectTableRowPermutation(boxes, k);
    MinCenterYPermutation(g, DetectTableStructure(boxes)[k]);
  }

  /** Every box of a row lies between the row's topmost centre and `RowGap` below it. */
  lemma DetectTableRowNear(boxes: seq<TextBox>, k: int, i: int)
    requires 0 <= k < |DetectTableStructure(boxes)| && 0 <= i < |DetectTableStructure(boxes)[k]|
    ensures var row := DetectTableStructure(boxes)[k];
      MinCenterY(row) <= row[i].centerY <= MinCenterY(row) + RowGap
  {
    var row := DetectTableStructure(boxes)[k];
    var g := ScanRows(boxes)[k];
    DetectTableAnchor(boxes, k);
    DetectTableRowPermutation(boxes, k);
    GroupRowsNear(SortBy(boxes, CenterY));
    assert row[i] in multiset(g);
    var j :| 0 <= j < |g| && g[j] == row[i];
    assert Abs(g[j].centerY - g[0].centerY) <= RowGap;
  }

  /** Consecutive rows' topmost centres are more than `RowGap` apart, top to bottom. */
  lemma DetectTableRowsApart(boxes: seq<TextBox>, k: int)
    requires 0 <= k && k + 1 < |DetectTableStructure(boxes)|
    ensures MinCenterY(DetectTableStructure(boxes)[k]) + RowGap < MinCenterY(DetectTableStructure(boxes)[k + 1])
  {
    DetectTableAnchor(boxes, k);
    DetectTableAnchor(boxes, k + 1);
    GroupRowsSorted(SortBy(boxes, CenterY));
  }

  /** The first row's box and the rows after it: a row ends at the first box further than `RowGap` from its anchor. */
  lemma GroupRowsCut(row: seq<TextBox>, rest: seq<TextBox>)
    requires |row| > 0
    requires forall i :: 0 <= i < |row| ==> Abs(row[i].centerY - row[0].centerY) <= RowGap
    requires |rest| > 0 ==> Abs(rest[0].centerY - row[0].centerY) > RowGap
    ensures GroupRows(row + rest) == [row] + GroupRows(rest)
  {
    var s := row + rest;
    NearLengthExact(s[1..], row[0].centerY, |row| - 1);
    assert s[..|row|] == row && s[|row|..] == rest;
  }

  lemma {:induction false} NearLengthExact(s: seq<TextBox>, y: real, n: nat)
    requires n <= |s|
    requires forall i :: 0 <= i < n ==> Abs(s[i].centerY - y) <= RowGap
    requires n < |s| ==> Abs(s[n].centerY - y) > RowGap
    ensures NearLength(s, y) == n
  {
    if n > 0 {
      NearLengthExact(s[1..], y, n - 1);
    }
  }

  /**
   Boxes laid out in bands: every box of a band has the band's vertical
   centre, and each band lies more than `RowGap` below the previous one.
   */
  ghost predicate Banded(bands: seq<seq<TextBox>>)
  {
    && (forall k :: 0 <= k < |bands| ==> |bands[k]| > 0)
    && (forall k, i :: 0 <= k < |bands| && 0 <= i < |bands[k]| ==> bands[k][i].centerY == bands[k][0].centerY)
    && (forall k, l :: 0 <= k < l < |bands| && l == k + 1 ==> bands[k][0].centerY + RowGap < bands[l][0].centerY)
  }

  lemma BandedTail(bands: seq<seq<TextBox>>)
    requires Banded(bands) && |bands| > 0
    ensures Banded(bands[1..])
  {
    var t := bands[1..];
    assert forall k :: 0 <= k < |t| ==> t[k] == bands[k + 1];
  }

  /** No box of banded rows lies above the first band. */
  lemma {:induction false} BandedBelowFirst(bands: seq<seq<TextBox>>)
    requires Banded(bands) && |bands| > 0
    ensures forall i :: 0 <= i < |Flatten(bands)| ==> bands[0][0].centerY <= Flatten(bands)[i].centerY
  {
    var rest := bands[1..];
    var f := Flatten(bands);
    assert f == bands[0] + Flatten(rest);
    if |rest| > 0 {
      BandedTail(bands);
      BandedBelowFirst(rest);
      assert rest[0] == bands[1];
    }
    forall i | 0 <= i < |f| ensures bands[0][0].centerY <= f[i].centerY {
      if i < |bands[0]| {
        assert f[i] == bands[0][i];
      } else {
        assert f[i] == Flatten(rest)[i - |bands[0]|];
      }
    }
  }

  lemma {:induction false} BandedSorted(bands: seq<seq<TextBox>>)
    requires Banded(bands)
    ensures SortedBy(Flatten(bands), CenterY)
  {
    if |bands| > 0 {
      var rest := bands[1..];
      var f := Flatten(bands);
      var n := |bands[0]|;
      assert f == bands[0] + Flatten(rest);
      BandedTail(bands);
      BandedSorted(rest);
      if |rest| > 0 {
        BandedBelowFirst(rest);
        assert rest[0] == bands[1];
      }
      forall i, j | 0 <= i < j < |f| ensures CenterY(f[i]) <= CenterY(f[j]) {
        if j < n {
          assert f[i] == bands[0][i] && f[j] == bands[0][j];
        } else if i < n {
          assert f[i] == bands[0][i] && f[j] == Flatten(rest)[j - n];
        } else {
          assert f[i] == Flatten(rest)[i - n] && f[j] == Flatten(rest)[j - n];
        }
      }
    }
  }

  lemma {:induction false} BandedScan(bands: seq<seq<TextBox>>)
    requires Banded(bands)
    ensures GroupRows(Flatten(bands)) == bands
  {
    if |bands| > 0 {
      var rest := bands[1..];
      BandedTail(bands);
      BandedScan(rest);
      if |rest| > 0 {
        assert rest[0] == bands[1];
        assert Flatten(rest) == rest[0] + Flatten(rest[1..]);
      }
      GroupRowsCut(bands[0], Flatten(rest));
      assert bands == [bands[0]] + rest;
    }
  }

  /** Boxes laid out in well separated bands come back as exactly those bands, each ordered left to right. */
  lemma DetectTableBands(bands: seq<seq<TextBox>>)
    requires Banded(bands)
    ensures |DetectTableStructure(Flatten(bands))| == |bands|
    ensures forall k :: 0 <= k < |bands| ==> DetectTableStructure(Flatten(bands))[k] == SortBy(bands[k], CenterX)
  {
    BandedSorted(bands);
    SortBySorted(Flatten(bands), CenterY);
    BandedScan(bands);
  }

  // ---------------------------------------------------------------------
  // Cleaned, padded page table (process_pdf)
  // ---------------------------------------------------------------------

  /** `row` extended with empty cells to `width`. */
  function PadRow(row: seq<string>, width: nat): (r: seq<string>)
    requires |row| <= width
    ensures |r| == width
    ensures r[..|row|] == row
    ensures forall i :: |row| <= i < width ==> r[i] == ""
  {
    row + Repeat("", width - |row|)
  }

  /** Every row padded with empty cells to the widest row's length. */
  function PadRows(rows: seq<seq<string>>): (r: seq<seq<string>>)
    ensures |r| == |rows|
    ensures forall k :: 0 <= k < |r| ==> |r[k]| == MaxLength(rows)
    ensures forall k :: 0 <= k < |r| ==> |rows[k]| <= |r[k]| && r[k][..|rows[k]|] == rows[k]
    ensures forall k, i :: 0 <= k < |r| && |rows[k]| <= i < |r[k]| ==> r[k][i] == ""
  {
    var w := MaxLength(rows);
    seq(|rows|, k requires 0 <= k < |rows| => PadRow(rows[k], w))
  }

  /** Padding rows of equal length changes nothing, so padding twice is padding once. */
  lemma PadRowsIdempotent(rows: seq<seq<string>>)
    ensures PadRows(PadRows(rows)) == PadRows(rows)
  {
    var p := PadRows(rows);
    var q := PadRows(p);
    if |rows| > 0 {
      assert MaxLength(p) == MaxLength(rows);
    }
    forall k | 0 <= k < |q| ensures q[k] == p[k] {
      assert q[k][..|p[k]|] == p[k];
    }
  }

  /** The cleaned texts of a row's boxes. */
  function RowTexts(row: seq<TextBox>): (r: seq<string>)
    ensures |r| == |row|
    ensures forall i :: 0 <= i < |row| ==> r[i] == CleanText(row[i].text)
  {
    seq(|row|, i requires 0 <= i < |row| => CleanText(row[i].text))
  }

  /** The cleaned texts of every row. */
  function PageTexts(rows: seq<seq<TextBox>>): (r: seq<seq<string>>)
    ensures |r| == |rows|
    ensures forall k :: 0 <= k < |rows| ==> r[k] == RowTexts(rows[k])
  {
    seq(|rows|, k requires 0 <= k < |rows| => RowTexts(rows[k]))
  }

  /**
   The table of one page: no table without boxes; otherwise one row per
   cluster, cleaned texts left to right, padded to a common width.
   */
  function PageTable(boxes: seq<TextBox>): (r: Option<seq<seq<string>>>)
    ensures r.Some? <==> |boxes| > 0
    ensures r.Some? ==> |r.value| == |DetectTableStructure(boxes)| > 0
    ensures r.Some? ==> forall k :: 0 <= k < |r.value| ==> |r.value[k]| == |r.value[0]|
  {
    var rows := DetectTableStructure(boxes);
    if |rows| == 0 then None
    else Some(PadRows(PageTexts(rows)))
  }

  /** A padded cell is the row's own cell, or empty past the row's end. */
  lemma PadRowsCell(rows: seq<seq<string>>, k: int, i: int)
    requires 0 <= k < |rows| && 0 <= i < |PadRows(rows)[k]|
    ensures PadRows(rows)[k][i] == if i < |rows[k]| then rows[k][i] else ""
  {
    var p := PadRows(rows);
    if i < |rows[k]| {
      assert p[k][i] == p[k][..|rows[k]|][i];
    }
  }

  /**
   Cell `i` of table row `k` is the cleaned text of the row's `i`-th box
   from the left, or empty past the row's last box.
   */
  lemma PageTableCell(boxes: seq<TextBox>, k: int, i: int)
    requires PageTable(boxes).Some?
    requires 0 <= k < |PageTable(boxes).value| && 0 <= i < |PageTable(boxes).value[k]|
    ensures var row := DetectTableStructure(boxes)[k];
      PageTable(boxes).value[k][i] == if i < |row| then CleanText(row[i].text) else ""
  {
    var rows := DetectTableStructure(boxes);
    var texts := PageTexts(rows);
    assert PageTable(boxes).value == PadRows(texts);
    PadRowsCell(texts, k, i);
  }

  /** Every character of the page table is one the cleaner allows. */
  lemma PageTableAllowed(boxes: seq<TextBox>, k: int, i: int, j: int)
    requires PageTable(boxes).Some?
    requires 0 <= k < |PageTable(boxes).value| && 0 <= i < |PageTable(boxes).value[k]|
    requires 0 <= j < |PageTable(boxes).value[k][i]|
    ensures IsAllowed(PageTable(boxes).value[k][i][j])
  {
    PageTableCell(boxes, k, i);
  }

  /** Every cell of a page table is clean text: allowed characters, single spaces, no blank ends. */
  lemma PageTableCellsClean(boxes: seq<TextBox>, k: int, i: int)
    requires PageTable(boxes).Some?
    requires 0 <= k < |PageTable(boxes).value| && 0 <= i < |PageTable(boxes).value[k]|
    ensures IsCleanText(PageTable(boxes).value[k][i])
  {
    PageTableCell(boxes, k, i);
    var row := DetectTableStructure(boxes)[k];
    if i < |row| {
      CleanTextIsClean(row[i].text);
    }
  }
}
