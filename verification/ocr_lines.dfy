/**
 The OCR line reader of extract.py: the detections of a page are grouped
 into lines by the mean height of their box, each line is read left to
 right, and the table rows are the lines from the one naming the demand
 deposit ("không kỳ hạn") to the one naming the 60-month term ("60 tháng"),
 split into fields at runs of two or more whitespace characters.
 */
module OcrLines {
  import opened Collections
  import opened Text
  import opened Sorting
  import opened OcrRows
  import opened TextCleaning

  /** The four corners of a detection box, as the OCR engine reports them. */
  datatype Quad = Quad(p0: Point, p1: Point, p2: Point, p3: Point)

  /** One detection as the line grouping sees it: its box and its text. */
  datatype Item = Item(box: Quad, text: string)

  /** One line: the height key it was opened with and its items in arrival order. */
  datatype Group = Group(key: int, items: seq<Item>)

  // ---------------------------------------------------------------------
  // Line keys
  // ---------------------------------------------------------------------

  /** Python's `int()` on a number: truncation toward zero. */
  function TruncToInt(x: real): (k: int)
    ensures x >= 0.0 ==> 0 <= k && k as real <= x < k as real + 1.0
    ensures x < 0.0 ==> k <= 0 && k as real - 1.0 < x <= k as real
  {
    if x >= 0.0 then x.Floor else -((-x).Floor)
  }

  lemma TruncToIntExamples()
    ensures TruncToInt(101.75) == 101 && TruncToInt(-2.5) == -2 && TruncToInt(-3.0) == -3
  {
  }

  /** The height of an item: the mean of its corners' `y`, truncated. */
  function YKey(q: Quad): int
  {
    TruncToInt((q.p0.y + q.p1.y + q.p2.y + q.p3.y) / 4.0)
  }

  /** The leftmost `x` of a box: the key each line is ordered by. */
  function MinX(it: Item): (m: real)
    ensures m <= it.box.p0.x && m <= it.box.p1.x && m <= it.box.p2.x && m <= it.box.p3.x
    ensures m == it.box.p0.x || m == it.box.p1.x || m == it.box.p2.x || m == it.box.p3.x
  {
    var q := it.box;
    var a := if q.p0.x <= q.p1.x then q.p0.x else q.p1.x;
    var b := if q.p2.x <= q.p3.x then q.p2.x else q.p3.x;
    if a <= b then a else b
  }

  /** Heights closer than this share a line. */
  const LineGap: int := 15

  predicate Near(key: int, y: int)
  {
    -LineGap < key - y < LineGap
  }

  // ---------------------------------------------------------------------
  // Grouping by height
  // ---------------------------------------------------------------------

  /** No two line keys are close enough to share a line. */
  ghost predicate KeysApart(groups: seq<Group>)
  {
    forall i, j :: 0 <= i < j < |groups| ==> !Near(groups[i].key, groups[j].key)
  }

  /** Every line is non-empty and every item is close to its line's key. */
  ghost predicate ItemsNearKey(groups: seq<Group>)
  {
    && (forall k :: 0 <= k < |groups| ==> |groups[k].items| > 0)
    && (forall k, i :: 0 <= k < |groups| && 0 <= i < |groups[k].items| ==> Near(groups[k].key, YKey(groups[k].items[i].box)))
  }

  function Keys(groups: seq<Group>): (r: seq<int>)
    ensures |r| == |groups|
    ensures forall i :: 0 <= i < |groups| ==> r[i] == groups[i].key
  {
    seq(|groups|, i requires 0 <= i < |groups| => groups[i].key)
  }

  function ItemLists(groups: seq<Group>): (r: seq<seq<Item>>)
    ensures |r| == |groups|
    ensures forall i :: 0 <= i < |groups| ==> r[i] == groups[i].items
  {
    seq(|groups|, i requires 0 <= i < |groups| => groups[i].items)
  }

  /**
   One step of the grouping loop: the item joins the first line, in the
   order lines were opened, whose key is within `LineGap` of its height;
   when there is none it opens a new line keyed by its own height.
   */
  function AddItem(groups: seq<Group>, it: Item): (r: seq<Group>)
    ensures |r| == |groups| || |r| == |groups| + 1
    ensures Keys(r)[..|groups|] == Keys(groups)
    ensures |r| == |groups| + 1 <==> forall i :: 0 <= i < |groups| ==> !Near(groups[i].key, YKey(it.box))
  {
    var y := YKey(it.box);
    match FirstIndex((g: Group) => Near(g.key, y), groups)
    case Some(i) => groups[i := Group(groups[i].key, groups[i].items + [it])]
    case None => groups + [Group(y, [it])]
  }

  /** The item joins line `i` when that is the first line within reach. */
  lemma AddItemJoins(groups: seq<Group>, it: Item, i: int)
    requires 0 <= i < |groups| && Near(groups[i].key, YKey(it.box))
    requires forall j :: 0 <= j < i ==> !Near(groups[j].key, YKey(it.box))
    ensures AddItem(groups, it) == groups[i := Group(groups[i].key, groups[i].items + [it])]
  {
    var y := YKey(it.box);
    var r := FirstIndex((g: Group) => Near(g.key, y), groups);
    assert r.Some? && r.value == i;
  }

  /** The item opens a new line, keyed by its own height, when no line is within reach. */
  lemma AddItemOpens(groups: seq<Group>, it: Item)
    requires forall j :: 0 <= j < |groups| ==> !Near(groups[j].key, YKey(it.box))
    ensures AddItem(groups, it) == groups + [Group(YKey(it.box), [it])]
  {
    var y := YKey(it.box);
    assert FirstIndex((g: Group) => Near(g.key, y), groups).None?;
  }

  lemma AddItemApart(groups: seq<Group>, it: Item)
    requires KeysApart(groups)
    ensures KeysApart(AddItem(groups, it))
  {
    var r := AddItem(groups, it);
    if |r| == |groups| + 1 {
      assert forall i :: 0 <= i < |groups| ==> r[i].key == Keys(r)[..|groups|][i];
    } else {
      assert forall i :: 0 <= i < |groups| ==> r[i].key == Keys(r)[..|groups|][i];
    }
  }

  lemma AddItemNear(groups: seq<Group>, it: Item)
    requires ItemsNearKey(groups)
    ensures ItemsNearKey(AddItem(groups, it))
  {
  }

  /** The arriving item is added to exactly one line. */
  lemma AddItemKeepsAll(groups: seq<Group>, it: Item)
    ensures multiset(Flatten(ItemLists(AddItem(groups, it)))) == multiset(Flatten(ItemLists(groups))) + multiset{it}
  {
    var y := YKey(it.box);
    var a := ItemLists(groups);
    var b := ItemLists(AddItem(groups, it));
    match FirstIndex((g: Group) => Near(g.key, y), groups)
    case Some(i) =>
      assert b == a[i := a[i] + [it]];
      FlattenSnocAt(a, i, it);
    case None =>
      assert b == a + [[it]];
      FlattenAppend(a, [[it]]);
      assert Flatten([[it]]) == [it];
  }

  lemma FlattenSnocAt<T>(xss: seq<seq<T>>, i: int, x: T)
    requires 0 <= i < |xss|
    ensures multiset(Flatten(xss[i := xss[i] + [x]])) == multiset(Flatten(xss)) + multiset{x}
  {
    var ys := xss[i := xss[i] + [x]];
    assert xss == xss[..i] + [xss[i]] + xss[i + 1..];
    assert ys == xss[..i] + [xss[i] + [x]] + xss[i + 1..];
    FlattenAppend(xss[..i] + [xss[i]], xss[i + 1..]);
    FlattenAppend(xss[..i], [xss[i]]);
    FlattenAppend(xss[..i] + [xss[i] + [x]], xss[i + 1..]);
    FlattenAppend(xss[..i], [xss[i] + [x]]);
    assert Flatten([xss[i]]) == xss[i];
    assert Flatten([xss[i] + [x]]) == xss[i] + [x];
  }

  /** The lines of one page, in the order they were opened. */
  function GroupByY(items: seq<Item>): (r: seq<Group>)
    ensures KeysApart(r)
    ensures ItemsNearKey(r)
    ensures |r| <= |items|
    ensures |items| > 0 ==> |r| > 0
  {
    if |items| == 0 then []
    else
      var prev := GroupByY(items[..|items| - 1]);
      AddItemApart(prev, items[|items| - 1]);
      AddItemNear(prev, items[|items| - 1]);
      AddItem(prev, items[|items| - 1])
  }

  /** Every item of the page lands in exactly one line. */
  lemma {:induction false} GroupByYKeepsAll(items: seq<Item>)
    ensures multiset(Flatten(ItemLists(GroupByY(items)))) == multiset(items)
  {
    if |items| > 0 {
      var init, last := items[..|items| - 1], items[|items| - 1];
      assert multiset(items) == multiset(init) + multiset{last} by {
        assert items == init + [last];
        SnocMultiset(init, last);
      }
      var prev := GroupByY(init);
      assert GroupByY(items) == AddItem(prev, last);
      assert multiset(Flatten(ItemLists(prev))) == multiset(init) by {
        GroupByYKeepsAll(init);
      }
      AddItemKeepsAll(prev, last);
    }
  }

  lemma SnocMultiset<T>(s: seq<T>, x: T)
    ensures multiset(s + [x]) == multiset(s) + multiset{x}
  {
  }

  /** Items of one height form a single line holding all of them in arrival order. */
  lemma {:induction false} GroupByYSameHeight(items: seq<Item>, y: int)
    requires |items| > 0
    requires forall i :: 0 <= i < |items| ==> YKey(items[i].box) == y
    ensures GroupByY(items) == [Group(y, items)]
  {
    var init, last := items[..|items| - 1], items[|items| - 1];
    assert YKey(last.box) == y;
    assert GroupByY(items) == AddItem(GroupByY(init), last);
    if |init| == 0 {
      assert GroupByY(init) == [];
      assert [last] == items;
    } else {
      GroupByYSameHeight(init, y);
      var g := Group(y, init);
      assert Near(g.key, y);
      assert FirstIndex((h: Group) => Near(h.key, y), [g]) == Some(0);
      assert init + [last] == items;
    }
  }

  function At(text: string, x: real, y: real): Item
  {
    Item(Quad(Point(x, y), Point(x + 10.0, y), Point(x + 10.0, y), Point(x, y)), text)
  }

  /**
   An item joins the first opened line within reach, not the nearest one:
   at height 108 it joins the line keyed 100 although the line keyed 115 is
   closer.
   */
  lemma FirstLineWins()
    ensures GroupByY([At("a", 0.0, 100.0), At("b", 0.0, 115.0), At("c", 0.0, 108.0)])
         == [Group(100, [At("a", 0.0, 100.0), At("c", 0.0, 108.0)]), Group(115, [At("b", 0.0, 115.0)])]
  {
    var a, b, c := At("a", 0.0, 100.0), At("b", 0.0, 115.0), At("c", 0.0, 108.0);
    assert YKey(a.box) == 100 && YKey(b.box) == 115 && YKey(c.box) == 108;
    FirstLineWinsAt(a, b, c);
  }

  /** Heights 100, 115 and 108: the third item joins the first line, though it lies closer to the second. */
  lemma FirstLineWinsAt(a: Item, b: Item, c: Item)
    requires YKey(a.box) == 100 && YKey(b.box) == 115 && YKey(c.box) == 108
    ensures GroupByY([a, b, c]) == [Group(100, [a, c]), Group(115, [b])]
  {
    TwoLinesAt(a, b);
    GroupByYLast([a, b, c]);
    assert [a, b, c][..2] == [a, b];
    AddItemJoins([Group(100, [a]), Group(115, [b])], c, 0);
    assert [a] + [c] == [a, c];
  }

  lemma TwoLinesAt(a: Item, b: Item)
    requires YKey(a.box) == 100 && YKey(b.box) == 115
    ensures GroupByY([a, b]) == [Group(100, [a]), Group(115, [b])]
  {
    assert GroupByY([a]) == [Group(100, [a])] by {
      GroupByYLast([a]);
      assert [a][..0] == [];
      AddItemOpens([], a);
    }
    GroupByYLast([a, b]);
    assert [a, b][..1] == [a];
    AddItemOpens([Group(100, [a])], b);
  }

  lemma GroupByYLast(items: seq<Item>)
    requires |items| > 0
    ensures GroupByY(items) == AddItem(GroupByY(items[..|items| - 1]), items[|items| - 1])
  {
  }

  // ---------------------------------------------------------------------
  // Reading lines
  // ---------------------------------------------------------------------

  function KeyOrder(g: Group): real
  {
    g.key as real
  }

  /** The texts of the items, in order. */
  function ItemTexts(items: seq<Item>): (ts: seq<string>)
    ensures |ts| == |items|
    ensures forall i :: 0 <= i < |items| ==> ts[i] == items[i].text
  {
    seq(|items|, i requires 0 <= i < |items| => items[i].text)
  }

  /** The text of a line: its items left to right, joined with single spaces. */
  function LineText(g: Group): string
  {
    JoinSpace(ItemTexts(SortBy(g.items, MinX)))
  }

  /**
   When no item text holds whitespace, the words of a line are the texts of
   its items from left to right: every item once, in order of leftmost `x`.
   */
  lemma LineTextWords(g: Group)
    requires forall i :: 0 <= i < |g.items| ==> IsWord(g.items[i].text)
    ensures var sorted := SortBy(g.items, MinX);
      && Words(LineText(g)) == ItemTexts(sorted)
      && multiset(sorted) == multiset(g.items)
      && forall i, j :: 0 <= i < j < |sorted| ==> MinX(sorted[i]) <= MinX(sorted[j])
  {
    var sorted := SortBy(g.items, MinX);
    forall k | 0 <= k < |sorted| ensures IsWord(ItemTexts(sorted)[k]) {
      assert sorted[k] in multiset(g.items);
    }
    WordsOfJoin(ItemTexts(sorted));
  }

  /** The lines of one page, top to bottom. */
  function PageLines(items: seq<Item>): (r: seq<string>)
    ensures |r| == |GroupByY(items)| <= |items|
    ensures |items| > 0 ==> |r| > 0
  {
    var lines := SortBy(GroupByY(items), KeyOrder);
    seq(|lines|, k requires 0 <= k < |lines| => LineText(lines[k]))
  }

  /** The page's lines come out in strictly rising key order, at least `LineGap` apart. */
  lemma PageLinesOrder(items: seq<Item>)
    ensures var lines := SortBy(GroupByY(items), KeyOrder);
      forall i, j :: 0 <= i < j < |lines| ==> lines[i].key + LineGap <= lines[j].key
  {
    var groups := GroupByY(items);
    var lines := SortBy(groups, KeyOrder);
    forall i, j | 0 <= i < j < |lines| ensures lines[i].key + LineGap <= lines[j].key {
      assert KeyOrder(lines[i]) <= KeyOrder(lines[j]);
      ReorderedApart(groups, lines, i, j);
    }
  }

  /** Two positions of a reordering of lines with keys apart hold keys apart. */
  lemma ReorderedApart(groups: seq<Group>, lines: seq<Group>, i: int, j: int)
    requires KeysApart(groups) && multiset(lines) == multiset(groups)
    requires 0 <= i < j < |lines|
    ensures !Near(lines[i].key, lines[j].key)
  {
    assert lines[i] != lines[j] by {
      ApartOnce(groups);
      TwoPositions(lines, i, j);
    }
    assert lines[i] in multiset(groups) && lines[j] in multiset(groups);
    var a :| 0 <= a < |groups| && groups[a] == lines[i];
    var b :| 0 <= b < |groups| && groups[b] == lines[j];
    if a < b {
      assert !Near(groups[a].key, groups[b].key);
    } else {
      assert !Near(groups[b].key, groups[a].key);
    }
  }

  /** Lines with keys apart are distinct: each occurs once. */
  lemma {:induction false} ApartOnce(groups: seq<Group>)
    requires KeysApart(groups)
    ensures forall g :: multiset(groups)[g] <= 1
  {
    if |groups| > 0 {
      var rest := groups[1..];
      assert KeysApart(rest) by {
        assert forall i :: 0 <= i < |rest| ==> rest[i] == groups[i + 1];
      }
      ApartOnce(rest);
      assert forall b :: 0 <= b < |rest| ==> rest[b].key != groups[0].key by {
        forall b | 0 <= b < |rest| ensures rest[b].key != groups[0].key {
          assert !Near(groups[0].key, groups[b + 1].key);
        }
      }
      assert groups[0] !in rest;
      assert groups == [groups[0]] + rest;
    }
  }

  /** Two positions holding the same value make it occur twice. */
  lemma TwoPositions<T>(s: seq<T>, i: int, j: int)
    requires 0 <= i < j < |s|
    ensures multiset(s)[s[i]] >= 1 + (if s[j] == s[i] then 1 else 0)
  {
    assert s == s[..j] + [s[j]] + s[j + 1..];
    assert s[..j][i] == s[i];
    assert s[i] in multiset(s[..j]);
  }

  /** The lines of every page, page after page. */
  function AllLines(pages: seq<seq<Item>>): seq<string>
  {
    Flatten(seq(|pages|, p requires 0 <= p < |pages| => PageLines(pages[p])))
  }

  // ---------------------------------------------------------------------
  // Splitting a line into fields (re.split(r"\s{2,}", line))
  // ---------------------------------------------------------------------

  /** Two whitespace characters stand at `i` and `i + 1`. */
  predicate GapAt(s: string, i: int)
  {
    0 <= i && i + 1 < |s| && IsSpace(s[i]) && IsSpace(s[i + 1])
  }

  /** Where the first run of two or more whitespace characters starts. */
  function FirstGap(s: string): (r: Option<nat>)
    ensures r.None? ==> forall i :: 0 <= i < |s| ==> !GapAt(s, i)
    ensures r.Some? ==> GapAt(s, r.value) && forall i :: 0 <= i < r.value ==> !GapAt(s, i)
  {
    if |s| < 2 then None
    else if IsSpace(s[0]) && IsSpace(s[1]) then Some(0)
    else
      assert forall i :: 1 <= i < |s| ==> (GapAt(s, i) <==> GapAt(s[1..], i - 1));
      match FirstGap(s[1..])
      case None => None
      case Some(p) => Some(p + 1)
  }

  /** Stripping `n` leading whitespace characters removes at least `n`. */
  lemma TrimStartPast(s: string, n: nat)
    requires n <= |s|
    requires forall i :: 0 <= i < n ==> IsSpace(s[i])
    ensures |TrimStart(s)| <= |s| - n
  {
    var r := TrimStart(s);
    if |r| > 0 {
      assert r[0] == s[|s| - |r|];
    }
  }

  /**
   The fields of a line: the text before the first run of two or more
   whitespace characters, then the fields of what follows the run.
   */
  function SplitWide(s: string): (r: seq<string>)
    ensures |r| >= 1
    ensures |r| > 1 <==> exists i :: GapAt(s, i)
    ensures forall k, i :: 0 <= k < |r| ==> !GapAt(r[k], i)
    decreases |s|
  {
    match FirstGap(s)
    case None => [s]
    case Some(p) =>
      TrimStartPast(s[p..], 2);
      var first := s[..p];
      assert forall i :: !GapAt(first, i) by {
        forall i ensures !GapAt(first, i) {
          if GapAt(first, i) {
            assert GapAt(s, i);
          }
        }
      }
      [first] + SplitWide(TrimStart(s[p..]))
  }

  /** The fields joined back with two spaces between them. */
  function JoinWide(fields: seq<string>): string
  {
    if |fields| == 0 then ""
    else if |fields| == 1 then fields[0]
    else fields[0] + "  " + JoinWide(fields[1..])
  }

  /** A field the splitter can produce in the middle of a line. */
  predicate IsField(f: string)
  {
    |f| > 0 && !IsSpace(f[0]) && !IsSpace(f[|f| - 1]) && forall i :: 0 <= i < |f| ==> !GapAt(f, i)
  }

  /** A field, two spaces and a text starting with a non-space: the field is the first part. */
  lemma FirstGapAfterField(f: string, t: string)
    requires IsField(f) && |t| > 0 && !IsSpace(t[0])
    ensures FirstGap(f + "  " + t) == Some(|f|)
  {
    var s := f + "  " + t;
    assert GapAt(s, |f|) by {
      assert s[|f|] == ' ' && s[|f| + 1] == ' ';
    }
    forall i | 0 <= i < |f| ensures !GapAt(s, i) {
      NoGapInField(f, t, i);
    }
  }

  /** No gap starts inside a field, whatever follows it. */
  lemma NoGapInField(f: string, t: string, i: int)
    requires IsField(f) && 0 <= i < |f|
    ensures !GapAt(f + "  " + t, i)
  {
    var s := f + "  " + t;
    assert s[i] == f[i];
    if i + 1 < |f| {
      assert s[i + 1] == f[i + 1];
      assert !GapAt(f, i);
    }
  }

  lemma SplitWideAfterField(f: string, t: string)
    requires IsField(f) && |t| > 0 && !IsSpace(t[0])
    ensures SplitWide(f + "  " + t) == [f] + SplitWide(t)
  {
    var s := f + "  " + t;
    assert s[..|f|] == f;
    assert TrimStart(s[|f|..]) == t by {
      assert s[|f|..] == "  " + t;
      TrimStartSpaces("  ", t);
    }
    assert FirstGap(s) == Some(|f|) by {
      FirstGapAfterField(f, t);
    }
    assert SplitWide(s) == [s[..|f|]] + SplitWide(TrimStart(s[|f|..]));
  }

  lemma {:induction false} JoinWideStart(fields: seq<string>)
    requires |fields| > 0 && |fields[0]| > 0
    ensures |JoinWide(fields)| > 0 && JoinWide(fields)[0] == fields[0][0]
  {
    if |fields| > 1 {
      assert JoinWide(fields) == fields[0] + "  " + JoinWide(fields[1..]);
    }
  }

  /** Splitting undoes joining with two spaces. */
  lemma {:induction false} SplitJoinWide(fields: seq<string>)
    requires |fields| > 0
    requires forall k :: 0 <= k < |fields| ==> IsField(fields[k])
    ensures SplitWide(JoinWide(fields)) == fields
  {
    if |fields| == 1 {
      assert FirstGap(fields[0]) == None;
    } else {
      SplitJoinWide(fields[1..]);
      SplitJoinWideStep(fields);
    }
  }

  /** One more leading field: if the tail splits back, so does the whole. */
  lemma SplitJoinWideStep(fields: seq<string>)
    requires |fields| > 1
    requires IsField(fields[0]) && IsField(fields[1])
    requires SplitWide(JoinWide(fields[1..])) == fields[1..]
    ensures SplitWide(JoinWide(fields)) == fields
  {
    var f, rest := fields[0], fields[1..];
    assert JoinWide(fields) == f + "  " + JoinWide(rest);
    assert |JoinWide(rest)| > 0 && !IsSpace(JoinWide(rest)[0]) by {
      JoinWideStart(rest);
    }
    SplitWideAfterField(f, JoinWide(rest));
    assert fields == [f] + rest;
  }

  lemma SplitWideExample()
    ensures SplitWide("12 tháng  5,80%") == ["12 tháng", "5,80%"]
  {
    var a, b := "12 tháng", "5,80%";
    assert IsField(a) by {
      assert forall i :: 0 <= i < |a| ==> !GapAt(a, i);
    }
    assert IsField(b);
    assert JoinWide([a, b]) == a + "  " + JoinWide([b]);
    assert a + "  " + b == "12 tháng  5,80%";
    SplitJoinWide([a, b]);
  }

  // ---------------------------------------------------------------------
  // The collection window
  // ---------------------------------------------------------------------

  const StartMarker: string := "không kỳ hạn"
  const EndMarker: string := "60 tháng"

  predicate IsStart(line: string)
  {
    Contains(Lower(line), StartMarker)
  }

  predicate IsEnd(line: string)
  {
    Contains(Lower(line), EndMarker)
  }

  /**
   The collection loop: collecting switches on at the first start line,
   every collected line that splits into more than one field becomes a
   row, and the loop stops after the first end line met while collecting.
   */
  function Collect(lines: seq<string>, collecting: bool): (rows: seq<seq<string>>)
    ensures forall k :: 0 <= k < |rows| ==> |rows[k]| > 1
  {
    if |lines| == 0 then []
    else
      var c := collecting || IsStart(lines[0]);
      var row := SplitWide(lines[0]);
      var out := if c && |row| > 1 then [row] else [];
      if c && IsEnd(lines[0]) then out else out + Collect(lines[1..], c)
  }

  /**
   The table rows of the whole document: the lines from the first start
   line through the first end line after it, each split into fields, kept
   when it has more than one field.
   */
  function ExtractRows(pages: seq<seq<Item>>): (rows: seq<seq<string>>)
    ensures rows == WideRows(Window(AllLines(pages)))
    ensures forall k :: 0 <= k < |rows| ==> |rows[k]| > 1
  {
    CollectIsWindow(AllLines(pages));
    Collect(AllLines(pages), false)
  }

  /** Reference: the lines up to and including the first end line, or all of them. */
  function UntilEnd(lines: seq<string>): (w: seq<string>)
  {
    match FirstIndex(IsEnd, lines)
    case None => lines
    case Some(b) => lines[..b + 1]
  }

  /** Reference: the lines from the first start line through the first end line at or after it. */
  function Window(lines: seq<string>): (w: seq<string>)
  {
    match FirstIndex(IsStart, lines)
    case None => []
    case Some(a) => UntilEnd(lines[a..])
  }

  /** Reference: the fields of every line that has more than one. */
  function WideRows(lines: seq<string>): (rows: seq<seq<string>>)
    ensures |rows| <= |lines|
  {
    if |lines| == 0 then []
    else (if |SplitWide(lines[0])| > 1 then [SplitWide(lines[0])] else []) + WideRows(lines[1..])
  }

  lemma UntilEndStep(lines: seq<string>)
    requires |lines| > 0
    ensures UntilEnd(lines) == if IsEnd(lines[0]) then [lines[0]] else [lines[0]] + UntilEnd(lines[1..])
  {
    if !IsEnd(lines[0]) {
      match FirstIndex(IsEnd, lines[1..])
      case None =>
        assert FirstIndex(IsEnd, lines) == None;
      case Some(b) =>
        assert FirstIndex(IsEnd, lines) == Some(b + 1);
        assert lines[..b + 2] == [lines[0]] + lines[1..][..b + 1];
    }
  }

  lemma WideRowsCons(x: string, t: seq<string>)
    ensures WideRows([x] + t) == (if |SplitWide(x)| > 1 then [SplitWide(x)] else []) + WideRows(t)
  {
    assert ([x] + t)[1..] == t;
  }

  lemma {:induction false} CollectingUntilEnd(lines: seq<string>)
    ensures Collect(lines, true) == WideRows(UntilEnd(lines))
  {
    if |lines| > 0 {
      UntilEndStep(lines);
      if IsEnd(lines[0]) {
        WideRowsCons(lines[0], []);
      } else {
        CollectingUntilEnd(lines[1..]);
        WideRowsCons(lines[0], UntilEnd(lines[1..]));
      }
    }
  }

  /** The collected rows are exactly the wide lines of the window. */
  lemma {:induction false} CollectIsWindow(lines: seq<string>)
    ensures Collect(lines, false) == WideRows(Window(lines))
  {
    if |lines| > 0 {
      if IsStart(lines[0]) {
        assert Collect(lines, false) == Collect(lines, true);
        WindowAtStart(lines);
        CollectingUntilEnd(lines);
      } else {
        assert Collect(lines, false) == Collect(lines[1..], false);
        WindowSkip(lines);
        CollectIsWindow(lines[1..]);
      }
    }
  }

  lemma WindowAtStart(lines: seq<string>)
    requires |lines| > 0 && IsStart(lines[0])
    ensures Window(lines) == UntilEnd(lines)
  {
    assert FirstIndex(IsStart, lines) == Some(0);
    assert lines[0..] == lines;
  }

  lemma WindowSkip(lines: seq<string>)
    requires |lines| > 0 && !IsStart(lines[0])
    ensures Window(lines) == Window(lines[1..])
  {
    match FirstIndex(IsStart, lines[1..])
    case None =>
      assert FirstIndex(IsStart, lines) == None;
    case Some(a) =>
      assert FirstIndex(IsStart, lines) == Some(a + 1);
      assert lines[a + 1..] == lines[1..][a..];
  }

  /** A document without a start line yields no rows. */
  lemma NoStartNoRows(pages: seq<seq<Item>>)
    requires forall i :: 0 <= i < |AllLines(pages)| ==> !IsStart(AllLines(pages)[i])
    ensures ExtractRows(pages) == []
  {
    CollectIsWindow(AllLines(pages));
  }
}
