/**
 The reader of the State Bank's statistical report tables
 (extract_sbv_html.py). A row of five or more cells is decided by its first
 non-empty cell that is marked either as a main section (grey background)
 or as an indented item (a `padding-left` in pixels). A main section resets
 the six-level group stack to its caption. An indented item with a value
 writes its caption at the level its indentation maps to and clears the
 deeper levels. Every decided row that has a value yields one record of
 the stack and the value.

 A cell is given as its stripped text and its `style` attribute (empty
 when absent); `None` stands for a page without the report table.
 */
module SbvResolver {
  import opened Collections
  import opened Text
  import opened Records

  datatype Cell = Cell(text: string, style: string)

  /** The page has no table of class `jrPage`: the reader fails on it. */
  datatype SbvError = NoReportTable

  const Depth: nat := 6
  const MainMarker: string := "background-color: #E7E8E9"
  const PaddingMarker: string := "padding-left:"

  // ---------------------------------------------------------------------
  // Labels and values
  // ---------------------------------------------------------------------

  /**
   A caption longer than three characters whose second and third characters
   are a point and a blank, as in "A. Tổng". The first character may be
   anything: a letter, a digit or a symbol.
   */
  predicate HasSectionPrefix(text: string)
  {
    |text| > 3 && text[1] == '.' && text[2] == ' '
  }

  /** A caption without its three-character prefix: "A. Tổng" becomes "Tổng". */
  function StripPrefix(text: string): (r: string)
    ensures HasSectionPrefix(text) ==> |r| == |text| - 3
    ensures !HasSectionPrefix(text) ==> |r| == |text|
    ensures text != "" ==> r != ""
  {
    if HasSectionPrefix(text) then text[3..] else text
  }

  /** What is stripped is a prefix of the caption: any character, the point and the blank. */
  lemma StripPrefixSuffix(text: string)
    ensures var r := StripPrefix(text);
      |r| <= |text| && text == text[..|text| - |r|] + r
    ensures HasSectionPrefix(text) ==> text[..3] == [text[0], '.', ' ']
  {
    var r := StripPrefix(text);
    assert text == text[..|text| - |r|] + text[|text| - |r|..];
  }

  /** Index of the first `c` in `s`, or `|s|` when there is none. */
  function Position(s: string, c: char): (p: nat)
    ensures p <= |s|
    ensures p < |s| <==> c in s
    ensures p < |s| ==> s[p] == c
    ensures c !in s[..p]
  {
    if |s| == 0 || s[0] == c then 0
    else
      var p := 1 + Position(s[1..], c);
      assert s[..p] == [s[0]] + s[1..][..p - 1];
      p
  }

  /** `s` without the first occurrence of `c` (Python's `s.replace(c, '', 1)`). */
  function RemoveFirst(s: string, c: char): (r: string)
    ensures c !in s ==> r == s
    ensures multiset(r) + (if c in s then multiset{c} else multiset{}) == multiset(s)
    ensures |r| == if c in s then |s| - 1 else |s|
    ensures c in s ==> r[..Position(s, c)] == s[..Position(s, c)]
    ensures c in s ==> r[Position(s, c)..] == s[Position(s, c) + 1..]
  {
    var p := Position(s, c);
    if p == |s| then s
    else
      assert s == s[..p] + [s[p]] + s[p + 1..];
      s[..p] + s[p + 1..]
  }

  /** The test "is not `c`", as a predicate to filter with. */
  function Unlike(c: char): char -> bool
  {
    x => x != c
  }

  /** `s` without any `c` (Python's `s.replace(c, '')`): the other characters, in order. */
  function RemoveAll(s: string, c: char): (r: string)
    ensures c !in r
    ensures forall x :: x != c ==> multiset(r)[x] == multiset(s)[x]
    ensures r == Filter(Unlike(c), s)
  {
    if |s| == 0 then s
    else
      assert s == [s[0]] + s[1..];
      (if s[0] == c then [] else [s[0]]) + RemoveAll(s[1..], c)
  }

  /** The text the value check looks at: first point, then first minus, then every comma removed. */
  function Digitable(t: string): string
  {
    RemoveAll(RemoveFirst(RemoveFirst(t, '.'), '-'), ',')
  }

  /** Python's `str.isdigit`: non-empty and digits only. */
  predicate IsDigits(s: string)
  {
    |s| > 0 && AllDigits(s)
  }

  predicate IsNull(t: string)
  {
    UpperAscii(t) == "NULL"
  }

  /** A cell text the reader accepts as a value. */
  predicate IsValueText(t: string)
  {
    t != "" && (IsDigits(Digitable(t)) || IsNull(t))
  }

  /** The stored value: the text itself, or "NULL" for any spelling of null. */
  function NormalizeValue(t: string): (v: string)
    ensures IsNull(t) ==> v == "NULL"
    ensures !IsNull(t) ==> v == t
  {
    if IsNull(t) then "NULL" else t
  }

  /** Normalising keeps exactly the values, and a normalised value is stable. */
  lemma NormalizeValueStable(t: string)
    ensures IsValueText(NormalizeValue(t)) <==> IsValueText(t)
    ensures NormalizeValue(NormalizeValue(t)) == NormalizeValue(t)
    ensures IsNull(NormalizeValue(t)) <==> IsNull(t)
  {
    assert UpperAscii("NULL") == "NULL";
    if IsNull(t) {
      assert t != "";
    }
  }

  lemma {:induction false} RemoveAllAbsent(s: string, c: char)
    requires c !in s
    ensures RemoveAll(s, c) == s
  {
    if |s| > 0 {
      RemoveAllAbsent(s[1..], c);
      assert s == [s[0]] + s[1..];
    }
  }

  /** A text that starts with a digit is no spelling of null. */
  lemma DigitFirstNotNull(t: string)
    requires |t| > 0 && IsDigit(t[0])
    ensures !IsNull(t)
  {
    assert UpperAscii(t)[0] == t[0];
  }

  /** A plain run of digits is a value, stored as it is. */
  lemma DigitsAreValues(t: string)
    requires t != "" && AllDigits(t)
    ensures IsValueText(t) && NormalizeValue(t) == t
  {
    assert Digitable(t) == t by {
      assert '.' !in t && '-' !in t && ',' !in t;
      RemoveAllAbsent(t, ',');
    }
    DigitFirstNotNull(t);
  }

  /** The first `c` in `a + [c] + b` is the one after `a` when `a` has none. */
  lemma {:induction false} PositionAfter(a: string, c: char, b: string)
    requires c !in a
    ensures Position(a + [c] + b, c) == |a|
  {
    var t := a + [c] + b;
    if |a| > 0 {
      assert t[0] == a[0] && t[1..] == a[1..] + [c] + b;
      PositionAfter(a[1..], c, b);
    } else {
      assert t[0] == c;
    }
  }

  /**
   Digits, one minus sign, digits: accepted as a value although it is no
   number, because the check deletes the first minus wherever it stands.
   */
  lemma MinusInsideAccepted(a: string, b: string)
    requires a != "" && b != "" && AllDigits(a) && AllDigits(b)
    ensures IsValueText(a + "-" + b) && NormalizeValue(a + "-" + b) == a + "-" + b
  {
    var t := a + "-" + b;
    assert RemoveFirst(t, '.') == t by {
      assert '.' !in t;
    }
    assert RemoveFirst(t, '-') == a + b by {
      PositionAfter(a, '-', b);
      assert t[..|a|] == a && t[|a| + 1..] == b;
    }
    assert Digitable(t) == a + b by {
      assert ',' !in a + b;
      RemoveAllAbsent(a + b, ',');
    }
    assert IsDigits(a + b);
    DigitFirstNotNull(t);
  }

  /** A text holding a point is no spelling of null. */
  lemma PointNotNull(t: string)
    requires '.' in t
    ensures !IsNull(t)
  {
    var j :| 0 <= j < |t| && t[j] == '.';
    assert UpperAscii(t)[j] == '.';
    assert '.' !in "NULL";
  }

  /** A point the first deletion leaves behind survives into the digit check. */
  lemma PointSurvives(t: string)
    requires multiset(t)['.'] >= 2
    ensures '.' in Digitable(t)
  {
    var r1 := RemoveFirst(t, '.');
    assert multiset(r1)['.'] >= 1;
    var r2 := RemoveFirst(r1, '-');
    assert multiset(r2)['.'] == multiset(r1)['.'];
    assert multiset(RemoveAll(r2, ','))['.'] == multiset(r2)['.'];
  }

  /** A text with two points is never a value: the check deletes only the first. */
  lemma TwoPointsRejected(t: string)
    requires multiset(t)['.'] >= 2
    ensures !IsValueText(t)
  {
    PointSurvives(t);
    var d := Digitable(t);
    var i :| 0 <= i < |d| && d[i] == '.';
    assert !IsDigit(d[i]);
    PointNotNull(t);
  }

  /** Cell `j` is the first value cell at or after `from`, and `v` is its stored form. */
  predicate FirstValueAt(cells: seq<Cell>, from: nat, j: int, v: string)
  {
    && from <= j < |cells| && IsValueText(cells[j].text) && v == NormalizeValue(cells[j].text)
    && forall i :: from <= i < j ==> !IsValueText(cells[i].text)
  }

  /** The first value at or after cell `from`, normalised. */
  function ValueFrom(cells: seq<Cell>, from: nat): (r: Option<string>)
    ensures r.Some? ==> exists j :: FirstValueAt(cells, from, j, r.value)
    ensures r.None? <==> forall j :: from <= j < |cells| ==> !IsValueText(cells[j].text)
    decreases |cells| - from
  {
    if from >= |cells| then None
    else if IsValueText(cells[from].text) then
      assert FirstValueAt(cells, from, from, NormalizeValue(cells[from].text));
      Some(NormalizeValue(cells[from].text))
    else
      var r := ValueFrom(cells, from + 1);
      if r.Some? then
        FirstValueBack(cells, from, from + 1, r.value);
        r
      else r
  }

  /** A first value after a non-value cell is also the first value from that cell on. */
  lemma FirstValueBack(cells: seq<Cell>, from: nat, next: nat, v: string)
    requires from < |cells| && !IsValueText(cells[from].text) && next == from + 1
    requires exists j :: FirstValueAt(cells, next, j, v)
    ensures exists j :: FirstValueAt(cells, from, j, v)
  {
    var j :| FirstValueAt(cells, next, j, v);
    forall i | from <= i < j ensures !IsValueText(cells[i].text) {
      if i > from {
        assert next <= i < j;
      }
    }
    assert FirstValueAt(cells, from, j, v);
  }

  // ---------------------------------------------------------------------
  // Indentation: re.search(r'padding-left:\s*(\d+)px', style)
  // ---------------------------------------------------------------------

  /** What follows the literal `padding-left:`: blanks, then digits, then `px`. */
  function PixelsAfter(rest: string): Option<nat>
  {
    var t := TrimStart(rest);
    var n := LeadingDigits(t);
    if n >= 1 && StartsWith(t[n..], "px") then Some(DecimalValue(t[..n])) else None
  }

  /** The indentation pattern matches at position `p` of the style. */
  predicate MatchesAt(style: string, p: nat)
    requires p <= |style|
  {
    StartsWith(style[p..], PaddingMarker) && PixelsAfter(style[p + |PaddingMarker|..]).Some?
  }

  /** The leftmost match at or after position `p`, as `re.search` finds it. */
  function MatchFrom(style: string, p: nat): (q: Option<nat>)
    requires p <= |style|
    ensures q.Some? ==> p <= q.value <= |style| && MatchesAt(style, q.value)
    ensures q.Some? ==> forall k :: p <= k < q.value ==> !MatchesAt(style, k)
    ensures q.None? <==> forall k :: p <= k <= |style| ==> !MatchesAt(style, k)
    decreases |style| - p
  {
    if MatchesAt(style, p) then Some(p)
    else if p == |style| then None
    else MatchFrom(style, p + 1)
  }

  /** `sub` starting at position `q` of `s` makes `s` contain it. */
  lemma {:induction false} ContainsAt(s: string, sub: string, q: nat)
    requires q <= |s| && StartsWith(s[q..], sub)
    ensures Contains(s, sub)
    decreases q
  {
    if q > 0 {
      assert s[1..][q - 1..] == s[q..];
      ContainsAt(s[1..], sub, q - 1);
    } else {
      assert s[0..] == s;
    }
  }

  /** The pixel count of `re.search(r'padding-left:\s*(\d+)px', style)`. */
  function PaddingPixels(style: string): (r: Option<nat>)
    ensures r.Some? ==> Contains(style, PaddingMarker)
  {
    match MatchFrom(style, 0)
    case None => None
    case Some(q) =>
      ContainsAt(style, PaddingMarker, q);
      PixelsAfter(style[q + |PaddingMarker|..])
  }

  /** The group level an indentation writes: 0 means none. */
  function Level(pixels: nat): (level: nat)
    ensures level < Depth - 1
    ensures level > 0 <==> pixels in {20, 57, 90, 125, 160}
    ensures pixels == 20 || pixels == 57 ==> level == 1
    ensures pixels == 90 ==> level == 2
    ensures pixels == 125 ==> level == 3
    ensures pixels == 160 ==> level == 4
  {
    if pixels == 20 || pixels == 57 then 1
    else if pixels == 90 then 2
    else if pixels == 125 then 3
    else if pixels == 160 then 4
    else 0
  }

  /** A deeper indentation never writes a shallower level. */
  lemma LevelMonotone(p: nat, q: nat)
    requires p in {20, 57, 90, 125, 160} && q in {20, 57, 90, 125, 160}
    requires p <= q
    ensures Level(p) <= Level(q)
  {
  }

  /** The indentation style for `n` pixels, with any number of blanks after the colon. */
  function PaddingStyle(blanks: nat, n: nat): string
  {
    PaddingMarker + Repeat(' ', blanks) + NatToString(n) + "px"
  }

  lemma PixelsAfterParts(x: string, u: string, d: string, n: nat)
    requires TrimStart(x) == u && 1 <= |d| <= |u| && LeadingDigits(u) == |d|
    requires StartsWith(u[|d|..], "px") && u[..|d|] == d && DecimalValue(d) == n
    ensures PixelsAfter(x) == Some(n)
  {
  }

  lemma BlanksBeforeNumber(blanks: nat, n: nat, rest: string)
    ensures TrimStart(Repeat(' ', blanks) + (NatToString(n) + "px" + rest)) == NatToString(n) + "px" + rest
  {
    var u := NatToString(n) + "px" + rest;
    assert u[0] == NatToString(n)[0];
    TrimStartSpaces(Repeat(' ', blanks), u);
  }

  lemma DigitsBeforePx(n: nat, rest: string)
    ensures var d := NatToString(n);
      var u := d + "px" + rest;
      && LeadingDigits(u) == |d|
      && StartsWith(u[|d|..], "px") && u[..|d|] == d
  {
    var d := NatToString(n);
    var u := d + "px" + rest;
    assert u == d + ("px" + rest);
    LeadingDigitsOf(d, "px" + rest);
    assert u[|d|..] == "px" + rest;
  }

  /** Blanks, the decimal digits of `n`, then `px`: the text after the literal reads as `n`. */
  lemma PixelsAfterDigits(blanks: nat, n: nat, rest: string)
    ensures PixelsAfter(Repeat(' ', blanks) + (NatToString(n) + "px" + rest)) == Some(n)
  {
    BlanksBeforeNumber(blanks, n, rest);
    DigitsBeforePx(n, rest);
    DecimalNatToString(n);
    PixelsAfterParts(Repeat(' ', blanks) + (NatToString(n) + "px" + rest), NatToString(n) + "px" + rest, NatToString(n), n);
  }

  /** `re.search` reads back the pixel count of an indentation style, whatever follows it. */
  lemma PaddingStyleRead(blanks: nat, n: nat, rest: string)
    ensures PaddingPixels(PaddingStyle(blanks, n) + rest) == Some(n)
  {
    var style := PaddingStyle(blanks, n) + rest;
    var after := Repeat(' ', blanks) + (NatToString(n) + "px" + rest);
    assert style[..|PaddingMarker|] == PaddingMarker && style[|PaddingMarker|..] == after by {
      assert style == PaddingMarker + after;
    }
    assert PixelsAfter(after) == Some(n) by {
      PixelsAfterDigits(blanks, n, rest);
    }
    MatchAtStart(style);
  }

  /** A style the pattern matches at its very start reads the pixels right after the literal. */
  lemma MatchAtStart(style: string)
    requires StartsWith(style, PaddingMarker) && PixelsAfter(style[|PaddingMarker|..]).Some?
    ensures PaddingPixels(style) == PixelsAfter(style[|PaddingMarker|..])
  {
    assert style[0..] == style;
    assert MatchesAt(style, 0);
  }

  /** A string shorter than `sub` does not contain it. */
  lemma {:induction false} ShorterContainsNot(s: string, sub: string)
    requires |s| < |sub|
    ensures !Contains(s, sub)
  {
    if |s| > 0 {
      ShorterContainsNot(s[1..], sub);
    }
  }

  // ---------------------------------------------------------------------
  // One row
  // ---------------------------------------------------------------------

  /** The cell is on the grey background of a main section. */
  predicate Grey(c: Cell)
  {
    Contains(c.style, MainMarker)
  }

  /** What one cell says about its row. */
  datatype CellKind =
    | MainCell
    | IndentCell(pixels: nat)
    | Passed

  /**
   A non-empty cell on grey background opens a main section; otherwise a
   non-empty cell whose style has a matching indentation is an item; any
   other cell, including one that names `padding-left:` without a pixel
   count, leaves the scan going.
   */
  function Classify(c: Cell): (k: CellKind)
    ensures c.text == "" ==> k.Passed?
    ensures k.MainCell? ==> Grey(c)
    ensures k.IndentCell? ==> !Grey(c) && PaddingPixels(c.style).Some?
    ensures k.Passed? ==> c.text == "" || (!Grey(c) && PaddingPixels(c.style).None?)
    ensures k.IndentCell? ==> k.pixels == PaddingPixels(c.style).value
  {
    if c.text == "" then Passed
    else if Grey(c) then MainCell
    else if Contains(c.style, PaddingMarker) then
      match PaddingPixels(c.style)
      case Some(px) => IndentCell(px)
      case None => Passed
    else Passed
  }

  /** The cell that decides a row, and what it says. */
  datatype Decision =
    | Main(index: nat, text: string)
    | Indented(index: nat, pixels: nat, text: string)
    | Undecided

  /** The scan over the cells from `i` on: the first cell that is not passed over. */
  function Decide(cells: seq<Cell>, i: nat): (d: Decision)
    ensures d.Undecided? <==> forall j :: i <= j < |cells| ==> Classify(cells[j]).Passed?
    ensures !d.Undecided? ==> i <= d.index < |cells| && forall j :: i <= j < d.index ==> Classify(cells[j]).Passed?
    ensures !d.Undecided? ==> d.text == cells[d.index].text
    ensures d.Main? ==> Classify(cells[d.index]) == MainCell
    ensures d.Indented? ==> Classify(cells[d.index]) == IndentCell(d.pixels)
    decreases |cells| - i
  {
    if i >= |cells| then Undecided
    else
      var k := Classify(cells[i]);
      if k.MainCell? then Main(i, cells[i].text)
      else if k.IndentCell? then Indented(i, k.pixels, cells[i].text)
      else Decide(cells, i + 1)
  }

  /** The stack with `caption` at `level` and every deeper level cleared. */
  function SetLevel(stack: seq<string>, level: nat, caption: string): (r: seq<string>)
    requires level < |stack|
    ensures |r| == |stack|
    ensures forall k :: 0 <= k < level ==> r[k] == stack[k]
    ensures r[level] == caption
    ensures forall k :: level < k < |stack| ==> r[k] == ""
  {
    stack[..level] + [caption] + Repeat("", |stack| - level - 1)
  }

  /** A stack of the reader: six levels, the last one never written. */
  predicate IsStack(stack: seq<string>)
  {
    |stack| == Depth && stack[Depth - 1] == ""
  }

  /** The value of a decided row: the first value after its deciding cell. */
  function RowValue(cells: seq<Cell>, d: Decision): Option<string>
  {
    if d.Undecided? then None else ValueFrom(cells, d.index + 1)
  }

  /**
   The effect of a decided row on the stack, and the record it yields. A
   record comes exactly from a decided row with a value, and carries the
   stack as it is after the row. A main section resets the stack to its
   caption even without a value. An item with a value writes its caption
   at its level and clears the deeper levels; without a value, or at
   level 0, the stack stays.
   */
  function Step(stack: seq<string>, d: Decision, v: Option<string>): (r: (seq<string>, Option<Record>))
    requires IsStack(stack)
    ensures IsStack(r.0)
    ensures r.1.Some? <==> !d.Undecided? && v.Some?
    ensures r.1.Some? ==> r.1.value == Record(r.0, v.value)
    ensures d.Undecided? ==> r.0 == stack
    ensures d.Main? ==> r.0[0] == StripPrefix(d.text) && forall k :: 0 < k < Depth ==> r.0[k] == ""
    ensures d.Indented? && (v.None? || Level(d.pixels) == 0) ==> r.0 == stack
    ensures d.Indented? && v.Some? && Level(d.pixels) > 0 ==>
      && (forall k :: 0 <= k < Level(d.pixels) ==> r.0[k] == stack[k])
      && r.0[Level(d.pixels)] == d.text
      && (forall k :: Level(d.pixels) < k < Depth ==> r.0[k] == "")
  {
    if d.Undecided? then (stack, None)
    else if d.Main? then
      var s := [StripPrefix(d.text)] + Repeat("", Depth - 1);
      (s, if v.Some? then Some(Record(s, v.value)) else None)
    else if v.None? then (stack, None)
    else
      var level := Level(d.pixels);
      var s := if level > 0 then SetLevel(stack, level, d.text) else stack;
      (s, Some(Record(s, v.value)))
  }

  /** What a row says: its decision and the value after its deciding cell. */
  type Reading = (Decision, Option<string>)

  /** What a row says: rows of fewer than five cells say nothing. */
  function ReadRow(cells: seq<Cell>): (r: Reading)
    ensures |cells| < 5 ==> r == (Undecided, None)
    ensures r.1.Some? ==> !r.0.Undecided?
  {
    if |cells| < 5 then (Undecided, None)
    else
      var d := Decide(cells, 0);
      (d, RowValue(cells, d))
  }

  /** The records of the rows as read, from a given stack. */
  function Apply(readings: seq<Reading>, stack: seq<string>): (records: seq<Record>)
    requires IsStack(stack)
    ensures |records| <= |readings|
    ensures forall k :: 0 <= k < |records| ==> IsStack(records[k].groups)
  {
    if |readings| == 0 then []
    else
      var step := Step(stack, readings[0].0, readings[0].1);
      (if step.1.Some? then [step.1.value] else []) + Apply(readings[1..], step.0)
  }

  /** The stack after all the rows as read. */
  function FinalStack(readings: seq<Reading>, stack: seq<string>): (r: seq<string>)
    requires IsStack(stack)
    ensures IsStack(r)
  {
    if |readings| == 0 then stack else FinalStack(readings[1..], Step(stack, readings[0].0, readings[0].1).0)
  }

  /** Reading in two parts, the second from the stack the first leaves, reads the whole. */
  lemma {:induction false} ApplyAppend(xs: seq<Reading>, ys: seq<Reading>, stack: seq<string>)
    requires IsStack(stack)
    ensures Apply(xs + ys, stack) == Apply(xs, stack) + Apply(ys, FinalStack(xs, stack))
  {
    if |xs| == 0 {
      assert xs + ys == ys;
    } else {
      var step := Step(stack, xs[0].0, xs[0].1);
      assert (xs + ys)[0] == xs[0] && (xs + ys)[1..] == xs[1..] + ys;
      ApplyAppend(xs[1..], ys, step.0);
    }
  }

  /** After a main section the records no longer depend on anything read before it. */
  lemma MainRowForgets(readings: seq<Reading>, s1: seq<string>, s2: seq<string>)
    requires IsStack(s1) && IsStack(s2)
    requires |readings| > 0 && readings[0].0.Main?
    ensures Apply(readings, s1) == Apply(readings, s2)
  {
    assert Step(s1, readings[0].0, readings[0].1).0 == Step(s2, readings[0].0, readings[0].1).0;
  }

  /** Each row read on its own. */
  function Reads(rows: seq<seq<Cell>>): (r: seq<Reading>)
    ensures |r| == |rows|
  {
    Map(ReadRow, rows)
  }

  function Resolve(rows: seq<seq<Cell>>, stack: seq<string>): seq<Record>
    requires IsStack(stack)
  {
    Apply(Reads(rows), stack)
  }

  /** A page read in two parts gives the records of the whole page. */
  lemma ResolveAppend(xs: seq<seq<Cell>>, ys: seq<seq<Cell>>, stack: seq<string>)
    requires IsStack(stack)
    ensures Resolve(xs + ys, stack) == Resolve(xs, stack) + Resolve(ys, FinalStack(Reads(xs), stack))
  {
    MapAppend(ReadRow, xs, ys);
    ApplyAppend(Reads(xs), Reads(ys), stack);
  }

  /** extract_sbv_html on a parsed page. */
  function ExtractSbv(table: Option<seq<seq<Cell>>>): (r: Result<seq<Record>, SbvError>)
    ensures table.None? <==> r.Err?
    ensures r.Ok? ==> forall k :: 0 <= k < |r.value| ==> |r.value[k].groups| == Depth && r.value[k].groups[Depth - 1] == ""
  {
    match table
    case None => Err(NoReportTable)
    case Some(rows) => Ok(Resolve(rows, Repeat("", Depth)))
  }

  // ---------------------------------------------------------------------
  // A worked page
  // ---------------------------------------------------------------------

  function Plain(text: string): Cell
  {
    Cell(text, "")
  }

  /** A row of the report: the caption cell in `style`, three empty cells, the value. */
  function Row(style: string, caption: string, value: string): seq<Cell>
  {
    [Cell(caption, style), Plain(""), Plain(""), Plain(""), Plain(value)]
  }

  /** A style that indents by `pixels` and is not on the grey background. */
  predicate ItemStyle(style: string, pixels: nat)
  {
    !Contains(style, MainMarker) && PaddingPixels(style) == Some(pixels)
  }

  /** Any style that declares the grey background among other declarations is grey. */
  lemma GreyStyle(before: string, after: string)
    ensures Contains(before + MainMarker + after, MainMarker)
  {
    var style := before + MainMarker + after;
    assert style[|before|..][..|MainMarker|] == MainMarker;
    ContainsAt(style, MainMarker, |before|);
  }

  lemma NatToStringShort(n: nat)
    requires n < 1000
    ensures |NatToString(n)| <= 3
  {
    if n >= 10 {
      assert |NatToString(n)| == |NatToString(n / 10)| + 1;
      if n / 10 >= 10 {
        assert |NatToString(n / 10)| == |NatToString(n / 100)| + 1;
      }
    }
  }

  /** `padding-left: <n>px` indents by `n` pixels. */
  lemma PaddingStyleIndents(n: nat)
    requires n < 1000
    ensures ItemStyle(PaddingStyle(1, n), n)
  {
    NatToStringShort(n);
    ShorterContainsNot(PaddingStyle(1, n), MainMarker);
    PaddingStyleRead(1, n, "");
    assert PaddingStyle(1, n) + "" == PaddingStyle(1, n);
  }

  /** Three empty cells and then digits: the digits are the row's value. */
  lemma RowValueIs(style: string, caption: string, value: string)
    requires value != "" && AllDigits(value)
    ensures ValueFrom(Row(style, caption, value), 1) == Some(value)
  {
    var row := Row(style, caption, value);
    DigitsAreValues(value);
    assert ValueFrom(row, 4) == Some(value);
    assert ValueFrom(row, 3) == Some(value);
    assert ValueFrom(row, 2) == Some(value);
  }

  /** A row whose first cell opens a main section is read from its second cell on. */
  lemma ReadMain(cells: seq<Cell>)
    requires |cells| >= 5 && Classify(cells[0]) == MainCell
    ensures ReadRow(cells) == (Main(0, cells[0].text), ValueFrom(cells, 1))
  {
  }

  /** A row whose first cell is indented is read from its second cell on. */
  lemma ReadIndented(cells: seq<Cell>, pixels: nat)
    requires |cells| >= 5 && Classify(cells[0]) == IndentCell(pixels)
    ensures ReadRow(cells) == (Indented(0, pixels, cells[0].text), ValueFrom(cells, 1))
  {
  }

  /** A non-empty caption in a grey style opens a main section. */
  lemma ClassifyMain(style: string, caption: string)
    requires Contains(style, MainMarker) && caption != ""
    ensures Classify(Cell(caption, style)) == MainCell
  {
  }

  /** A non-empty caption in an item style is indented by the style's pixels. */
  lemma ClassifyItem(style: string, pixels: nat, caption: string)
    requires ItemStyle(style, pixels) && caption != ""
    ensures Classify(Cell(caption, style)) == IndentCell(pixels)
  {
  }

  /** A row of a main section with a value. */
  lemma MainRowRead(style: string, caption: string, value: string)
    requires Classify(Cell(caption, style)) == MainCell && value != "" && AllDigits(value)
    ensures ReadRow(Row(style, caption, value)) == (Main(0, caption), Some(value))
  {
    RowValueIs(style, caption, value);
    ReadMain(Row(style, caption, value));
  }

  /** A row of an indented item with a value. */
  lemma ItemRowRead(style: string, pixels: nat, caption: string, value: string)
    requires Classify(Cell(caption, style)) == IndentCell(pixels) && value != "" && AllDigits(value)
    ensures ReadRow(Row(style, caption, value)) == (Indented(0, pixels, caption), Some(value))
  {
    RowValueIs(style, caption, value);
    ReadIndented(Row(style, caption, value), pixels);
  }

  /** A main section with a value: the stack holds its caption alone. */
  lemma MainStep(stack: seq<string>, text: string, value: string)
    requires IsStack(stack)
    ensures var s := [StripPrefix(text), "", "", "", "", ""];
      Step(stack, Main(0, text), Some(value)) == (s, Some(Record(s, value)))
  {
    var r := Step(stack, Main(0, text), Some(value));
    assert r.0 == [StripPrefix(text), "", "", "", "", ""];
  }

  /** An item with a value at a mapped indentation. */
  lemma ItemStep(stack: seq<string>, pixels: nat, caption: string, value: string)
    requires IsStack(stack) && Level(pixels) > 0
    ensures var s := SetLevel(stack, Level(pixels), caption);
      Step(stack, Indented(0, pixels, caption), Some(value)) == (s, Some(Record(s, value)))
  {
  }

  /** One reading that yields a record: the record, then the rest from the new stack. */
  lemma ApplyCons(readings: seq<Reading>, stack: seq<string>, s: seq<string>, record: Record)
    requires IsStack(stack) && |readings| > 0
    requires Step(stack, readings[0].0, readings[0].1) == (s, Some(record))
    ensures IsStack(s) && Apply(readings, stack) == [record] + Apply(readings[1..], s)
  {
  }

  lemma SeqOfSix<T>(s: seq<T>, e0: T, e1: T, e2: T, e3: T, e4: T, e5: T)
    requires |s| == 6 && s[0] == e0 && s[1] == e1 && s[2] == e2 && s[3] == e3 && s[4] == e4 && s[5] == e5
    ensures s == [e0, e1, e2, e3, e4, e5]
  {
  }

  /** The page below as read: a main row, then items at pixels `p`, `q` and `r`. */
  function AncestryReadings(m: string, a: string, b: string, c: string, p: nat, q: nat, r: nat, w: string, x: string, y: string, z: string): seq<Reading>
  {
    [(Main(0, m), Some(w)), (Indented(0, p, a), Some(x)), (Indented(0, q, b), Some(y)), (Indented(0, r, c), Some(z))]
  }

  /** The rows of the page below read as those readings. */
  lemma AncestryReads(grey: string, sa: string, sb: string, sc: string, p: nat, q: nat, r: nat,
                      m: string, a: string, b: string, c: string, w: string, x: string, y: string, z: string)
    requires Contains(grey, MainMarker) && ItemStyle(sa, p) && ItemStyle(sb, q) && ItemStyle(sc, r)
    requires m != "" && a != "" && b != "" && c != ""
    requires w != "" && x != "" && y != "" && z != ""
    requires AllDigits(w) && AllDigits(x) && AllDigits(y) && AllDigits(z)
    ensures Reads([Row(grey, m, w), Row(sa, a, x), Row(sb, b, y), Row(sc, c, z)])
      == AncestryReadings(m, a, b, c, p, q, r, w, x, y, z)
  {
    assert ReadRow(Row(grey, m, w)) == (Main(0, m), Some(w)) by {
      ClassifyMain(grey, m);
      MainRowRead(grey, m, w);
    }
    assert ReadRow(Row(sa, a, x)) == (Indented(0, p, a), Some(x)) by {
      ClassifyItem(sa, p, a);
      ItemRowRead(sa, p, a, x);
    }
    assert ReadRow(Row(sb, b, y)) == (Indented(0, q, b), Some(y)) by {
      ClassifyItem(sb, q, b);
      ItemRowRead(sb, q, b, y);
    }
    assert ReadRow(Row(sc, c, z)) == (Indented(0, r, c), Some(z)) by {
      ClassifyItem(sc, r, c);
      ItemRowRead(sc, r, c, z);
    }
    MapOfFour(ReadRow, Row(grey, m, w), Row(sa, a, x), Row(sb, b, y), Row(sc, c, z));
  }

  /** The last two readings: a second-level item, then a first-level one. */
  lemma AncestryLastTwo(t: string, a: string, b: string, c: string, q: nat, r: nat, y: string, z: string)
    requires Level(q) == 2 && Level(r) == 1
    ensures Apply([(Indented(0, q, b), Some(y)), (Indented(0, r, c), Some(z))], [t, a, "", "", "", ""]) == [
        Record([t, a, b, "", "", ""], y),
        Record([t, c, "", "", "", ""], z)]
  {
    var r2 := [(Indented(0, q, b), Some(y)), (Indented(0, r, c), Some(z))];
    var s2 := [t, a, "", "", "", ""];
    var s3 := [t, a, b, "", "", ""];
    var s4 := [t, c, "", "", "", ""];
    ItemStep(s2, q, b, y);
    SeqOfSix(SetLevel(s2, 2, b), t, a, b, "", "", "");
    ApplyCons(r2, s2, s3, Record(s3, y));
    ItemStep(s3, r, c, z);
    SeqOfSix(SetLevel(s3, 1, c), t, c, "", "", "", "");
    ApplyCons(r2[1..], s3, s4, Record(s4, z));
    assert r2[1..][1..] == [];
  }

  /** The three item readings under a main section captioned `t`. */
  lemma AncestryItems(t: string, a: string, b: string, c: string, p: nat, q: nat, r: nat, x: string, y: string, z: string)
    requires Level(p) == 1 && Level(q) == 2 && Level(r) == 1
    ensures Apply([(Indented(0, p, a), Some(x)), (Indented(0, q, b), Some(y)), (Indented(0, r, c), Some(z))], [t, "", "", "", "", ""]) == [
        Record([t, a, "", "", "", ""], x),
        Record([t, a, b, "", "", ""], y),
        Record([t, c, "", "", "", ""], z)]
  {
    var r1 := [(Indented(0, p, a), Some(x)), (Indented(0, q, b), Some(y)), (Indented(0, r, c), Some(z))];
    var s1 := [t, "", "", "", "", ""];
    var s2 := [t, a, "", "", "", ""];
    ItemStep(s1, p, a, x);
    SeqOfSix(SetLevel(s1, 1, a), t, a, "", "", "", "");
    ApplyCons(r1, s1, s2, Record(s2, x));
    assert r1[1..] == [(Indented(0, q, b), Some(y)), (Indented(0, r, c), Some(z))];
    AncestryLastTwo(t, a, b, c, q, r, y, z);
  }

  /** A main row with a value yields its record and leaves its caption alone on the stack. */
  lemma ApplyMainFirst(stack: seq<string>, text: string, value: string, rest: seq<Reading>)
    requires IsStack(stack)
    ensures var s := [StripPrefix(text), "", "", "", "", ""];
      Apply([(Main(0, text), Some(value))] + rest, stack) == [Record(s, value)] + Apply(rest, s)
  {
    var s := [StripPrefix(text), "", "", "", "", ""];
    var readings := [(Main(0, text), Some(value))] + rest;
    assert readings[1..] == rest;
    MainStep(stack, text, value);
    ApplyCons(readings, stack, s, Record(s, value));
  }

  /** The stack walk over those readings, from any stack: each record carries its ancestry. */
  lemma AncestryApply(stack: seq<string>, m: string, a: string, b: string, c: string, p: nat, q: nat, r: nat, w: string, x: string, y: string, z: string)
    requires IsStack(stack) && Level(p) == 1 && Level(q) == 2 && Level(r) == 1
    ensures var t := StripPrefix(m);
      Apply(AncestryReadings(m, a, b, c, p, q, r, w, x, y, z), stack) == [
        Record([t, "", "", "", "", ""], w),
        Record([t, a, "", "", "", ""], x),
        Record([t, a, b, "", "", ""], y),
        Record([t, c, "", "", "", ""], z)]
  {
    var t := StripPrefix(m);
    var items := [(Indented(0, p, a), Some(x)), (Indented(0, q, b), Some(y)), (Indented(0, r, c), Some(z))];
    assert AncestryReadings(m, a, b, c, p, q, r, w, x, y, z) == [(Main(0, m), Some(w))] + items;
    ApplyMainFirst(stack, m, w, items);
    AncestryItems(t, a, b, c, p, q, r, x, y, z);
  }

  /**
   A main section, an item under it at a first-level indentation, one
   further in at the second level, and a second first-level item: each
   record carries its full ancestry, and the second item clears the level
   the first one's child had written.
   */
  lemma SectionAncestry(grey: string, sa: string, sb: string, sc: string, p: nat, q: nat, r: nat,
                        m: string, a: string, b: string, c: string, w: string, x: string, y: string, z: string)
    requires Contains(grey, MainMarker) && ItemStyle(sa, p) && ItemStyle(sb, q) && ItemStyle(sc, r)
    requires Level(p) == 1 && Level(q) == 2 && Level(r) == 1
    requires m != "" && a != "" && b != "" && c != ""
    requires w != "" && x != "" && y != "" && z != ""
    requires AllDigits(w) && AllDigits(x) && AllDigits(y) && AllDigits(z)
    ensures var t := StripPrefix(m);
      ExtractSbv(Some([Row(grey, m, w), Row(sa, a, x), Row(sb, b, y), Row(sc, c, z)])) == Ok([
        Record([t, "", "", "", "", ""], w),
        Record([t, a, "", "", "", ""], x),
        Record([t, a, b, "", "", ""], y),
        Record([t, c, "", "", "", ""], z)])
  {
    AncestryReads(grey, sa, sb, sc, p, q, r, m, a, b, c, w, x, y, z);
    AncestryApply(Repeat("", Depth), m, a, b, c, p, q, r, w, x, y, z);
  }
}
