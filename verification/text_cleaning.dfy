/**
 Cleaning of OCR cell text (clean_vietnamese_text in
 vietnamese_pdf_processor.py): drop characters outside the allowed class,
 turn every whitespace run into one space, strip the ends, and turn a comma
 between two digits into a decimal point.
 */
module TextCleaning {
  import opened Text

  /** The characters the first substitution keeps: word characters, whitespace and `- . , : % / ( )`. */
  predicate IsAllowed(c: char)
  {
    || IsWordChar(c)
    || IsSpace(c)
    || c == '-' || c == '.' || c == ',' || c == ':' || c == '%' || c == '/' || c == '(' || c == ')'
  }

  /** `s` with every character outside the allowed class deleted. */
  function KeepAllowed(s: string): (r: string)
    ensures |r| <= |s|
    ensures forall i :: 0 <= i < |r| ==> IsAllowed(r[i])
  {
    if |s| == 0 then ""
    else (if IsAllowed(s[0]) then [s[0]] else "") + KeepAllowed(s[1..])
  }

  /** Filtering distributes over concatenation, so kept characters stay in their order. */
  lemma {:induction false} KeepAllowedAppend(a: string, b: string)
    ensures KeepAllowed(a + b) == KeepAllowed(a) + KeepAllowed(b)
  {
    if |a| > 0 {
      assert (a + b)[1..] == a[1..] + b;
      KeepAllowedAppend(a[1..], b);
    } else {
      assert a + b == b;
    }
  }

  /** A single character is kept exactly when it is allowed. */
  lemma KeepAllowedChar(c: char)
    ensures KeepAllowed([c]) == [c] <==> IsAllowed(c)
    ensures KeepAllowed([c]) == "" <==> !IsAllowed(c)
  {
    assert [c][1..] == "";
  }

  /** The non-whitespace characters of `s`, in order. */
  function Visible(s: string): string
  {
    if |s| == 0 then ""
    else (if IsSpace(s[0]) then "" else [s[0]]) + Visible(s[1..])
  }

  lemma {:induction false} VisibleAppend(a: string, b: string)
    ensures Visible(a + b) == Visible(a) + Visible(b)
  {
    if |a| > 0 {
      assert (a + b)[1..] == a[1..] + b;
      VisibleAppend(a[1..], b);
    } else {
      assert a + b == b;
    }
  }

  lemma {:induction false} VisibleOfSpaces(s: string)
    requires forall i :: 0 <= i < |s| ==> IsSpace(s[i])
    ensures Visible(s) == ""
  {
    if |s| > 0 {
      VisibleOfSpaces(s[1..]);
    }
  }

  /** No two neighbours are whitespace, and whitespace is only the plain space. */
  ghost predicate SingleSpaced(r: string)
  {
    && (forall i :: 0 <= i < |r| && IsSpace(r[i]) ==> r[i] == ' ')
    && (forall i, j :: 0 <= i < j < |r| && j == i + 1 ==> !(IsSpace(r[i]) && IsSpace(r[j])))
  }

  /** Python's `re.sub(r'\s+', ' ', s)`: each maximal whitespace run becomes one space. */
  function CollapseSpaces(s: string): (r: string)
    ensures |r| <= |s|
    ensures SingleSpaced(r)
    ensures |r| > 0 && IsSpace(r[0]) <==> |s| > 0 && IsSpace(s[0])
    decreases |s|
  {
    if |s| == 0 then ""
    else if IsSpace(s[0]) then
      var tail := CollapseSpaces(TrimStart(s[1..]));
      assert (" " + tail)[1..] == tail;
      " " + tail
    else
      var tail := CollapseSpaces(s[1..]);
      assert ([s[0]] + tail)[1..] == tail;
      [s[0]] + tail
  }

  /** Collapsing whitespace keeps every visible character, in order. */
  lemma {:induction false} CollapseSpacesVisible(s: string)
    ensures Visible(CollapseSpaces(s)) == Visible(s)
    decreases |s|
  {
    if |s| > 0 {
      if IsSpace(s[0]) {
        var rest := TrimStart(s[1..]);
        var gap := s[1..][..|s[1..]| - |rest|];
        CollapseSpacesVisible(rest);
        assert s[1..] == gap + rest;
        VisibleOfSpaces(gap);
        VisibleAppend(gap, rest);
        assert Visible(" " + CollapseSpaces(rest)) == Visible(CollapseSpaces(rest)) by {
          assert (" " + CollapseSpaces(rest))[1..] == CollapseSpaces(rest);
        }
      } else {
        CollapseSpacesVisible(s[1..]);
        assert ([s[0]] + CollapseSpaces(s[1..]))[1..] == CollapseSpaces(s[1..]);
      }
    }
  }

  /** A slice of single-spaced text is single-spaced. */
  lemma SingleSpacedSlice(c: string, a: nat, n: nat)
    requires SingleSpaced(c) && a + n <= |c|
    ensures SingleSpaced(c[a..][..n])
  {
    var r := c[a..][..n];
    forall i, j | 0 <= i < j < |r| && j == i + 1 ensures !(IsSpace(r[i]) && IsSpace(r[j])) {
      assert r[i] == c[a + i] && r[j] == c[a + j];
    }
  }

  /** Steps 2 and 3 of the cleaning: collapse whitespace runs, then strip. */
  function NormalizeSpaces(s: string): (r: string)
    ensures SingleSpaced(r)
    ensures |r| > 0 ==> !IsSpace(r[0]) && !IsSpace(r[|r| - 1])
  {
    var c := CollapseSpaces(s);
    var r := Strip(c);
    var a :| 0 <= a <= |c| - |r| && r == c[a..][..|r|];
    SingleSpacedSlice(c, a, |r|);
    r
  }

  lemma {:induction false} TrimStartVisible(s: string)
    ensures Visible(TrimStart(s)) == Visible(s)
  {
    if |s| > 0 && IsSpace(s[0]) {
      TrimStartVisible(s[1..]);
    }
  }

  lemma {:induction false} TrimEndVisible(s: string)
    ensures Visible(TrimEnd(s)) == Visible(s)
  {
    if |s| > 0 && IsSpace(s[|s| - 1]) {
      var init := s[..|s| - 1];
      TrimEndVisible(init);
      assert s == init + [s[|s| - 1]];
      VisibleAppend(init, [s[|s| - 1]]);
      assert [s[|s| - 1]][1..] == "";
    }
  }

  /** Normalising whitespace keeps every visible character, in order. */
  lemma NormalizeSpacesVisible(s: string)
    ensures Visible(NormalizeSpaces(s)) == Visible(s)
  {
    var c := CollapseSpaces(s);
    CollapseSpacesVisible(s);
    TrimStartVisible(c);
    TrimEndVisible(TrimStart(c));
  }

  // ---------------------------------------------------------------------
  // Whitespace normalisation is the words joined by single spaces
  // ---------------------------------------------------------------------

  /** Number of leading non-whitespace characters. */
  function WordLength(t: string): (n: nat)
    ensures n <= |t|
    ensures forall i :: 0 <= i < n ==> !IsSpace(t[i])
    ensures n < |t| ==> IsSpace(t[n])
    ensures |t| > 0 && !IsSpace(t[0]) ==> n > 0
  {
    if |t| > 0 && !IsSpace(t[0]) then 1 + WordLength(t[1..]) else 0
  }

  /** Python's `s.split()`: the maximal runs of non-whitespace characters, in order. */
  function Words(s: string): seq<string>
    decreases |s|
  {
    var t := TrimStart(s);
    if |t| == 0 then []
    else
      var n := WordLength(t);
      [t[..n]] + Words(t[n..])
  }

  predicate IsWord(w: string)
  {
    |w| > 0 && forall i :: 0 <= i < |w| ==> !IsSpace(w[i])
  }

  lemma {:induction false} WordsAreWords(s: string)
    ensures forall k :: 0 <= k < |Words(s)| ==> IsWord(Words(s)[k])
    decreases |s|
  {
    var t := TrimStart(s);
    if |t| > 0 {
      var n := WordLength(t);
      var ws := Words(t[n..]);
      WordsAreWords(t[n..]);
      assert Words(s) == [t[..n]] + ws;
      assert IsWord(t[..n]);
      forall k | 0 <= k < |Words(s)| ensures IsWord(Words(s)[k]) {
        if k > 0 {
          assert Words(s)[k] == ws[k - 1];
        }
      }
    }
  }

  /** Words joined by single spaces neither start nor end with whitespace. */
  lemma {:induction false} JoinWordsEnds(ws: seq<string>)
    requires |ws| > 0 && forall k :: 0 <= k < |ws| ==> IsWord(ws[k])
    ensures var j := JoinSpace(ws); |j| > 0 && !IsSpace(j[0]) && !IsSpace(j[|j| - 1])
  {
    if |ws| > 1 {
      JoinWordsEnds(ws[1..]);
      var j := JoinSpace(ws[1..]);
      assert JoinSpace(ws) == ws[0] + " " + j;
      assert JoinSpace(ws)[0] == ws[0][0];
    }
  }

  /** Splitting undoes joining: words joined by single spaces split back into those words. */
  lemma {:induction false} WordsOfJoin(ws: seq<string>)
    requires forall k :: 0 <= k < |ws| ==> IsWord(ws[k])
    ensures Words(JoinSpace(ws)) == ws
  {
    if |ws| == 1 {
      WordsOne(ws[0]);
    } else if |ws| > 1 {
      WordsOfJoin(ws[1..]);
      assert ws == [ws[0]] + ws[1..];
      WordsOfJoinCons(ws[0], ws[1..]);
    }
  }

  lemma WordsOfJoinCons(w: string, vs: seq<string>)
    requires IsWord(w) && |vs| > 0 && forall k :: 0 <= k < |vs| ==> IsWord(vs[k])
    requires Words(JoinSpace(vs)) == vs
    ensures Words(JoinSpace([w] + vs)) == [w] + vs
  {
    JoinWordsEnds(vs);
    WordsSpaceCons(w, JoinSpace(vs));
    JoinSpaceCons([w] + vs);
    assert ([w] + vs)[1..] == vs;
  }

  lemma WordsSpaceCons(w: string, rest: string)
    requires IsWord(w) && |rest| > 0 && !IsSpace(rest[0])
    ensures Words(w + (" " + rest)) == [w] + Words(rest)
  {
    WordsCons(w, " " + rest);
    WordsAfterSpace(rest);
  }

  lemma WordsAfterSpace(rest: string)
    requires |rest| > 0 && !IsSpace(rest[0])
    ensures Words(" " + rest) == Words(rest)
  {
    WordsTrim(" " + rest);
    TrimStartSpaces(" ", rest);
  }

  /** A leading word passes through whitespace collapsing unchanged. */
  lemma {:induction false} CollapseWord(w: string, rest: string)
    requires forall i :: 0 <= i < |w| ==> !IsSpace(w[i])
    ensures CollapseSpaces(w + rest) == w + CollapseSpaces(rest)
  {
    if |w| == 0 {
      assert w + rest == rest;
    } else {
      assert (w + rest)[1..] == w[1..] + rest;
      CollapseWord(w[1..], rest);
      assert w == [w[0]] + w[1..];
    }
  }

  /** A text that starts with a word splits into that word and the words after it. */
  lemma WordsStep(t: string)
    requires |t| > 0 && !IsSpace(t[0])
    ensures var n := WordLength(t); Words(t) == [t[..n]] + Words(t[n..])
  {
    assert TrimStart(t) == t;
  }

  /** A text that starts with whitespace collapses its leading run to one space and has the words of its rest. */
  lemma GapStep(rest: string)
    requires |rest| > 0 && IsSpace(rest[0])
    ensures var u := TrimStart(rest);
      && CollapseSpaces(rest) == " " + CollapseSpaces(u)
      && Words(rest) == Words(u)
      && (|u| == 0 ==> IsSpace(rest[|rest| - 1]))
      && (|u| > 0 ==> rest[|rest| - 1] == u[|u| - 1] && !IsSpace(u[0]))
  {
    var u := TrimStart(rest);
    assert u == TrimStart(rest[1..]);
    if |u| > 0 {
      assert TrimStart(u) == u;
      assert u == rest[|rest| - |u|..];
    }
  }

  /**
   On text that does not start with whitespace, collapsing gives the words
   joined by single spaces, plus one space when the text ends in whitespace.
   */
  lemma {:induction false} CollapseFromWord(t: string)
    requires |t| == 0 || !IsSpace(t[0])
    ensures CollapseSpaces(t) == JoinSpace(Words(t)) + (if |t| > 0 && IsSpace(t[|t| - 1]) then " " else "")
    decreases |t|
  {
    if |t| == 0 {
      assert Words(t) == [];
    } else if WordLength(t) == |t| {
      LastWord(t);
    } else {
      var rest := t[WordLength(t)..];
      var u := TrimStart(rest);
      GapStep(rest);
      assert t[|t| - 1] == rest[|rest| - 1];
      if |u| == 0 {
        WordThenBlank(t);
      } else {
        CollapseFromWord(u);
        WordThenMore(t, if IsSpace(u[|u| - 1]) then " " else "");
      }
    }
  }

  lemma LastWord(t: string)
    requires |t| > 0 && !IsSpace(t[0]) && WordLength(t) == |t|
    ensures CollapseSpaces(t) == JoinSpace(Words(t)) && !IsSpace(t[|t| - 1])
  {
    WordsStep(t);
    CollapseWord(t, "");
    assert t + "" == t && t[|t|..] == "";
  }

  /** A word followed by whitespace: the word, one space, then what follows the gap. */
  lemma WordGap(t: string)
    requires |t| > 0 && !IsSpace(t[0]) && WordLength(t) < |t|
    ensures var n := WordLength(t); var u := TrimStart(t[n..]);
      && CollapseSpaces(t) == t[..n] + (" " + CollapseSpaces(u))
      && Words(t) == [t[..n]] + Words(u)
  {
    var n := WordLength(t);
    SplitAt(t, n);
    CollapseWord(t[..n], t[n..]);
    WordsStep(t);
    GapStep(t[n..]);
  }

  lemma WordThenBlank(t: string)
    requires |t| > 0 && !IsSpace(t[0]) && WordLength(t) < |t|
    requires |TrimStart(t[WordLength(t)..])| == 0
    ensures CollapseSpaces(t) == JoinSpace(Words(t)) + " "
  {
    WordGap(t);
    var u := TrimStart(t[WordLength(t)..]);
    assert u == "";
    LoneWord(t[..WordLength(t)]);
  }

  lemma LoneWord(w: string)
    ensures w + (" " + CollapseSpaces("")) == JoinSpace([w] + Words("")) + " "
  {
    assert Words("") == [] && [w] + [] == [w];
  }

  lemma WordThenMore(t: string, e: string)
    requires |t| > 0 && !IsSpace(t[0]) && WordLength(t) < |t|
    requires var u := TrimStart(t[WordLength(t)..]); |u| > 0 && CollapseSpaces(u) == JoinSpace(Words(u)) + e
    ensures CollapseSpaces(t) == JoinSpace(Words(t)) + e
  {
    var n := WordLength(t);
    var u := TrimStart(t[n..]);
    WordGap(t);
    WordsStep(u);
    JoinCons(t[..n], Words(u));
    Regroup(t[..n], " ", JoinSpace(Words(u)), e);
  }

  /** Joining a word in front of a non-empty list adds it with one space. */
  lemma JoinCons(w: string, ws: seq<string>)
    requires |ws| > 0
    ensures JoinSpace([w] + ws) == w + " " + JoinSpace(ws)
  {
    assert ([w] + ws)[1..] == ws;
  }

  lemma SplitAt(t: string, n: nat)
    requires n <= |t|
    ensures t == t[..n] + t[n..]
  {
  }

  lemma Regroup(a: string, b: string, c: string, d: string)
    ensures a + (b + (c + d)) == a + b + c + d
  {
  }

  /** Collapsing and stripping whitespace joins the words of the text by single spaces. */
  lemma NormalizeSpacesWords(s: string)
    ensures NormalizeSpaces(s) == JoinSpace(Words(s))
  {
    var t := TrimStart(s);
    var pre := if |s| > 0 && IsSpace(s[0]) then " " else "";
    var e := if |t| > 0 && IsSpace(t[|t| - 1]) then " " else "";
    NormalizeIsStrip(s);
    LeadGap(s);
    CollapseFromWord(t);
    StripJoinedWords(pre, t, e);
  }

  /** The words of any text, joined by single spaces, lose nothing to stripping. */
  lemma StripJoinedWords(pre: string, t: string, e: string)
    requires pre == "" || pre == " "
    requires e == "" || e == " "
    ensures Strip(pre + (JoinSpace(Words(t)) + e)) == JoinSpace(Words(t))
  {
    WordsAreWords(t);
    if |Words(t)| > 0 {
      JoinWordsEnds(Words(t));
    }
    StripPadded(pre, JoinSpace(Words(t)), e);
  }

  lemma NormalizeIsStrip(s: string)
    ensures NormalizeSpaces(s) == Strip(CollapseSpaces(s))
  {
  }

  /** Leading whitespace collapses to at most one space and separates no words. */
  lemma LeadGap(s: string)
    ensures var t := TrimStart(s);
      && Words(s) == Words(t)
      && CollapseSpaces(s) == (if |s| > 0 && IsSpace(s[0]) then " " else "") + CollapseSpaces(t)
      && (|t| == 0 || !IsSpace(t[0]))
  {
    if |s| > 0 && IsSpace(s[0]) {
      GapStep(s);
    } else {
      assert TrimStart(s) == s;
    }
  }

  /** Stripping removes at most one space at each end of text with visible ends. */
  lemma StripPadded(pre: string, j: string, e: string)
    requires pre == "" || pre == " "
    requires e == "" || e == " "
    requires |j| > 0 ==> !IsSpace(j[0]) && !IsSpace(j[|j| - 1])
    ensures Strip(pre + (j + e)) == j
  {
    if |j| == 0 {
      var x := pre + (j + e);
      forall i | 0 <= i < |x| ensures IsSpace(x[i]) {
        assert x[i] == ' ';
      }
    } else {
      TrimStartSpaces(pre, j + e);
      TrimEndPad(j, e);
    }
  }

  lemma TrimEndPad(j: string, e: string)
    requires e == "" || e == " "
    requires |j| > 0 && !IsSpace(j[|j| - 1])
    ensures TrimEnd(j + e) == j
  {
    if e == " " {
      assert (j + e)[..|j|] == j;
    }
  }

  /**
   Python's `re.sub(r'(\d),(\d)', r'\1.\2', s)`: scanning left to right, a
   digit, a comma and a digit become digit, point, digit, and the scan
   resumes after the second digit.
   */
  function DecimalPoints(s: string): (r: string)
    ensures |r| == |s|
    decreases |s|
  {
    if |s| >= 3 && IsDigit(s[0]) && s[1] == ',' && IsDigit(s[2]) then [s[0], '.', s[2]] + DecimalPoints(s[3..])
    else if |s| == 0 then ""
    else [s[0]] + DecimalPoints(s[1..])
  }

  /** Every character is kept, except commas that may become points. */
  lemma {:induction false} DecimalPointsChars(s: string)
    ensures forall i :: 0 <= i < |s| ==> DecimalPoints(s)[i] == s[i] || (s[i] == ',' && DecimalPoints(s)[i] == '.')
    decreases |s|
  {
    if |s| >= 3 && IsDigit(s[0]) && s[1] == ',' && IsDigit(s[2]) {
      DecimalPointsChars(s[3..]);
    } else if |s| > 0 {
      DecimalPointsChars(s[1..]);
    }
  }

  /** Only a comma with a digit on each side is changed. */
  lemma {:induction false} DecimalPointsSound(s: string, i: int)
    requires 0 <= i < |s| && DecimalPoints(s)[i] != s[i]
    ensures 0 < i < |s| - 1 && IsDigit(s[i - 1]) && s[i] == ',' && IsDigit(s[i + 1])
    decreases |s|
  {
    if |s| >= 3 && IsDigit(s[0]) && s[1] == ',' && IsDigit(s[2]) {
      if i >= 3 {
        DecimalPointsSound(s[3..], i - 3);
      }
    } else {
      DecimalPointsSound(s[1..], i - 1);
    }
  }

  /** Two commas turned into points are at least three positions apart. */
  lemma {:induction false} DecimalPointsSpaced(s: string, i: int, j: int)
    requires 0 <= i < j < |s|
    requires DecimalPoints(s)[i] != s[i] && DecimalPoints(s)[j] != s[j]
    ensures j - i >= 3
    decreases |s|
  {
    if |s| >= 3 && IsDigit(s[0]) && s[1] == ',' && IsDigit(s[2]) {
      if i >= 3 {
        DecimalPointsSpaced(s[3..], i - 3, j - 3);
      } else {
        var r := DecimalPoints(s);
        assert r[0] == s[0] && r[2] == s[2];
        if j >= 3 {
          DecimalPointsSound(s[3..], j - 3);
        }
      }
    } else {
      assert i > 0 by {
        DecimalPointsSound(s, i);
      }
      DecimalPointsSpaced(s[1..], i - 1, j - 1);
    }
  }

  /**
   A comma left between two digits had its left digit consumed by the
   previous replacement (as in `1,2,3`, which becomes `1.2,3`).
   */
  lemma {:induction false} DecimalPointsComplete(s: string, i: int)
    requires 1 <= i < |s| - 1
    requires IsDigit(DecimalPoints(s)[i - 1]) && DecimalPoints(s)[i] == ',' && IsDigit(DecimalPoints(s)[i + 1])
    ensures i >= 3 && DecimalPoints(s)[i - 2] == '.'
    decreases |s|
  {
    var r := DecimalPoints(s);
    if |s| >= 3 && IsDigit(s[0]) && s[1] == ',' && IsDigit(s[2]) {
      if i > 3 {
        DecimalPointsComplete(s[3..], i - 3);
      }
    } else {
      assert r == [s[0]] + DecimalPoints(s[1..]);
      if i > 1 {
        DecimalPointsComplete(s[1..], i - 1);
      }
    }
  }

  /** Turning commas into points changes neither the character class nor the spacing. */
  lemma DecimalPointsKeepsShape(n: string)
    ensures (forall i :: 0 <= i < |n| ==> IsAllowed(n[i])) ==> forall i :: 0 <= i < |n| ==> IsAllowed(DecimalPoints(n)[i])
    ensures SingleSpaced(n) ==> SingleSpaced(DecimalPoints(n))
    ensures forall i :: 0 <= i < |n| ==> (IsSpace(DecimalPoints(n)[i]) <==> IsSpace(n[i]))
  {
    var r := DecimalPoints(n);
    DecimalPointsChars(n);
    assert forall i :: 0 <= i < |n| ==> (IsSpace(r[i]) <==> IsSpace(n[i]));
    if SingleSpaced(n) {
      forall i, j | 0 <= i < j < |r| && j == i + 1 ensures !(IsSpace(r[i]) && IsSpace(r[j])) {
        assert !(IsSpace(n[i]) && IsSpace(n[j]));
      }
    }
  }

  /** Whitespace normalisation keeps text in the allowed class. */
  lemma NormalizeKeepsAllowed(k: string)
    requires forall i :: 0 <= i < |k| ==> IsAllowed(k[i])
    ensures forall i :: 0 <= i < |NormalizeSpaces(k)| ==> IsAllowed(NormalizeSpaces(k)[i])
  {
    var n := NormalizeSpaces(k);
    forall i | 0 <= i < |n| ensures IsAllowed(n[i]) {
      if !IsSpace(n[i]) {
        NormalizeKeepsVisible(k, n, i);
      }
    }
  }

  /** clean_vietnamese_text. */
  function CleanText(s: string): (r: string)
    ensures s == "" ==> r == ""
    ensures forall i :: 0 <= i < |r| ==> IsAllowed(r[i])
    ensures SingleSpaced(r)
    ensures |r| > 0 ==> !IsSpace(r[0]) && !IsSpace(r[|r| - 1])
  {
    if |s| == 0 then ""
    else
      var n := NormalizeSpaces(KeepAllowed(s));
      NormalizeKeepsAllowed(KeepAllowed(s));
      DecimalPointsKeepsShape(n);
      DecimalPoints(n)
  }

  /** Allowed characters only, single plain spaces, and no whitespace at either end. */
  ghost predicate IsCleanText(c: string)
  {
    && (forall j :: 0 <= j < |c| ==> IsAllowed(c[j]))
    && SingleSpaced(c)
    && (|c| > 0 ==> !IsSpace(c[0]) && !IsSpace(c[|c| - 1]))
  }

  lemma CleanTextIsClean(t: string)
    ensures IsCleanText(CleanText(t))
  {
  }

  /** A visible character kept by whitespace normalisation comes from its input. */
  lemma NormalizeKeepsVisible(k: string, n: string, i: int)
    requires n == NormalizeSpaces(k) && 0 <= i < |n| && !IsSpace(n[i])
    ensures n[i] in k
  {
    NormalizeSpacesVisible(k);
    VisibleMember(n, i);
    VisibleMembers(k, n[i]);
  }

  lemma {:induction false} VisibleMember(s: string, i: int)
    requires 0 <= i < |s| && !IsSpace(s[i])
    ensures s[i] in Visible(s)
  {
    if i > 0 {
      VisibleMember(s[1..], i - 1);
      VisibleAppend(s[..1], s[1..]);
      assert s == s[..1] + s[1..];
    } else {
      VisibleAppend(s[..1], s[1..]);
      assert s == s[..1] + s[1..];
      assert Visible(s[..1]) == [s[0]] by {
        assert s[..1][1..] == "";
      }
    }
  }

  lemma {:induction false} VisibleMembers(s: string, c: char)
    requires c in Visible(s)
    ensures c in s
  {
    if |s| > 0 && !(IsSpace(s[0]) == false && c == s[0]) {
      if c in Visible(s[1..]) {
        VisibleMembers(s[1..], c);
      }
    }
  }

  // ---------------------------------------------------------------------
  // Already clean text is a fixed point
  // ---------------------------------------------------------------------

  lemma {:induction false} KeepAllowedAll(s: string)
    requires forall i :: 0 <= i < |s| ==> IsAllowed(s[i])
    ensures KeepAllowed(s) == s
  {
    if |s| > 0 {
      KeepAllowedAll(s[1..]);
      assert s == [s[0]] + s[1..];
    }
  }

  lemma {:induction false} CollapseSpacesSingle(s: string)
    requires SingleSpaced(s)
    ensures CollapseSpaces(s) == s
  {
    if |s| > 0 {
      assert SingleSpaced(s[1..]) by {
        SingleSpacedSlice(s, 1, |s| - 1);
        assert s[1..][..|s| - 1] == s[1..];
      }
      CollapseSpacesSingle(s[1..]);
      if IsSpace(s[0]) {
        assert TrimStart(s[1..]) == s[1..] by {
          if |s| > 1 {
            assert !IsSpace(s[1]);
            assert s[1..][0] == s[1];
          }
        }
        assert s == [s[0]] + s[1..] && s[0] == ' ';
      } else {
        assert s == [s[0]] + s[1..];
      }
    }
  }

  /** No digit, comma, digit appears in `s`. */
  ghost predicate NoDigitComma(s: string)
  {
    forall i :: 0 <= i < |s| - 2 ==> !(IsDigit(s[i]) && s[i + 1] == ',' && IsDigit(s[i + 2]))
  }

  lemma {:induction false} DecimalPointsNone(s: string)
    requires NoDigitComma(s)
    ensures DecimalPoints(s) == s
  {
    if |s| > 0 {
      assert NoDigitComma(s[1..]) by {
        forall i | 0 <= i < |s[1..]| - 2 ensures !(IsDigit(s[1..][i]) && s[1..][i + 1] == ',' && IsDigit(s[1..][i + 2])) {
          assert s[1..][i] == s[i + 1] && s[1..][i + 1] == s[i + 2] && s[1..][i + 2] == s[i + 3];
        }
      }
      DecimalPointsNone(s[1..]);
      assert s == [s[0]] + s[1..];
    }
  }

  /**
   Text that is already clean (allowed characters, single plain spaces,
   no whitespace at the ends, no comma between digits) is left unchanged.
   */
  lemma CleanTextFixedPoint(s: string)
    requires forall i :: 0 <= i < |s| ==> IsAllowed(s[i])
    requires SingleSpaced(s)
    requires |s| > 0 ==> !IsSpace(s[0]) && !IsSpace(s[|s| - 1])
    requires NoDigitComma(s)
    ensures CleanText(s) == s
  {
    if |s| > 0 {
      KeepAllowedAll(s);
      CollapseSpacesSingle(s);
      assert TrimStart(s) == s;
      assert TrimEnd(s) == s;
      DecimalPointsNone(s);
    }
  }

  lemma DecimalPointsPercent()
    ensures DecimalPoints("5,25%") == "5.25%"
  {
    assert DecimalPoints("%") == "%";
    assert DecimalPoints("5%") == "5%";
  }

  lemma DecimalPointsThousands()
    ensures DecimalPoints("12,500,000") == "12.500.000"
  {
    assert DecimalPoints("2,500,000") == "2.500.000" by {
      DecimalPointsThousandsTail();
      assert "2,500,000" == ['2', ',', '5'] + "00,000";
      DecimalPointsPair('2', '5', "00,000");
    }
    assert "12,500,000" == ['1'] + "2,500,000";
    DecimalPointsLead('1', "2,500,000");
  }

  lemma DecimalPointsThousandsTail()
    ensures DecimalPoints("00,000") == "00.000"
  {
    assert DecimalPoints("00") == "00";
    assert DecimalPoints("0,000") == "0.000" by {
      DecimalPointsPair('0', '0', "00");
    }
  }

  /** A first character that does not open a digit, comma, digit is kept as it is. */
  lemma DecimalPointsLead(x: char, t: string)
    requires !(|t| >= 2 && IsDigit(x) && t[0] == ',' && IsDigit(t[1]))
    ensures DecimalPoints([x] + t) == [x] + DecimalPoints(t)
  {
    assert ([x] + t)[1..] == t;
  }

  /** A digit, a comma and a digit at the front become digit, point, digit. */
  lemma DecimalPointsPair(a: char, b: char, t: string)
    requires IsDigit(a) && IsDigit(b)
    ensures DecimalPoints([a, ',', b] + t) == [a, '.', b] + DecimalPoints(t)
  {
    assert ([a, ',', b] + t)[3..] == t;
  }

  /** Single digits separated by commas lose every other comma, so cleaning is not idempotent. */
  lemma DecimalPointsAlternate()
    ensures DecimalPoints("1,2,3") == "1.2,3"
    ensures DecimalPoints("1.2,3") == "1.2.3"
  {
    assert DecimalPoints("3") == "3";
    assert DecimalPoints(",3") == ",3";
    assert DecimalPoints(".2,3") == ".2.3";
  }

  /** Cleaning keeps the allowed characters, joins their words by single spaces, then turns digit commas into points. */
  lemma CleanTextIsWords(s: string)
    ensures CleanText(s) == DecimalPoints(JoinSpace(Words(KeepAllowed(s))))
  {
    CleanTextSteps(s);
    NormalizeSpacesWords(KeepAllowed(s));
  }

  lemma CleanTextSteps(s: string)
    ensures CleanText(s) == DecimalPoints(NormalizeSpaces(KeepAllowed(s)))
  {
    if |s| == 0 {
      assert NormalizeSpaces("") == "" by {
        NormalizeSpacesWords("");
        assert Words("") == [];
      }
    }
  }

  /**
   Two words of allowed characters with a whitespace run between them clean
   to the two words and one space (the shape of the routine's first test
   case, `NGÂN    HÀNG`).
   */
  lemma CleanTextTwoWords(a: string, gap: string, b: string)
    requires IsWord(a) && IsWord(b)
    requires forall i :: 0 <= i < |a| ==> IsAllowed(a[i])
    requires forall i :: 0 <= i < |b| ==> IsAllowed(b[i])
    requires |gap| > 0 && forall i :: 0 <= i < |gap| ==> IsSpace(gap[i])
    requires NoDigitComma(a + " " + b)
    ensures CleanText(a + gap + b) == a + " " + b
  {
    var s := a + gap + b;
    forall i | 0 <= i < |s| ensures IsAllowed(s[i]) {
      if i < |a| {
        assert s[i] == a[i];
      } else if i < |a| + |gap| {
        assert s[i] == gap[i - |a|];
      } else {
        assert s[i] == b[i - |a| - |gap|];
      }
    }
    KeepAllowedAll(s);
    CleanTextIsWords(s);
    WordsOfTwo(a, gap, b);
    JoinPair(a, b);
    DecimalPointsNone(a + " " + b);
  }

  lemma JoinPair(a: string, b: string)
    ensures JoinSpace([a, b]) == a + " " + b
  {
    assert [a, b][1..] == [b];
  }

  /** Two words with whitespace between them are exactly those two words. */
  lemma WordsOfTwo(a: string, gap: string, b: string)
    requires IsWord(a) && IsWord(b)
    requires |gap| > 0 && forall i :: 0 <= i < |gap| ==> IsSpace(gap[i])
    ensures Words(a + gap + b) == [a, b]
  {
    Regroup3(a, gap, b);
    WordsCons(a, gap + b);
    WordsAfterGap(gap, b);
    assert [a] + [b] == [a, b];
  }

  lemma WordsAfterGap(gap: string, b: string)
    requires IsWord(b)
    requires forall i :: 0 <= i < |gap| ==> IsSpace(gap[i])
    ensures Words(gap + b) == [b]
  {
    TrimStartSpaces(gap, b);
    WordsTrim(gap + b);
    WordsOne(b);
  }

  /** Leading whitespace separates no words. */
  lemma WordsTrim(s: string)
    ensures Words(s) == Words(TrimStart(s))
  {
    var t := TrimStart(s);
    if |t| > 0 {
      assert TrimStart(t) == t;
    }
  }

  /** A word followed by whitespace or nothing is the first of the words. */
  lemma WordsCons(w: string, rest: string)
    requires IsWord(w) && (|rest| == 0 || IsSpace(rest[0]))
    ensures Words(w + rest) == [w] + Words(rest)
  {
    WordLengthOf(w, rest);
    WordsStep(w + rest);
    SplitOf(w, rest);
  }

  lemma Regroup3(a: string, b: string, c: string)
    ensures a + b + c == a + (b + c)
  {
  }

  lemma SplitOf(a: string, b: string)
    ensures (a + b)[..|a|] == a && (a + b)[|a|..] == b
  {
  }

  lemma {:induction false} WordLengthOf(w: string, rest: string)
    requires IsWord(w) && (|rest| == 0 || IsSpace(rest[0]))
    ensures WordLength(w + rest) == |w|
  {
    if |w| > 1 {
      assert (w + rest)[1..] == w[1..] + rest;
      WordLengthOf(w[1..], rest);
    } else {
      assert (w + rest)[1..] == rest;
    }
  }

  lemma WordsOne(b: string)
    requires IsWord(b)
    ensures Words(b) == [b]
  {
    WordLengthOf(b, "");
    assert b + "" == b;
    WordsStep(b);
    assert b[|b|..] == "" && Words("") == [];
  }
}
