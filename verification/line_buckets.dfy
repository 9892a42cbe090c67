/**
 Bucketing merged fragments into table lines (mof_extractor.py): every
 fragment goes to the line keyed by its primary coordinate rounded to a
 whole number, lines keep their fragments in input order, and the lines
 come out in ascending key order.

 Python's `round(x, 0)` rounds half to even; it is modelled on exact reals.
 */
module LineBuckets {
  import opened Collections
  import opened Fragments

  /** Nearest integer to `x`; a tie goes to the even neighbour. */
  function RoundHalfEven(x: real): (k: int)
    ensures -0.5 <= x - k as real <= 0.5
    ensures x - k as real == 0.5 ==> k % 2 == 0
    ensures k as real - x == 0.5 ==> k % 2 == 0
  {
    var f := x.Floor;
    var d := x - f as real;
    if d < 0.5 then f
    else if d > 0.5 then f + 1
    else if f % 2 == 0 then f
    else f + 1
  }

  lemma RoundHalfEvenExamples()
    ensures RoundHalfEven(2.5) == 2 && RoundHalfEven(3.5) == 4
    ensures RoundHalfEven(-0.5) == 0 && RoundHalfEven(-1.5) == -2
    ensures RoundHalfEven(101.4) == 101 && RoundHalfEven(101.6) == 102
  {
  }

  /** Rounding is the identity on whole numbers. */
  lemma RoundHalfEvenWhole(k: int)
    ensures RoundHalfEven(k as real) == k
  {
  }

  function KeyOf(f: Fragment): int
  {
    RoundHalfEven(f.primary)
  }

  /** One table line: its key and the texts bucketed under it. */
  datatype Line = Line(key: int, texts: seq<string>)

  ghost predicate KeysAscending(lines: seq<Line>)
  {
    forall i, j :: 0 <= i < j < |lines| ==> lines[i].key < lines[j].key
  }

  /** The texts bucketed under `k`; empty when there is no such line. */
  function Lookup(lines: seq<Line>, k: int): seq<string>
  {
    if |lines| == 0 then []
    else if lines[0].key == k then lines[0].texts
    else Lookup(lines[1..], k)
  }

  /** Reference: the texts of the fragments whose key is `k`, in input order. */
  function TextsWithKey(fs: seq<Fragment>, k: int): seq<string>
  {
    if |fs| == 0 then []
    else TextsWithKey(fs[..|fs| - 1], k) + (if KeyOf(fs[|fs| - 1]) == k then [fs[|fs| - 1].text] else [])
  }

  /** Total number of texts held by the lines. */
  function Size(lines: seq<Line>): nat
  {
    if |lines| == 0 then 0 else |lines[0].texts| + Size(lines[1..])
  }

  /**
   Appends `t` to the line keyed `k`, creating that line at its sorted
   place when it does not exist yet (`lines.setdefault(k, []).append(t)`
   on an association list kept in key order).
   */
  function Place(lines: seq<Line>, k: int, t: string): (r: seq<Line>)
    requires KeysAscending(lines)
    ensures KeysAscending(r)
    ensures |r| > 0 && r[0].key == (if |lines| > 0 && lines[0].key < k then lines[0].key else k)
    ensures (forall i :: 0 <= i < |lines| ==> lines[i].texts != []) ==> forall i :: 0 <= i < |r| ==> r[i].texts != []
    ensures Size(r) == Size(lines) + 1
  {
    if |lines| == 0 then [Line(k, [t])]
    else if lines[0].key == k then [Line(k, lines[0].texts + [t])] + lines[1..]
    else if k < lines[0].key then [Line(k, [t])] + lines
    else
      var rest := Place(lines[1..], k, t);
      assert lines[0].key < rest[0].key;
      ConsAscending(lines[0], rest);
      [lines[0]] + rest
  }

  lemma ConsAscending(x: Line, rest: seq<Line>)
    requires KeysAscending(rest) && |rest| > 0 && x.key < rest[0].key
    ensures KeysAscending([x] + rest)
  {
    var r := [x] + rest;
    forall i, j | 0 <= i < j < |r| ensures r[i].key < r[j].key {
      if i == 0 && j > 1 {
        assert rest[0].key < rest[j - 1].key;
      }
    }
  }

  lemma {:induction false} PlaceLookup(lines: seq<Line>, k: int, t: string, q: int)
    requires KeysAscending(lines)
    ensures Lookup(Place(lines, k, t), q) == Lookup(lines, q) + (if q == k then [t] else [])
  {
    if |lines| > 0 {
      if lines[0].key == k {
        assert Place(lines, k, t)[1..] == lines[1..];
      } else if k < lines[0].key {
        assert Place(lines, k, t)[1..] == lines;
        if q == k {
          LookupAbsent(lines, k);
        }
      } else {
        PlaceLookup(lines[1..], k, t, q);
      }
    }
  }

  lemma {:induction false} LookupAbsent(lines: seq<Line>, k: int)
    requires KeysAscending(lines)
    requires |lines| > 0 && k < lines[0].key
    ensures Lookup(lines, k) == []
  {
    if |lines| > 1 {
      LookupAbsent(lines[1..], k);
    }
  }

  /**
   The lines of `fs`: one per distinct key, in ascending key order, each
   holding the texts of the fragments with that key in input order.
   */
  function Bucket(fs: seq<Fragment>): (r: seq<Line>)
    ensures KeysAscending(r)
    ensures forall i :: 0 <= i < |r| ==> r[i].texts != []
    ensures forall q :: Lookup(r, q) == TextsWithKey(fs, q)
    ensures Size(r) == |fs|
  {
    if |fs| == 0 then []
    else
      var prev := Bucket(fs[..|fs| - 1]);
      var last := fs[|fs| - 1];
      assert forall q :: Lookup(Place(prev, KeyOf(last), last.text), q) == TextsWithKey(fs, q) by {
        forall q ensures Lookup(Place(prev, KeyOf(last), last.text), q) == TextsWithKey(fs, q) {
          PlaceLookup(prev, KeyOf(last), last.text, q);
        }
      }
      Place(prev, KeyOf(last), last.text)
  }

  /** `Lookup` on ascending keys finds the line that carries the key. */
  lemma {:induction false} LookupAt(lines: seq<Line>, i: int)
    requires KeysAscending(lines) && 0 <= i < |lines|
    ensures Lookup(lines, lines[i].key) == lines[i].texts
  {
    if i > 0 {
      LookupAt(lines[1..], i - 1);
    }
  }

  lemma {:induction false} LookupFound(lines: seq<Line>, k: int)
    requires Lookup(lines, k) != []
    ensures exists i :: 0 <= i < |lines| && lines[i].key == k
  {
    if lines[0].key != k {
      LookupFound(lines[1..], k);
      var i :| 0 <= i < |lines[1..]| && lines[1..][i].key == k;
      assert lines[i + 1].key == k;
    }
  }

  lemma {:induction false} TextsWithKeyMember(fs: seq<Fragment>, k: int)
    ensures TextsWithKey(fs, k) != [] <==> exists j :: 0 <= j < |fs| && KeyOf(fs[j]) == k
  {
    if |fs| > 0 {
      var init := fs[..|fs| - 1];
      TextsWithKeyMember(init, k);
      if exists j :: 0 <= j < |init| && KeyOf(init[j]) == k {
        var j :| 0 <= j < |init| && KeyOf(init[j]) == k;
        assert KeyOf(fs[j]) == k;
      }
      if exists j :: 0 <= j < |fs| && KeyOf(fs[j]) == k {
        var j :| 0 <= j < |fs| && KeyOf(fs[j]) == k;
        if j < |fs| - 1 {
          assert KeyOf(init[j]) == k;
        }
      }
    }
  }

  lemma LineHasFragment(fs: seq<Fragment>, k: int, i: int)
    requires 0 <= i < |Bucket(fs)| && Bucket(fs)[i].key == k
    ensures exists j :: 0 <= j < |fs| && KeyOf(fs[j]) == k
  {
    var r := Bucket(fs);
    LookupAt(r, i);
    assert TextsWithKey(fs, k) == r[i].texts;
    TextsWithKeyMember(fs, k);
  }

  lemma FragmentHasLine(fs: seq<Fragment>, k: int, j: int)
    requires 0 <= j < |fs| && KeyOf(fs[j]) == k
    ensures exists i :: 0 <= i < |Bucket(fs)| && Bucket(fs)[i].key == k
  {
    var r := Bucket(fs);
    TextsWithKeyMember(fs, k);
    assert Lookup(r, k) == TextsWithKey(fs, k);
    LookupFound(r, k);
  }

  /** There is a line for a key exactly when some fragment rounds to that key. */
  lemma BucketLines(fs: seq<Fragment>, k: int)
    ensures (exists i :: 0 <= i < |Bucket(fs)| && Bucket(fs)[i].key == k)
        <==> (exists j :: 0 <= j < |fs| && KeyOf(fs[j]) == k)
  {
    if exists i :: 0 <= i < |Bucket(fs)| && Bucket(fs)[i].key == k {
      var i :| 0 <= i < |Bucket(fs)| && Bucket(fs)[i].key == k;
      LineHasFragment(fs, k, i);
    }
    if exists j :: 0 <= j < |fs| && KeyOf(fs[j]) == k {
      var j :| 0 <= j < |fs| && KeyOf(fs[j]) == k;
      FragmentHasLine(fs, k, j);
    }
  }

  /** Each line of the bucketing holds exactly the texts of the fragments with its key. */
  lemma BucketRowsByKey(fs: seq<Fragment>)
    ensures forall i :: 0 <= i < |Bucket(fs)| ==> Rows(Bucket(fs))[i] == TextsWithKey(fs, Bucket(fs)[i].key)
  {
    var r := Bucket(fs);
    forall i | 0 <= i < |r| ensures Rows(r)[i] == TextsWithKey(fs, r[i].key) {
      LookupAt(r, i);
    }
  }

  /** The texts of the lines, in line order. */
  function Rows(lines: seq<Line>): (rows: seq<seq<string>>)
    ensures |rows| == |lines|
    ensures forall i :: 0 <= i < |lines| ==> rows[i] == lines[i].texts
  {
    seq(|lines|, i requires 0 <= i < |lines| => lines[i].texts)
  }

  lemma {:induction false} RowsTotal(lines: seq<Line>)
    ensures TotalLength(Rows(lines)) == Size(lines)
  {
    if |lines| > 0 {
      RowsTotal(lines[1..]);
      assert Rows(lines)[1..] == Rows(lines[1..]);
    }
  }

  /** Bucketing keeps every fragment's text: the line sizes add up to the input length. */
  lemma BucketKeepsAll(fs: seq<Fragment>)
    ensures TotalLength(Rows(Bucket(fs))) == |fs|
  {
    RowsTotal(Bucket(fs));
  }

  /** Fragments that all round to one key form a single line holding all their texts in order. */
  lemma {:induction false} BucketSameKey(fs: seq<Fragment>, k: int)
    requires |fs| > 0
    requires forall j :: 0 <= j < |fs| ==> KeyOf(fs[j]) == k
    ensures Bucket(fs) == [Line(k, Texts(fs))]
  {
    if |fs| == 1 {
      assert fs[..0] == [];
      assert Texts(fs) == [fs[0].text];
    } else {
      BucketSameKey(fs[..|fs| - 1], k);
      assert Texts(fs) == Texts(fs[..|fs| - 1]) + [fs[|fs| - 1].text];
    }
  }
}
