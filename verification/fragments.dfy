/**
 The two merge strategies the MOF extractor applies to positioned text
 fragments before bucketing them into lines (mof_extractor.py).

 A fragment is the triple `(primary, secondary, text)` built from a span's
 `top` and `left` style values; which of the two is primary depends on the
 processing method. Both strategies cut the input into consecutive chunks
 and replace each chunk by one fragment carrying the chunk's texts joined by
 single spaces. They differ in how they cut and what coordinates they keep:
 - `MergePairs` (process_adjacent_coordinates) pairs an item with the next
   one when their primary coordinates are equal, never more than two, and
   keeps the centroid of the pair (`Collapse`);
 - `MergeRuns` (process_adjacent_coordinates2) takes every maximal run of
   consecutive items with the same secondary coordinate, and keeps the mean
   primary coordinate and the shared secondary one (`RunCollapse`).
 */
module Fragments {
  import opened Collections
  import opened Text

  datatype Fragment = Fragment(primary: real, secondary: real, text: string)

  function Texts(c: seq<Fragment>): (r: seq<string>)
    ensures |r| == |c|
    ensures forall i :: 0 <= i < |c| ==> r[i] == c[i].text
  {
    seq(|c|, i requires 0 <= i < |c| => c[i].text)
  }

  function SumPrimary(c: seq<Fragment>): real
  {
    if |c| == 0 then 0.0 else c[0].primary + SumPrimary(c[1..])
  }

  function SumSecondary(c: seq<Fragment>): real
  {
    if |c| == 0 then 0.0 else c[0].secondary + SumSecondary(c[1..])
  }

  /** Arithmetic mean of `count` values adding up to `total`. */
  function Mean(total: real, count: nat): real
    requires count > 0
  {
    total / (count as real)
  }

  /** The centroid of a chunk, carrying the chunk's texts joined by spaces. */
  function Collapse(c: seq<Fragment>): Fragment
    requires |c| > 0
  {
    Fragment(Mean(SumPrimary(c), |c|), Mean(SumSecondary(c), |c|), JoinSpace(Texts(c)))
  }

  function CollapseAll(chunks: seq<seq<Fragment>>): (r: seq<Fragment>)
    requires forall k :: 0 <= k < |chunks| ==> |chunks[k]| > 0
    ensures |r| == |chunks|
    ensures forall k :: 0 <= k < |chunks| ==> r[k] == Collapse(chunks[k])
  {
    if |chunks| == 0 then [] else [Collapse(chunks[0])] + CollapseAll(chunks[1..])
  }

  lemma CollapseSingle(a: Fragment)
    ensures Collapse([a]) == a
  {
    assert [a][1..] == [];
    assert SumPrimary([a]) == a.primary;
    assert SumSecondary([a]) == a.secondary;
    assert Texts([a]) == [a.text];
    assert JoinSpace([a.text]) == a.text;
  }

  lemma {:induction false} TextsAppend(a: seq<Fragment>, b: seq<Fragment>)
    ensures Texts(a + b) == Texts(a) + Texts(b)
  {
  }

  /**
   Replacing each chunk by one fragment carrying the chunk's space-joined
   texts never loses or reorders text.
   */
  lemma {:induction false} ChunkTextsJoin(r: seq<Fragment>, chunks: seq<seq<Fragment>>)
    requires |r| == |chunks|
    requires forall k :: 0 <= k < |chunks| ==> |chunks[k]| > 0 && r[k].text == JoinSpace(Texts(chunks[k]))
    ensures JoinSpace(Texts(r)) == JoinSpace(Texts(Flatten(chunks)))
  {
    if |chunks| > 0 {
      var rest := chunks[1..];
      ChunkTextsJoin(r[1..], rest);
      assert Texts(r) == [r[0].text] + Texts(r[1..]);
      assert Texts(Flatten(chunks)) == Texts(chunks[0]) + Texts(Flatten(rest)) by {
        TextsAppend(chunks[0], Flatten(rest));
      }
      assert |rest| > 0 ==> |Flatten(rest)| > 0 by {
        if |rest| > 0 {
          assert Flatten(rest) == rest[0] + Flatten(rest[1..]);
        }
      }
      JoinStep(r[0].text, Texts(chunks[0]), Texts(r[1..]), Texts(Flatten(rest)));
    }
  }

  /** One joined chunk in front of texts that join like the rest of the chunks. */
  lemma JoinStep(a: string, ta: seq<string>, rb: seq<string>, tb: seq<string>)
    requires |ta| > 0 && a == JoinSpace(ta)
    requires JoinSpace(rb) == JoinSpace(tb) && (|rb| > 0 ==> |tb| > 0) && (|rb| == 0 ==> tb == [])
    ensures JoinSpace([a] + rb) == JoinSpace(ta + tb)
  {
    if |rb| == 0 {
      assert [a] + rb == [a] && ta + tb == ta;
    } else {
      JoinSpaceAppend([a], rb);
      JoinSpaceAppend(ta, tb);
    }
  }

  // ---------------------------------------------------------------------
  // Adjacent-pair merge (process_adjacent_coordinates)
  // ---------------------------------------------------------------------

  /** Two neighbours with equal primary coordinate: keep it, average the secondary, join the texts. */
  function MergePair(a: Fragment, b: Fragment): Fragment
  {
    Fragment(a.primary, (a.secondary + b.secondary) / 2.0, a.text + " " + b.text)
  }

  /**
   One left-to-right pass that merges an item with its successor when their
   primary coordinates are equal and consumes both; a trailing unpaired item
   is kept as it is.
   */
  function MergePairs(s: seq<Fragment>): (r: seq<Fragment>)
    ensures |s| <= 1 ==> r == s
    ensures (|s| + 1) / 2 <= |r| <= |s|
    ensures |s| > 0 ==> |r| > 0 && r[0].primary == s[0].primary
    decreases |s|
  {
    if |s| < 2 then s
    else if s[0].primary == s[1].primary then [MergePair(s[0], s[1])] + MergePairs(s[2..])
    else [s[0]] + MergePairs(s[1..])
  }

  /**
   The chunking `MergePairs` performs: consecutive chunks of one or two
   items covering `s`; a chunk of two has equal primary coordinates, and a
   chunk of one that is followed by another chunk differs in primary
   coordinate from the item after it (otherwise they would have paired).
   */
  ghost predicate IsPairChunking(s: seq<Fragment>, chunks: seq<seq<Fragment>>)
  {
    && Flatten(chunks) == s
    && (forall k :: 0 <= k < |chunks| ==> 1 <= |chunks[k]| <= 2)
    && (forall k :: 0 <= k < |chunks| && |chunks[k]| == 2 ==> chunks[k][0].primary == chunks[k][1].primary)
    && (forall k :: 0 <= k < |chunks| - 1 && |chunks[k]| == 1 ==> chunks[k][0].primary != chunks[k + 1][0].primary)
  }

  function PairChunks(s: seq<Fragment>): seq<seq<Fragment>>
    decreases |s|
  {
    if |s| == 0 then []
    else if |s| >= 2 && s[0].primary == s[1].primary then [s[..2]] + PairChunks(s[2..])
    else [s[..1]] + PairChunks(s[1..])
  }

  lemma {:induction false} PairChunksFirst(s: seq<Fragment>)
    requires |s| > 0
    ensures |PairChunks(s)| > 0 && |PairChunks(s)[0]| > 0 && PairChunks(s)[0][0] == s[0]
  {
  }

  /** Every input has a pair chunking. */
  lemma {:induction false} PairChunksValid(s: seq<Fragment>)
    ensures IsPairChunking(s, PairChunks(s))
    decreases |s|
  {
    if |s| > 0 {
      var n := if |s| >= 2 && s[0].primary == s[1].primary then 2 else 1;
      var rest := PairChunks(s[n..]);
      assert PairChunks(s) == [s[..n]] + rest;
      assert IsPairChunking(s[n..], rest) by {
        PairChunksValid(s[n..]);
      }
      if n == 1 && |rest| > 0 {
        PairChunksFirst(s[1..]);
        assert s[..1][0] == s[0];
      }
      assert s == s[..n] + s[n..];
      ConsPairChunking(s, s[..n], s[n..], rest);
    }
  }

  /** A valid leading chunk in front of a pair chunking is a pair chunking. */
  lemma ConsPairChunking(s: seq<Fragment>, c: seq<Fragment>, t: seq<Fragment>, rest: seq<seq<Fragment>>)
    requires s == c + t && IsPairChunking(t, rest)
    requires 1 <= |c| <= 2 && (|c| == 2 ==> c[0].primary == c[1].primary)
    requires |c| == 1 && |rest| > 0 ==> c[0].primary != rest[0][0].primary
    ensures IsPairChunking(s, [c] + rest)
  {
    var chunks := [c] + rest;
    FlattenCons(c, rest);
    forall k | 0 <= k < |chunks| ensures 1 <= |chunks[k]| <= 2 {
      if k > 0 {
        assert chunks[k] == rest[k - 1];
      }
    }
    forall k | 0 <= k < |chunks| && |chunks[k]| == 2 ensures chunks[k][0].primary == chunks[k][1].primary {
      if k > 0 {
        assert chunks[k] == rest[k - 1];
      }
    }
    forall k | 0 <= k < |chunks| - 1 && |chunks[k]| == 1
      ensures chunks[k][0].primary != chunks[k + 1][0].primary
    {
      assert chunks[k + 1] == rest[k];
      if k > 0 {
        assert chunks[k] == rest[k - 1];
      }
    }
  }

  /** The pair merge is exactly the collapse of a pair chunking of its input. */
  lemma {:induction false} MergePairsIsCollapse(s: seq<Fragment>, chunks: seq<seq<Fragment>>)
    requires IsPairChunking(s, chunks)
    ensures MergePairs(s) == CollapseAll(chunks)
    decreases |chunks|
  {
    if |chunks| > 0 {
      var c, rest := chunks[0], chunks[1..];
      assert s == c + Flatten(rest);
      assert IsPairChunking(Flatten(rest), rest) by {
        PairChunkingTail(chunks);
      }
      MergePairsIsCollapse(Flatten(rest), rest);
      assert CollapseAll(chunks) == [Collapse(c)] + CollapseAll(rest);
      if |c| == 2 {
        MergeFirstPair(c, Flatten(rest));
      } else {
        assert c == [c[0]];
        assert |rest| > 0 ==> |rest[0]| > 0 && c[0].primary != rest[0][0].primary;
        MergeFirstSingle(c[0], rest);
      }
    }
  }

  lemma PairChunkingTail(chunks: seq<seq<Fragment>>)
    requires IsPairChunking(Flatten(chunks), chunks) && |chunks| > 0
    ensures IsPairChunking(Flatten(chunks[1..]), chunks[1..])
  {
    var rest: seq<seq<Fragment>> := chunks[1..];
    forall k | 0 <= k < |rest| - 1 && |rest[k]| == 1
      ensures rest[k][0].primary != rest[k + 1][0].primary
    {
      assert rest[k] == chunks[k + 1] && rest[k + 1] == chunks[k + 2];
    }
  }

  /** A leading pair of equal primary coordinate is merged into its centroid. */
  lemma MergeFirstPair(c: seq<Fragment>, t: seq<Fragment>)
    requires |c| == 2 && c[0].primary == c[1].primary
    ensures MergePairs(c + t) == [Collapse(c)] + MergePairs(t)
  {
    var s := c + t;
    assert s[..2] == c && s[2..] == t;
    assert Collapse(c) == MergePair(c[0], c[1]) by {
      assert c[1..][1..] == [];
      assert SumPrimary(c[1..]) == c[1].primary + SumPrimary(c[1..][1..]);
      assert SumSecondary(c[1..]) == c[1].secondary + SumSecondary(c[1..][1..]);
      assert Texts(c) == [c[0].text, c[1].text];
      assert Texts(c)[1..] == [c[1].text];
      assert JoinSpace(Texts(c)) == c[0].text + " " + c[1].text;
    }
  }

  /** A leading item whose successor differs in primary coordinate is kept as it is. */
  lemma MergeFirstSingle(a: Fragment, rest: seq<seq<Fragment>>)
    requires forall k :: 0 <= k < |rest| ==> |rest[k]| > 0
    requires |rest| > 0 ==> a.primary != rest[0][0].primary
    ensures MergePairs([a] + Flatten(rest)) == [Collapse([a])] + MergePairs(Flatten(rest))
  {
    CollapseSingle(a);
    var s := [a] + Flatten(rest);
    assert s[1..] == Flatten(rest);
    if |rest| > 0 {
      assert Flatten(rest) == rest[0] + Flatten(rest[1..]);
      assert s[1] == rest[0][0];
    }
  }

  /** When no two neighbours share a primary coordinate, the pair merge is the identity. */
  lemma {:induction false} MergePairsNoAdjacentEqual(s: seq<Fragment>)
    requires forall i :: 0 <= i < |s| - 1 ==> s[i].primary != s[i + 1].primary
    ensures MergePairs(s) == s
    decreases |s|
  {
    if |s| >= 2 {
      MergePairsNoAdjacentEqual(s[1..]);
      assert s == [s[0]] + s[1..];
    }
  }

  /** The pair merge keeps every text, in order. */
  lemma MergePairsKeepsText(s: seq<Fragment>)
    ensures JoinSpace(Texts(MergePairs(s))) == JoinSpace(Texts(s))
  {
    PairChunksValid(s);
    MergePairsIsCollapse(s, PairChunks(s));
    ChunkTextsJoin(MergePairs(s), PairChunks(s));
  }

  // ---------------------------------------------------------------------
  // Run-length merge (process_adjacent_coordinates2)
  // ---------------------------------------------------------------------

  /** Length of the longest prefix of `s` whose secondary coordinate is `y`. */
  function RunLength(s: seq<Fragment>, y: real): (n: nat)
    ensures n <= |s|
    ensures forall i :: 0 <= i < n ==> s[i].secondary == y
    ensures n < |s| ==> s[n].secondary != y
  {
    if |s| > 0 && s[0].secondary == y then 1 + RunLength(s[1..], y) else 0
  }

  /** No two neighbours share a secondary coordinate. */
  ghost predicate SecondaryAlwaysChanges(r: seq<Fragment>)
  {
    forall i, j :: 0 <= i < j < |r| && j == i + 1 ==> r[i].secondary != r[j].secondary
  }

  /**
   One left-to-right pass that gathers every maximal run of consecutive
   items with equal secondary coordinate into one item: mean primary
   coordinate, the shared secondary coordinate, texts joined by spaces. A
   single item left at the end is appended as it is.
   */
  function MergeRuns(s: seq<Fragment>): (r: seq<Fragment>)
    ensures |r| <= |s|
    ensures |s| > 0 ==> |r| > 0 && r[0].secondary == s[0].secondary
    ensures SecondaryAlwaysChanges(r)
    decreases |s|
  {
    if |s| == 0 then []
    else if |s| == 1 then [s[0]]
    else
      var n := 1 + RunLength(s[1..], s[0].secondary);
      [RunCollapse(s[..n])] + MergeRuns(s[n..])
  }

  /** A run collapses onto its mean primary coordinate and its shared secondary coordinate. */
  function RunCollapse(c: seq<Fragment>): Fragment
    requires |c| > 0
  {
    Fragment(Mean(SumPrimary(c), |c|), c[0].secondary, JoinSpace(Texts(c)))
  }

  function RunCollapseAll(chunks: seq<seq<Fragment>>): (r: seq<Fragment>)
    requires forall k :: 0 <= k < |chunks| ==> |chunks[k]| > 0
    ensures |r| == |chunks|
    ensures forall k :: 0 <= k < |chunks| ==> r[k] == RunCollapse(chunks[k])
  {
    if |chunks| == 0 then [] else [RunCollapse(chunks[0])] + RunCollapseAll(chunks[1..])
  }

  lemma RunCollapseSingle(a: Fragment)
    ensures RunCollapse([a]) == a
  {
    assert [a][1..] == [];
    assert SumPrimary([a]) == a.primary;
    assert Texts([a]) == [a.text];
  }

  /**
   The maximal runs of equal secondary coordinate: non-empty consecutive
   chunks covering `s`, constant within, and neighbouring chunks differ.
   */
  ghost predicate IsRunChunking(s: seq<Fragment>, chunks: seq<seq<Fragment>>)
  {
    && Flatten(chunks) == s
    && (forall k :: 0 <= k < |chunks| ==> |chunks[k]| > 0)
    && (forall k, j :: 0 <= k < |chunks| && 0 <= j < |chunks[k]| ==> chunks[k][j].secondary == chunks[k][0].secondary)
    && (forall k :: 0 <= k < |chunks| - 1 ==> chunks[k][0].secondary != chunks[k + 1][0].secondary)
  }

  function RunChunks(s: seq<Fragment>): seq<seq<Fragment>>
    decreases |s|
  {
    if |s| == 0 then []
    else
      var n := 1 + RunLength(s[1..], s[0].secondary);
      [s[..n]] + RunChunks(s[n..])
  }

  /** Every input has a run chunking. */
  lemma {:induction false} RunChunksValid(s: seq<Fragment>)
    ensures IsRunChunking(s, RunChunks(s))
    decreases |s|
  {
    if |s| > 0 {
      var n := 1 + RunLength(s[1..], s[0].secondary);
      var rest := RunChunks(s[n..]);
      assert RunChunks(s) == [s[..n]] + rest;
      assert IsRunChunking(s[n..], rest) by {
        RunChunksValid(s[n..]);
      }
      FirstRun(s);
      if n < |s| {
        RunChunksFirst(s[n..]);
      }
      assert s == s[..n] + s[n..];
      ConsRunChunking(s, s[..n], s[n..], rest);
    }
  }

  /** The first run is constant, and the item after it differs. */
  lemma FirstRun(s: seq<Fragment>)
    requires |s| > 0
    ensures var n := 1 + RunLength(s[1..], s[0].secondary);
      && (forall j :: 0 <= j < n ==> s[..n][j].secondary == s[..n][0].secondary)
      && (n < |s| ==> s[n].secondary != s[0].secondary)
  {
    var n := 1 + RunLength(s[1..], s[0].secondary);
    forall j | 0 <= j < n ensures s[..n][j].secondary == s[..n][0].secondary {
      if j > 0 {
        assert s[..n][j] == s[1..][j - 1];
      }
    }
    if n < |s| {
      assert s[n] == s[1..][n - 1];
    }
  }

  lemma RunChunksFirst(s: seq<Fragment>)
    requires |s| > 0
    ensures |RunChunks(s)| > 0 && |RunChunks(s)[0]| > 0 && RunChunks(s)[0][0] == s[0]
  {
  }

  /** A constant run in front of a run chunking whose first run differs is a run chunking. */
  lemma ConsRunChunking(s: seq<Fragment>, c: seq<Fragment>, t: seq<Fragment>, rest: seq<seq<Fragment>>)
    requires s == c + t && IsRunChunking(t, rest)
    requires |c| > 0 && forall j :: 0 <= j < |c| ==> c[j].secondary == c[0].secondary
    requires |rest| > 0 ==> c[0].secondary != rest[0][0].secondary
    ensures IsRunChunking(s, [c] + rest)
  {
    var chunks := [c] + rest;
    FlattenCons(c, rest);
    forall k | 0 <= k < |chunks| ensures |chunks[k]| > 0 {
      if k > 0 {
        assert chunks[k] == rest[k - 1];
      }
    }
    forall k, j | 0 <= k < |chunks| && 0 <= j < |chunks[k]|
      ensures chunks[k][j].secondary == chunks[k][0].secondary
    {
      if k > 0 {
        assert chunks[k] == rest[k - 1];
      }
    }
    forall k | 0 <= k < |chunks| - 1
      ensures chunks[k][0].secondary != chunks[k + 1][0].secondary
    {
      assert chunks[k + 1] == rest[k];
      if k > 0 {
        assert chunks[k] == rest[k - 1];
      }
    }
  }

  lemma RunChunkingTail(s: seq<Fragment>, chunks: seq<seq<Fragment>>)
    requires IsRunChunking(s, chunks) && |chunks| > 0
    ensures s == chunks[0] + Flatten(chunks[1..])
    ensures IsRunChunking(Flatten(chunks[1..]), chunks[1..])
  {
    var rest: seq<seq<Fragment>> := chunks[1..];
    forall k, j | 0 <= k < |rest| && 0 <= j < |rest[k]|
      ensures rest[k][j].secondary == rest[k][0].secondary
    {
      assert rest[k] == chunks[k + 1];
    }
    forall k | 0 <= k < |rest| - 1
      ensures rest[k][0].secondary != rest[k + 1][0].secondary
    {
      assert rest[k] == chunks[k + 1] && rest[k + 1] == chunks[k + 2];
    }
  }

  /** The first run the merge gathers is exactly the first chunk. */
  lemma RunChunkingHead(s: seq<Fragment>, chunks: seq<seq<Fragment>>)
    requires IsRunChunking(s, chunks) && |s| >= 2
    ensures |chunks| > 0
    ensures 1 + RunLength(s[1..], s[0].secondary) == |chunks[0]|
  {
    RunChunkingTail(s, chunks);
    var c, rest := chunks[0], chunks[1..];
    var n := 1 + RunLength(s[1..], s[0].secondary);
    assert c[0] == s[0];
    if |rest| > 0 {
      assert Flatten(rest) == rest[0] + Flatten(rest[1..]);
      assert s[|c|] == rest[0][0];
      assert chunks[1] == rest[0];
    }
  }

  /** The run merge is exactly the collapse of the maximal runs of its input. */
  lemma {:induction false} MergeRunsIsCollapse(s: seq<Fragment>, chunks: seq<seq<Fragment>>)
    requires IsRunChunking(s, chunks)
    ensures MergeRuns(s) == RunCollapseAll(chunks)
    decreases |chunks|
  {
    if |chunks| > 0 {
      RunChunkingTail(s, chunks);
      var c, rest := chunks[0], chunks[1..];
      MergeRunsIsCollapse(Flatten(rest), rest);
      if |s| == 1 {
        assert c == [s[0]];
        RunCollapseSingle(s[0]);
      } else {
        RunChunkingHead(s, chunks);
        assert s[..|c|] == c && s[|c|..] == Flatten(rest);
      }
    }
  }

  /** One output per maximal run, and the run sizes add up to the input length. */
  lemma MergeRunsCount(s: seq<Fragment>, chunks: seq<seq<Fragment>>)
    requires IsRunChunking(s, chunks)
    ensures |MergeRuns(s)| == |chunks|
    ensures TotalLength(chunks) == |s|
  {
    MergeRunsIsCollapse(s, chunks);
    FlattenLength(chunks);
  }

  /** On input whose neighbours always differ in secondary coordinate the run merge is the identity. */
  lemma {:induction false} MergeRunsOnDistinct(t: seq<Fragment>)
    requires SecondaryAlwaysChanges(t)
    ensures MergeRuns(t) == t
    decreases |t|
  {
    if |t| >= 2 {
      assert SecondaryAlwaysChanges(t[1..]) by {
        assert forall i :: 0 <= i < |t| - 1 ==> t[1..][i] == t[i + 1];
      }
      MergeRunsOnDistinct(t[1..]);
      assert MergeRuns(t) == [t[0]] + MergeRuns(t[1..]) by {
        assert RunLength(t[1..], t[0].secondary) == 0;
        assert t[..1] == [t[0]];
        RunCollapseSingle(t[0]);
      }
      assert [t[0]] + t[1..] == t;
    }
  }

  /** Re-merging the output of the run merge changes nothing. */
  lemma MergeRunsIdempotent(s: seq<Fragment>)
    ensures MergeRuns(MergeRuns(s)) == MergeRuns(s)
  {
    MergeRunsOnDistinct(MergeRuns(s));
  }

  /** The run merge keeps every text, in order. */
  lemma MergeRunsKeepsText(s: seq<Fragment>)
    ensures JoinSpace(Texts(MergeRuns(s))) == JoinSpace(Texts(s))
  {
    RunChunksValid(s);
    MergeRunsIsCollapse(s, RunChunks(s));
    ChunkTextsJoin(MergeRuns(s), RunChunks(s));
  }
}
