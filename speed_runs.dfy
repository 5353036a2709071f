/**
 * What TrackSegment.extractByTopSpeed computes, as functions on the point list
 * (src/at/home/bernd/TrackSegment.java:93-123).
 *
 * `ScanFrom` is the loop itself: the emitted segments so far, the candidate
 * segment and the position. `MaximalRuns` is an independent description: the
 * maximal stretches of consecutive points faster than the threshold. The lemmas
 * prove that the scan keeps exactly the maximal runs longer than `minPoints`.
 */
module SpeedRuns {
  import opened Points

  /** A point takes part in a run when its speed is strictly above the threshold. */
  predicate Fast(p: TrackPoint, threshold: real)
  {
    p.speed > threshold
  }

  /** The candidate is handed on when it holds strictly more than minPoints points. */
  function Close(done: seq<seq<TrackPoint>>, candidate: seq<TrackPoint>, minPoints: int): seq<seq<TrackPoint>>
  {
    if |candidate| > minPoints then done + [candidate] else done
  }

  /** The scan of extractByTopSpeed from position i, including the check of the last candidate. */
  function ScanFrom(pts: seq<TrackPoint>, threshold: real, minPoints: int,
                    done: seq<seq<TrackPoint>>, candidate: seq<TrackPoint>, i: nat): seq<seq<TrackPoint>>
    requires i <= |pts|
    decreases |pts| - i
  {
    if i == |pts| then Close(done, candidate, minPoints)
    else if Fast(pts[i], threshold) then ScanFrom(pts, threshold, minPoints, done, candidate + [pts[i]], i + 1)
    else ScanFrom(pts, threshold, minPoints, Close(done, candidate, minPoints), [], i + 1)
  }

  /** The segments extractByTopSpeed returns, as point lists. */
  function Extract(pts: seq<TrackPoint>, threshold: real, minPoints: int): seq<seq<TrackPoint>>
  {
    ScanFrom(pts, threshold, minPoints, [], [], 0)
  }

  /** A half-open index range [start, end) of a point list. */
  datatype Run = Run(start: nat, end: nat)

  /** r is a maximal stretch of fast points: non-empty, all fast, and bounded by slow points or the ends. */
  predicate IsMaximalRun(pts: seq<TrackPoint>, threshold: real, r: Run)
  {
    && r.start < r.end <= |pts|
    && (forall k | r.start <= k < r.end :: Fast(pts[k], threshold))
    && (r.start == 0 || !Fast(pts[r.start - 1], threshold))
    && (r.end == |pts| || !Fast(pts[r.end], threshold))
  }

  /** The first position at or after i whose point is not fast (or the end of the list). */
  function RunEnd(pts: seq<TrackPoint>, threshold: real, i: nat): (e: nat)
    requires i <= |pts|
    ensures i <= e <= |pts|
    ensures forall k | i <= k < e :: Fast(pts[k], threshold)
    ensures e < |pts| ==> !Fast(pts[e], threshold)
    decreases |pts| - i
  {
    if i == |pts| || !Fast(pts[i], threshold) then i else RunEnd(pts, threshold, i + 1)
  }

  /** The maximal runs that start at or after i, in order; i must not lie inside a run. */
  function RunsFrom(pts: seq<TrackPoint>, threshold: real, i: nat): seq<Run>
    requires i <= |pts|
    requires i == 0 || !Fast(pts[i - 1], threshold)
    decreases |pts| - i
  {
    if i == |pts| then []
    else if !Fast(pts[i], threshold) then RunsFrom(pts, threshold, i + 1)
    else
      var e := RunEnd(pts, threshold, i);
      [Run(i, e)] + (if e == |pts| then [] else RunsFrom(pts, threshold, e + 1))
  }

  /** All maximal runs of fast points, in input order. */
  function MaximalRuns(pts: seq<TrackPoint>, threshold: real): seq<Run>
  {
    RunsFrom(pts, threshold, 0)
  }

  /** runs are maximal runs of pts, each starting at or after i, in strictly increasing order. */
  predicate OrderedMaximalRuns(pts: seq<TrackPoint>, threshold: real, runs: seq<Run>, i: nat)
  {
    && (forall k | 0 <= k < |runs| :: i <= runs[k].start && IsMaximalRun(pts, threshold, runs[k]))
    && (forall k, l | 0 <= k < l < |runs| :: runs[k].end < runs[l].start)
  }

  /** RunsFrom lists maximal runs only, each starting at or after i, in strictly increasing order. */
  lemma {:induction false} RunsFromSound(pts: seq<TrackPoint>, threshold: real, i: nat)
    requires i <= |pts|
    requires i == 0 || !Fast(pts[i - 1], threshold)
    ensures OrderedMaximalRuns(pts, threshold, RunsFrom(pts, threshold, i), i)
    decreases |pts| - i
  {
    if i == |pts| {
    } else if !Fast(pts[i], threshold) {
      RunsFromSound(pts, threshold, i + 1);
      assert RunsFrom(pts, threshold, i) == RunsFrom(pts, threshold, i + 1);
    } else {
      var e := RunEnd(pts, threshold, i);
      var runs := RunsFrom(pts, threshold, i);
      assert e == RunEnd(pts, threshold, i + 1);
      assert IsMaximalRun(pts, threshold, Run(i, e));
      if e == |pts| {
        assert runs == [Run(i, e)];
      } else {
        var rest := RunsFrom(pts, threshold, e + 1);
        RunsFromSound(pts, threshold, e + 1);
        assert runs == [Run(i, e)] + rest;
        ConsOrderedMaximalRuns(pts, threshold, Run(i, e), rest);
      }
    }
  }

  /** A maximal run followed by ordered maximal runs that start after it. */
  lemma ConsOrderedMaximalRuns(pts: seq<TrackPoint>, threshold: real, r: Run, rest: seq<Run>)
    requires IsMaximalRun(pts, threshold, r)
    requires OrderedMaximalRuns(pts, threshold, rest, r.end + 1)
    ensures OrderedMaximalRuns(pts, threshold, [r] + rest, r.start)
  {
    var runs := [r] + rest;
    assert forall k | 1 <= k < |runs| :: runs[k] == rest[k - 1];
  }

  /** MaximalRuns lists maximal runs only, in input order. */
  lemma MaximalRunsSound(pts: seq<TrackPoint>, threshold: real)
    ensures OrderedMaximalRuns(pts, threshold, MaximalRuns(pts, threshold), 0)
  {
    RunsFromSound(pts, threshold, 0);
  }

  /** The runs holding strictly more than minPoints points, in order. */
  function Longer(runs: seq<Run>, minPoints: int): seq<Run>
  {
    if runs == [] then []
    else (if runs[0].end - runs[0].start > minPoints then [runs[0]] else []) + Longer(runs[1..], minPoints)
  }

  /** Longer keeps a run if and only if it is one of the given runs and holds more than minPoints points. */
  lemma {:induction false} LongerMembers(runs: seq<Run>, minPoints: int, r: Run)
    ensures r in Longer(runs, minPoints) <==> r in runs && r.end - r.start > minPoints
    decreases |runs|
  {
    if runs != [] {
      LongerMembers(runs[1..], minPoints, r);
      assert runs == [runs[0]] + runs[1..];
    }
  }

  /** The point lists that the runs delimit. */
  function Slices(pts: seq<TrackPoint>, runs: seq<Run>): (segs: seq<seq<TrackPoint>>)
    ensures |segs| == |runs|
  {
    if runs == [] then []
    else
      var r := runs[0];
      [if r.start <= r.end <= |pts| then pts[r.start..r.end] else []] + Slices(pts, runs[1..])
  }

  lemma {:induction false} LongerAppend(a: seq<Run>, b: seq<Run>, minPoints: int)
    ensures Longer(a + b, minPoints) == Longer(a, minPoints) + Longer(b, minPoints)
    decreases |a|
  {
    if a != [] {
      assert (a + b)[1..] == a[1..] + b;
      LongerAppend(a[1..], b, minPoints);
    } else {
      assert a + b == b;
    }
  }

  lemma {:induction false} SlicesAppend(pts: seq<TrackPoint>, a: seq<Run>, b: seq<Run>)
    ensures Slices(pts, a + b) == Slices(pts, a) + Slices(pts, b)
    decreases |a|
  {
    if a != [] {
      assert (a + b)[1..] == a[1..] + b;
      SlicesAppend(pts, a[1..], b);
    } else {
      assert a + b == b;
    }
  }

  /** A stretch of fast points only grows the candidate. */
  lemma {:induction false} FastStretch(pts: seq<TrackPoint>, threshold: real, minPoints: int,
                                       done: seq<seq<TrackPoint>>, candidate: seq<TrackPoint>, i: nat, j: nat)
    requires i <= j <= |pts|
    requires forall k | i <= k < j :: Fast(pts[k], threshold)
    ensures ScanFrom(pts, threshold, minPoints, done, candidate, i)
         == ScanFrom(pts, threshold, minPoints, done, candidate + pts[i..j], j)
    decreases j - i
  {
    if i == j {
      assert candidate + pts[i..j] == candidate;
    } else {
      FastStretch(pts, threshold, minPoints, done, candidate + [pts[i]], i + 1, j);
      assert candidate + [pts[i]] + pts[i + 1..j] == candidate + pts[i..j];
    }
  }

  /** Filtering and slicing a list that starts with a run of points i..e. */
  lemma SlicesOfLongerCons(pts: seq<TrackPoint>, run: Run, rest: seq<Run>, minPoints: int)
    requires run.start <= run.end <= |pts|
    ensures Slices(pts, Longer([run] + rest, minPoints))
         == (if run.end - run.start > minPoints then [pts[run.start..run.end]] else []) + Slices(pts, Longer(rest, minPoints))
  {
    var kept := if run.end - run.start > minPoints then [run] else [];
    LongerAppend([run], rest, minPoints);
    assert Longer([run], minPoints) == kept + Longer([], minPoints);
    assert kept + [] == kept;
    SlicesAppend(pts, kept, Longer(rest, minPoints));
    assert Slices(pts, kept) == if run.end - run.start > minPoints then [pts[run.start..run.end]] else [];
  }

  /** From a point not inside a run, with an empty candidate, the scan emits the long maximal runs. */
  lemma {:induction false} ScanKeepsLongRuns(pts: seq<TrackPoint>, threshold: real, minPoints: int,
                                             done: seq<seq<TrackPoint>>, i: nat)
    requires minPoints >= 0
    requires i <= |pts|
    requires i == 0 || !Fast(pts[i - 1], threshold)
    ensures ScanFrom(pts, threshold, minPoints, done, [], i)
         == done + Slices(pts, Longer(RunsFrom(pts, threshold, i), minPoints))
    decreases |pts| - i
  {
    if i == |pts| {
      assert done + [] == done;
    } else if !Fast(pts[i], threshold) {
      ScanKeepsLongRuns(pts, threshold, minPoints, done, i + 1);
      assert ScanFrom(pts, threshold, minPoints, done, [], i) == ScanFrom(pts, threshold, minPoints, done, [], i + 1);
      assert RunsFrom(pts, threshold, i) == RunsFrom(pts, threshold, i + 1);
    } else {
      var e := RunEnd(pts, threshold, i);
      if e < |pts| {
        ScanKeepsLongRuns(pts, threshold, minPoints, Close(done, pts[i..e], minPoints), e + 1);
      }
      ScanOverRun(pts, threshold, minPoints, done, i);
    }
  }

  /** The step of ScanKeepsLongRuns over the run that starts at i, given the claim for what follows it. */
  lemma ScanOverRun(pts: seq<TrackPoint>, threshold: real, minPoints: int, done: seq<seq<TrackPoint>>, i: nat)
    requires i < |pts| && Fast(pts[i], threshold)
    requires i == 0 || !Fast(pts[i - 1], threshold)
    requires var e := RunEnd(pts, threshold, i);
      e < |pts| ==>
        ScanFrom(pts, threshold, minPoints, Close(done, pts[i..e], minPoints), [], e + 1)
        == Close(done, pts[i..e], minPoints) + Slices(pts, Longer(RunsFrom(pts, threshold, e + 1), minPoints))
    ensures ScanFrom(pts, threshold, minPoints, done, [], i)
         == done + Slices(pts, Longer(RunsFrom(pts, threshold, i), minPoints))
  {
    var e := RunEnd(pts, threshold, i);
    var first := if e - i > minPoints then [pts[i..e]] else [];
    var done' := Close(done, pts[i..e], minPoints);
    assert done' == done + first by {
      if e - i <= minPoints { assert done + [] == done; }
    }
    if e < |pts| {
      var later := Slices(pts, Longer(RunsFrom(pts, threshold, e + 1), minPoints));
      calc {
        ScanFrom(pts, threshold, minPoints, done, [], i);
        { ScanThroughRun(pts, threshold, minPoints, done, i); }
        ScanFrom(pts, threshold, minPoints, done', [], e + 1);
        done' + later;
        { AppendAssociative(done, first, later); }
        done + (first + later);
        { RunsFromAtRun(pts, threshold, minPoints, i); }
        done + Slices(pts, Longer(RunsFrom(pts, threshold, i), minPoints));
      }
    } else {
      calc {
        ScanFrom(pts, threshold, minPoints, done, [], i);
        { ScanThroughRun(pts, threshold, minPoints, done, i); }
        done + first;
        { RunsFromAtRun(pts, threshold, minPoints, i); }
        done + Slices(pts, Longer(RunsFrom(pts, threshold, i), minPoints));
      }
    }
  }

  lemma AppendAssociative<T>(a: seq<T>, b: seq<T>, c: seq<T>)
    ensures a + b + c == a + (b + c)
  {
  }

  /** The scan passes over the run that starts at i and closes it at the first slow point or at the end. */
  lemma ScanThroughRun(pts: seq<TrackPoint>, threshold: real, minPoints: int, done: seq<seq<TrackPoint>>, i: nat)
    requires i < |pts|
    ensures var e := RunEnd(pts, threshold, i);
      e == |pts| ==> ScanFrom(pts, threshold, minPoints, done, [], i) == Close(done, pts[i..e], minPoints)
    ensures var e := RunEnd(pts, threshold, i);
      e < |pts| ==> ScanFrom(pts, threshold, minPoints, done, [], i)
                    == ScanFrom(pts, threshold, minPoints, Close(done, pts[i..e], minPoints), [], e + 1)
  {
    var e := RunEnd(pts, threshold, i);
    FastStretch(pts, threshold, minPoints, done, [], i, e);
    assert [] + pts[i..e] == pts[i..e];
  }

  /** The long runs from i, when a run starts at i: that run (if long) and then the long runs after it. */
  lemma RunsFromAtRun(pts: seq<TrackPoint>, threshold: real, minPoints: int, i: nat)
    requires i < |pts| && Fast(pts[i], threshold)
    requires i == 0 || !Fast(pts[i - 1], threshold)
    ensures var e := RunEnd(pts, threshold, i);
      e == |pts| ==> Slices(pts, Longer(RunsFrom(pts, threshold, i), minPoints))
                     == (if e - i > minPoints then [pts[i..e]] else [])
    ensures var e := RunEnd(pts, threshold, i);
      e < |pts| ==> Slices(pts, Longer(RunsFrom(pts, threshold, i), minPoints))
                    == (if e - i > minPoints then [pts[i..e]] else [])
                       + Slices(pts, Longer(RunsFrom(pts, threshold, e + 1), minPoints))
  {
    var e := RunEnd(pts, threshold, i);
    if e == |pts| {
      assert RunsFrom(pts, threshold, i) == [Run(i, e)] + [];
      SlicesOfLongerCons(pts, Run(i, e), [], minPoints);
      var first := if e - i > minPoints then [pts[i..e]] else [];
      assert first + Slices(pts, Longer([], minPoints)) == first + [];
    } else {
      var rest := RunsFrom(pts, threshold, e + 1);
      assert RunsFrom(pts, threshold, i) == [Run(i, e)] + rest;
      SlicesOfLongerCons(pts, Run(i, e), rest, minPoints);
    }
  }

  /**
   * With minPoints >= 0, extractByTopSpeed returns exactly the maximal runs of
   * fast points that hold more than minPoints points, in input order.
   */
  lemma ExtractIsLongMaximalRuns(pts: seq<TrackPoint>, threshold: real, minPoints: int)
    requires minPoints >= 0
    ensures Extract(pts, threshold, minPoints) == Slices(pts, Longer(MaximalRuns(pts, threshold), minPoints))
  {
    ScanKeepsLongRuns(pts, threshold, minPoints, [], 0);
    assert [] + Slices(pts, Longer(MaximalRuns(pts, threshold), minPoints))
        == Slices(pts, Longer(MaximalRuns(pts, threshold), minPoints));
  }

  /** Every fast point at or after i lies in one of the runs RunsFrom lists. */
  lemma {:induction false} RunsFromCover(pts: seq<TrackPoint>, threshold: real, i: nat, j: nat)
    requires i <= j < |pts|
    requires i == 0 || !Fast(pts[i - 1], threshold)
    requires Fast(pts[j], threshold)
    ensures exists r | r in RunsFrom(pts, threshold, i) :: r.start <= j < r.end
    decreases |pts| - i
  {
    if !Fast(pts[i], threshold) {
      RunsFromCover(pts, threshold, i + 1, j);
    } else {
      var e := RunEnd(pts, threshold, i);
      var runs := RunsFrom(pts, threshold, i);
      assert runs[0] == Run(i, e);
      if j >= e {
        assert e < |pts| && j != e;
        RunsFromCover(pts, threshold, e + 1, j);
        var r :| r in RunsFrom(pts, threshold, e + 1) && r.start <= j < r.end;
        assert r in runs;
      }
    }
  }

  /** Two maximal runs that share a point are the same run. */
  lemma OverlappingMaximalRunsAgree(pts: seq<TrackPoint>, threshold: real, r: Run, m: Run, j: nat)
    requires IsMaximalRun(pts, threshold, r) && IsMaximalRun(pts, threshold, m)
    requires r.start <= j < r.end && m.start <= j < m.end
    ensures r == m
  {
    if r.start > 0 { assert !Fast(pts[r.start - 1], threshold); }
    if m.start > 0 { assert !Fast(pts[m.start - 1], threshold); }
    if r.end < |pts| { assert !Fast(pts[r.end], threshold); }
    if m.end < |pts| { assert !Fast(pts[m.end], threshold); }
  }

  /** MaximalRuns lists every maximal run (soundness and order are its own ensures). */
  lemma MaximalRunsComplete(pts: seq<TrackPoint>, threshold: real, m: Run)
    requires IsMaximalRun(pts, threshold, m)
    ensures m in MaximalRuns(pts, threshold)
  {
    RunsFromCover(pts, threshold, 0, m.start);
    MaximalRunsSound(pts, threshold);
    var runs := MaximalRuns(pts, threshold);
    var r :| r in runs && r.start <= m.start < r.end;
    var k :| 0 <= k < |runs| && runs[k] == r;
    OverlappingMaximalRunsAgree(pts, threshold, r, m, m.start);
  }

  /** What the scan keeps: every emitted segment is longer than minPoints and made of fast input points. */
  lemma {:induction false} ScanSegmentsFastAndLong(pts: seq<TrackPoint>, threshold: real, minPoints: int,
                                                   done: seq<seq<TrackPoint>>, candidate: seq<TrackPoint>, i: nat)
    requires i <= |pts|
    requires forall s | s in done :: |s| > minPoints && forall p | p in s :: Fast(p, threshold) && p in pts
    requires forall p | p in candidate :: Fast(p, threshold) && p in pts
    ensures forall s | s in ScanFrom(pts, threshold, minPoints, done, candidate, i) ::
              |s| > minPoints && forall p | p in s :: Fast(p, threshold) && p in pts
    decreases |pts| - i
  {
    if i < |pts| {
      if Fast(pts[i], threshold) {
        ScanSegmentsFastAndLong(pts, threshold, minPoints, done, candidate + [pts[i]], i + 1);
      } else {
        ScanSegmentsFastAndLong(pts, threshold, minPoints, Close(done, candidate, minPoints), [], i + 1);
      }
    }
  }

  /**
   * For every threshold and every minPoints: each extracted segment has more
   * than minPoints points, and each of its points is one of the input points
   * (the same object) and is strictly faster than the threshold.
   */
  lemma ExtractFastAndLong(pts: seq<TrackPoint>, threshold: real, minPoints: int)
    ensures forall s | s in Extract(pts, threshold, minPoints) ::
              |s| > minPoints && forall p | p in s :: p.speed > threshold && p in pts
  {
    ScanSegmentsFastAndLong(pts, threshold, minPoints, [], [], 0);
  }

  /** With minPoints >= 0, a list with no fast point (in particular the empty list) yields no segment. */
  lemma NoFastPointNoSegment(pts: seq<TrackPoint>, threshold: real, minPoints: int)
    requires minPoints >= 0
    requires forall k | 0 <= k < |pts| :: pts[k].speed <= threshold
    ensures Extract(pts, threshold, minPoints) == []
  {
    ExtractIsLongMaximalRuns(pts, threshold, minPoints);
    MaximalRunsSound(pts, threshold);
    var runs := MaximalRuns(pts, threshold);
    assert runs != [] ==> Fast(pts[runs[0].start], threshold);
  }

  /** With negative minPoints an empty candidate passes the length test: the empty input yields one empty segment. */
  lemma NegativeMinPointsOnEmptyInput(threshold: real, minPoints: int)
    requires minPoints < 0
    ensures Extract([], threshold, minPoints) == [[]]
  {
  }

  /** With negative minPoints each slow point closes an empty segment, and the end closes one more. */
  lemma NegativeMinPointsAtSlowPoint(p: TrackPoint, threshold: real, minPoints: int)
    requires minPoints < 0 && p.speed <= threshold
    ensures Extract([p], threshold, minPoints) == [[], []]
  {
    assert ScanFrom([p], threshold, minPoints, [], [], 0) == ScanFrom([p], threshold, minPoints, [[]], [], 1);
  }

  /** The non-empty point lists, in order. */
  function NonEmpty(lists: seq<seq<TrackPoint>>): (r: seq<seq<TrackPoint>>)
    ensures forall s | s in r :: s != [] && s in lists
  {
    if lists == [] then []
    else NonEmpty(lists[..|lists| - 1]) + (if lists[|lists| - 1] == [] then [] else [lists[|lists| - 1]])
  }

  lemma {:induction false} NonEmptyAppend(a: seq<seq<TrackPoint>>, b: seq<seq<TrackPoint>>)
    ensures NonEmpty(a + b) == NonEmpty(a) + NonEmpty(b)
    decreases |b|
  {
    if b == [] {
      assert a + b == a;
    } else {
      var b' := b[..|b| - 1];
      assert (a + b)[..|a + b| - 1] == a + b';
      NonEmptyAppend(a, b');
    }
  }

  /** The number of points no faster than the threshold. */
  function SlowCount(pts: seq<TrackPoint>, threshold: real): nat
  {
    if pts == [] then 0 else (if Fast(pts[0], threshold) then 0 else 1) + SlowCount(pts[1..], threshold)
  }

  /** With negative minPoints every candidate is handed on, the empty ones included. */
  lemma {:induction false} ScanNegativeNonEmpty(pts: seq<TrackPoint>, threshold: real, minPoints: int,
                                                done: seq<seq<TrackPoint>>, candidate: seq<TrackPoint>, i: nat)
    requires minPoints < 0 && i <= |pts|
    ensures NonEmpty(ScanFrom(pts, threshold, minPoints, done, candidate, i))
         == ScanFrom(pts, threshold, 0, NonEmpty(done), candidate, i)
    decreases |pts| - i
  {
    NonEmptyAppend(done, [candidate]);
    assert NonEmpty([candidate]) == if candidate == [] then [] else [candidate] by {
      assert [candidate][..0] == [];
    }
    assert NonEmpty(Close(done, candidate, minPoints)) == Close(NonEmpty(done), candidate, 0);
    if i < |pts| {
      if Fast(pts[i], threshold) {
        ScanNegativeNonEmpty(pts, threshold, minPoints, done, candidate + [pts[i]], i + 1);
      } else {
        ScanNegativeNonEmpty(pts, threshold, minPoints, Close(done, candidate, minPoints), [], i + 1);
      }
    }
  }

  /** Each slow point and the end of the list close one candidate each. */
  lemma {:induction false} ScanNegativeCount(pts: seq<TrackPoint>, threshold: real, minPoints: int,
                                             done: seq<seq<TrackPoint>>, candidate: seq<TrackPoint>, i: nat)
    requires minPoints < 0 && i <= |pts|
    ensures |ScanFrom(pts, threshold, minPoints, done, candidate, i)| == |done| + SlowCount(pts[i..], threshold) + 1
    decreases |pts| - i
  {
    if i < |pts| {
      assert pts[i..][0] == pts[i] && pts[i..][1..] == pts[i + 1..];
      if Fast(pts[i], threshold) {
        ScanNegativeCount(pts, threshold, minPoints, done, candidate + [pts[i]], i + 1);
      } else {
        ScanNegativeCount(pts, threshold, minPoints, done + [candidate], [], i + 1);
      }
    } else {
      assert pts[i..] == [];
    }
  }

  /**
   * Negative minPoints: every stretch between two slow points, or between a
   * slow point and an end, is handed on, the empty ones included. So there is
   * one segment per slow point plus one, and without the empty ones the
   * result is that of minPoints 0: the maximal runs of fast points.
   */
  lemma NegativeMinPoints(pts: seq<TrackPoint>, threshold: real, minPoints: int)
    requires minPoints < 0
    ensures |Extract(pts, threshold, minPoints)| == SlowCount(pts, threshold) + 1
    ensures NonEmpty(Extract(pts, threshold, minPoints)) == Slices(pts, Longer(MaximalRuns(pts, threshold), 0))
  {
    ScanNegativeCount(pts, threshold, minPoints, [], [], 0);
    assert pts[0..] == pts;
    ScanNegativeNonEmpty(pts, threshold, minPoints, [], [], 0);
    ExtractIsLongMaximalRuns(pts, threshold, 0);
  }

  /** A run of exactly minPoints fast points between slow points is dropped. */
  lemma RunOfExactlyMinPointsDropped(pts: seq<TrackPoint>, threshold: real, minPoints: int)
    requires minPoints >= 0 && |pts| == minPoints + 2
    requires !Fast(pts[0], threshold) && !Fast(pts[|pts| - 1], threshold)
    requires forall k | 1 <= k < |pts| - 1 :: Fast(pts[k], threshold)
    ensures Extract(pts, threshold, minPoints) == []
  {
    var n := |pts|;
    FastStretch(pts, threshold, minPoints, [], [], 1, n - 1);
    assert Extract(pts, threshold, minPoints) == ScanFrom(pts, threshold, minPoints, [], [], 1);
    assert [] + pts[1..n - 1] == pts[1..n - 1];
  }

  /** A run of minPoints + 1 fast points between slow points is kept. */
  lemma RunOfMinPointsPlusOneKept(pts: seq<TrackPoint>, threshold: real, minPoints: int)
    requires minPoints >= 0 && |pts| == minPoints + 3
    requires !Fast(pts[0], threshold) && !Fast(pts[|pts| - 1], threshold)
    requires forall k | 1 <= k < |pts| - 1 :: Fast(pts[k], threshold)
    ensures Extract(pts, threshold, minPoints) == [pts[1..|pts| - 1]]
  {
    var n := |pts|;
    FastStretch(pts, threshold, minPoints, [], [], 1, n - 1);
    assert Extract(pts, threshold, minPoints) == ScanFrom(pts, threshold, minPoints, [], [], 1);
    assert [] + pts[1..n - 1] == pts[1..n - 1];
  }

  /** Speeds [10, 40, 45, 50, 5, 60, 60, 60, 5], threshold 30, minPoints 2: two segments. */
  lemma ExtractExample(pts: seq<TrackPoint>)
    requires |pts| == 9
    requires pts[0].speed == 10.0 && pts[1].speed == 40.0 && pts[2].speed == 45.0 && pts[3].speed == 50.0
    requires pts[4].speed == 5.0 && pts[5].speed == 60.0 && pts[6].speed == 60.0 && pts[7].speed == 60.0
    requires pts[8].speed == 5.0
    ensures Extract(pts, 30.0, 2) == [pts[1..4], pts[5..8]]
  {
    FastStretch(pts, 30.0, 2, [], [], 1, 4);
    assert [] + pts[1..4] == pts[1..4];
    FastStretch(pts, 30.0, 2, [pts[1..4]], [], 5, 8);
    assert [] + pts[5..8] == pts[5..8];
    calc {
      Extract(pts, 30.0, 2);
      ScanFrom(pts, 30.0, 2, [], [], 1);
      ScanFrom(pts, 30.0, 2, [], pts[1..4], 4);
      { assert !Fast(pts[4], 30.0) && |pts[1..4]| == 3; }
      ScanFrom(pts, 30.0, 2, Close([], pts[1..4], 2), [], 5);
      { assert [] + [pts[1..4]] == [pts[1..4]]; }
      ScanFrom(pts, 30.0, 2, [pts[1..4]], [], 5);
      ScanFrom(pts, 30.0, 2, [pts[1..4]], pts[5..8], 8);
      ScanFrom(pts, 30.0, 2, [pts[1..4], pts[5..8]], [], 9);
    }
  }
}
