/**
 * The track-side operations of src/at/home/bernd/TrackDataManager.java:
 * cutting a time window out of a list of track points, collecting the fast
 * sub-segments of every track, and giving every track point the wind
 * resampled at its own timestamp.
 */
module TrackDataManager {
  import opened Points
  import opened SpeedRuns
  import opened Tracks
  import opened Windows
  import opened Resampling
  import WeatherDataManager

  // ---------------------------------------------------------------------------
  // extractTrackData
  // ---------------------------------------------------------------------------

  /** The points strictly after `from` and strictly before `to`, in their order. */
  function Between(pts: seq<TrackPoint>, from: int, to: int): seq<TrackPoint>
  {
    if pts == [] then []
    else
      var last := pts[|pts| - 1];
      Between(pts[..|pts| - 1], from, to) + if Inside(last.timestamp, from, to) then [last] else []
  }

  /** A point is kept exactly when it is in the list and strictly inside (from, to). */
  lemma {:induction false} BetweenMembers(pts: seq<TrackPoint>, from: int, to: int, p: TrackPoint)
    ensures p in Between(pts, from, to) <==> p in pts && Inside(p.timestamp, from, to)
  {
    if pts != [] {
      BetweenMembers(pts[..|pts| - 1], from, to, p);
      assert pts == pts[..|pts| - 1] + [pts[|pts| - 1]];
    }
  }

  /** The filter works point by point: the points of a + b are those of a, then those of b. */
  lemma {:induction false} BetweenAppend(a: seq<TrackPoint>, b: seq<TrackPoint>, from: int, to: int)
    ensures Between(a + b, from, to) == Between(a, from, to) + Between(b, from, to)
  {
    if b == [] {
      assert a + b == a;
    } else {
      assert (a + b)[..|a + b| - 1] == a + b[..|b| - 1];
      BetweenAppend(a, b[..|b| - 1], from, to);
    }
  }

  /** Cutting the same window twice changes nothing. */
  lemma {:induction false} BetweenIdempotent(pts: seq<TrackPoint>, from: int, to: int)
    ensures Between(Between(pts, from, to), from, to) == Between(pts, from, to)
  {
    if pts != [] {
      var init, last := pts[..|pts| - 1], pts[|pts| - 1];
      var tail := if Inside(last.timestamp, from, to) then [last] else [];
      BetweenIdempotent(init, from, to);
      BetweenAppend(Between(init, from, to), tail, from, to);
      assert Between(tail, from, to) == tail by {
        if tail != [] {
          assert tail[..0] == [];
        }
      }
    }
  }

  /** The track points strictly between `from` and `to` (extractTrackData). */
  method ExtractTrackData(trackData: seq<TrackPoint>, from: int, to: int) returns (result: seq<TrackPoint>)
    ensures result == Between(trackData, from, to)
  {
    result := [];
    for i := 0 to |trackData|
      invariant result == Between(trackData[..i], from, to)
    {
      var tp := trackData[i];
      var ts := tp.timestamp;
      assert trackData[..i + 1][..i] == trackData[..i];
      if from < ts && to > ts {
        result := result + [tp];
      }
    }
    assert trackData[..|trackData|] == trackData;
  }

  // ---------------------------------------------------------------------------
  // extractTrackSegments
  // ---------------------------------------------------------------------------

  /** The segments of all the tracks, track by track, in order. */
  ghost function AllSegments(tracks: seq<Track>): seq<TrackSegment>
    reads tracks
  {
    if tracks == [] then [] else AllSegments(tracks[..|tracks| - 1]) + tracks[|tracks| - 1].trackSegments
  }

  /** A segment is among all segments exactly when one of the tracks holds it. */
  lemma {:induction false} AllSegmentsMembers(tracks: seq<Track>, seg: TrackSegment)
    ensures seg in AllSegments(tracks) <==> exists i | 0 <= i < |tracks| :: seg in tracks[i].trackSegments
  {
    if tracks != [] {
      var init := tracks[..|tracks| - 1];
      AllSegmentsMembers(init, seg);
      if exists i | 0 <= i < |tracks| :: seg in tracks[i].trackSegments {
        var i :| 0 <= i < |tracks| && seg in tracks[i].trackSegments;
        if i < |init| {
          assert init[i] == tracks[i];
        }
      }
    }
  }

  /** The point lists extractByTopSpeed yields for each of the segments, one after the other. */
  ghost function ExtractedFrom(segs: seq<TrackSegment>, speedThreshold: real, minPoints: int): seq<seq<TrackPoint>>
    reads segs
  {
    if segs == [] then []
    else
      ExtractedFrom(segs[..|segs| - 1], speedThreshold, minPoints)
      + Extract(segs[|segs| - 1].trackPoints, speedThreshold, minPoints)
  }

  lemma {:induction false} ExtractedFromAppend(a: seq<TrackSegment>, b: seq<TrackSegment>, speedThreshold: real, minPoints: int)
    ensures ExtractedFrom(a + b, speedThreshold, minPoints)
         == ExtractedFrom(a, speedThreshold, minPoints) + ExtractedFrom(b, speedThreshold, minPoints)
  {
    if b == [] {
      assert a + b == a;
    } else {
      assert (a + b)[..|a + b| - 1] == a + b[..|b| - 1];
      ExtractedFromAppend(a, b[..|b| - 1], speedThreshold, minPoints);
    }
  }

  /** A point list comes out of a list of segments exactly when it comes out of one of them. */
  lemma {:induction false} ExtractedFromMembers(segs: seq<TrackSegment>, speedThreshold: real, minPoints: int,
                                                s: seq<TrackPoint>)
    ensures s in ExtractedFrom(segs, speedThreshold, minPoints)
        <==> exists j | 0 <= j < |segs| :: s in Extract(segs[j].trackPoints, speedThreshold, minPoints)
  {
    if segs != [] {
      var init := segs[..|segs| - 1];
      ExtractedFromMembers(init, speedThreshold, minPoints, s);
      if s in Extract(segs[|segs| - 1].trackPoints, speedThreshold, minPoints) {
        assert exists j | 0 <= j < |segs| :: s in Extract(segs[j].trackPoints, speedThreshold, minPoints);
      }
      if exists j | 0 <= j < |segs| :: s in Extract(segs[j].trackPoints, speedThreshold, minPoints) {
        var j :| 0 <= j < |segs| && s in Extract(segs[j].trackPoints, speedThreshold, minPoints);
        if j < |segs| - 1 {
          assert init[j] == segs[j];
        }
      }
    }
  }

  /**
   * Every point list collected from a track list holds more than minPoints
   * points, all faster than the threshold and all taken from one segment of
   * one of the tracks.
   */
  lemma ExtractedFromTracksFastAndLong(tracks: seq<Track>, speedThreshold: real, minPoints: int, s: seq<TrackPoint>)
    requires s in ExtractedFrom(AllSegments(tracks), speedThreshold, minPoints)
    ensures |s| > minPoints
    ensures exists i, seg | 0 <= i < |tracks| && seg in tracks[i].trackSegments ::
              forall p | p in s :: p.speed > speedThreshold && p in seg.trackPoints
  {
    var segs := AllSegments(tracks);
    ExtractedFromMembers(segs, speedThreshold, minPoints, s);
    var j :| 0 <= j < |segs| && s in Extract(segs[j].trackPoints, speedThreshold, minPoints);
    ExtractFastAndLong(segs[j].trackPoints, speedThreshold, minPoints);
    AllSegmentsMembers(tracks, segs[j]);
  }

  /** How the specification grows track by track. */
  lemma TrackPrefixes(trackList: seq<Track>, speedThreshold: real, minPoints: int)
    ensures forall i | 0 <= i < |trackList| ::
      ExtractedFrom(AllSegments(trackList[..i + 1]), speedThreshold, minPoints)
      == ExtractedFrom(AllSegments(trackList[..i]), speedThreshold, minPoints)
         + ExtractedFrom(trackList[i].trackSegments, speedThreshold, minPoints)
  {
    forall i | 0 <= i < |trackList|
      ensures ExtractedFrom(AllSegments(trackList[..i + 1]), speedThreshold, minPoints)
           == ExtractedFrom(AllSegments(trackList[..i]), speedThreshold, minPoints)
              + ExtractedFrom(trackList[i].trackSegments, speedThreshold, minPoints)
    {
      assert trackList[..i + 1][..i] == trackList[..i];
      ExtractedFromAppend(AllSegments(trackList[..i]), trackList[i].trackSegments, speedThreshold, minPoints);
    }
  }

  /** How the specification grows segment by segment. */
  lemma SegmentPrefixes(trackSegments: seq<TrackSegment>, speedThreshold: real, minPoints: int)
    ensures forall j | 0 <= j < |trackSegments| ::
      ExtractedFrom(trackSegments[..j + 1], speedThreshold, minPoints)
      == ExtractedFrom(trackSegments[..j], speedThreshold, minPoints)
         + Extract(trackSegments[j].trackPoints, speedThreshold, minPoints)
  {
    forall j | 0 <= j < |trackSegments|
      ensures ExtractedFrom(trackSegments[..j + 1], speedThreshold, minPoints)
           == ExtractedFrom(trackSegments[..j], speedThreshold, minPoints)
              + Extract(trackSegments[j].trackPoints, speedThreshold, minPoints)
    {
      assert trackSegments[..j + 1][..j] == trackSegments[..j];
    }
  }

  /** Position by position, the segments hold the point lists. */
  ghost predicate Lists(segs: seq<TrackSegment>, lists: seq<seq<TrackPoint>>)
    reads segs
  {
    |segs| == |lists| && forall n | 0 <= n < |segs| :: segs[n].trackPoints == lists[n]
  }

  /** Two lists of segments in step with two lists of point lists concatenate in step. */
  lemma ListsConcat(segs: seq<TrackSegment>, lists: seq<seq<TrackPoint>>, more: seq<TrackSegment>, moreLists: seq<seq<TrackPoint>>)
    requires Lists(segs, lists) && Lists(more, moreLists)
    ensures Lists(segs + more, lists + moreLists)
  {
  }

  /**
   * One segment's turn in extractTrackSegments: its fast sub-segments are
   * appended to the result one by one.
   */
  method CollectFromSegment(result: seq<TrackSegment>, trackSegment: TrackSegment, speedThreshold: real, minPoints: int,
                            ghost before: seq<seq<TrackPoint>>)
    returns (collected: seq<TrackSegment>)
    requires Lists(result, before)
    ensures Lists(collected, before + Extract(trackSegment.trackPoints, speedThreshold, minPoints))
    ensures |result| <= |collected| && collected[..|result|] == result
    ensures forall n | |result| <= n < |collected| :: fresh(collected[n])
  {
    var extractedTrackSegments := trackSegment.ExtractByTopSpeed(speedThreshold, minPoints);
    collected := result;
    for k := 0 to |extractedTrackSegments|
      invariant collected == result + extractedTrackSegments[..k]
    {
      collected := collected + [extractedTrackSegments[k]];
    }
    assert extractedTrackSegments[..|extractedTrackSegments|] == extractedTrackSegments;
    ListsConcat(result, before, extractedTrackSegments, Extract(trackSegment.trackPoints, speedThreshold, minPoints));
  }

  /** One track's turn in extractTrackSegments: the fast sub-segments of each of its segments are appended. */
  method CollectFromTrack(result: seq<TrackSegment>, track: Track, speedThreshold: real, minPoints: int,
                          ghost before: seq<seq<TrackPoint>>)
    returns (collected: seq<TrackSegment>)
    requires Lists(result, before)
    ensures Lists(collected, before + old(ExtractedFrom(track.trackSegments, speedThreshold, minPoints)))
    ensures |result| <= |collected| && collected[..|result|] == result
    ensures forall n | |result| <= n < |collected| :: fresh(collected[n])
  {
    var trackSegments := track.trackSegments;
    SegmentPrefixes(trackSegments, speedThreshold, minPoints);
    collected := result;
    for j := 0 to |trackSegments|
      invariant Lists(collected, before + old(ExtractedFrom(trackSegments[..j], speedThreshold, minPoints)))
      invariant |result| <= |collected| && collected[..|result|] == result
      invariant forall n | |result| <= n < |collected| :: fresh(collected[n])
    {
      ghost var done := before + old(ExtractedFrom(trackSegments[..j], speedThreshold, minPoints));
      assert trackSegments[j].trackPoints == old(trackSegments[j].trackPoints);
      collected := CollectFromSegment(collected, trackSegments[j], speedThreshold, minPoints, done);
      assert done + old(Extract(trackSegments[j].trackPoints, speedThreshold, minPoints))
          == before + old(ExtractedFrom(trackSegments[..j + 1], speedThreshold, minPoints));
    }
    assert trackSegments[..|trackSegments|] == trackSegments;
  }

  /**
   * The fast sub-segments of every segment of every track, in order, as fresh
   * segments (extractTrackSegments).
   */
  method ExtractTrackSegments(trackList: seq<Track>, speedThreshold: real, minPoints: int) returns (result: seq<TrackSegment>)
    ensures PointLists(result) == ExtractedFrom(AllSegments(trackList), speedThreshold, minPoints)
    ensures forall i | 0 <= i < |result| :: fresh(result[i])
  {
    TrackPrefixes(trackList, speedThreshold, minPoints);
    result := [];
    for i := 0 to |trackList|
      invariant Lists(result, old(ExtractedFrom(AllSegments(trackList[..i]), speedThreshold, minPoints)))
      invariant forall n | 0 <= n < |result| :: fresh(result[n])
    {
      ghost var done := old(ExtractedFrom(AllSegments(trackList[..i]), speedThreshold, minPoints));
      assert trackList[i].trackSegments == old(trackList[i].trackSegments);
      ghost var previous := result;
      result := CollectFromTrack(result, trackList[i], speedThreshold, minPoints, done);
      forall n | 0 <= n < |result|
        ensures fresh(result[n])
      {
        if n < |previous| {
          assert result[n] == previous[n];
        }
      }
    }
    assert trackList[..|trackList|] == trackList;
    assert ExtractedFrom(AllSegments(trackList), speedThreshold, minPoints)
        == old(ExtractedFrom(AllSegments(trackList), speedThreshold, minPoints));
  }

  // ---------------------------------------------------------------------------
  // addWindDataToTrackSegement, addWindDataToTrack, addWindDataToTrackList
  // ---------------------------------------------------------------------------

  /** The wind a track point takes from a wind data point's readings. */
  function WindOf(r: Readings): Wind
  {
    Wind(r.direction, r.windSpeed, r.maxWindSpeed)
  }

  /** No track point occurs twice in the list. */
  ghost predicate DistinctPoints(pts: seq<TrackPoint>)
  {
    forall a, b | 0 <= a < b < |pts| :: pts[a] != pts[b]
  }

  /** The track points of a list of point lists. */
  ghost function PointSet(pls: seq<seq<TrackPoint>>): set<TrackPoint>
  {
    set j, a | 0 <= j < |pls| && 0 <= a < |pls[j]| :: pls[j][a]
  }

  /** The track points of a list of segments. */
  ghost function PointsOf(segs: seq<TrackSegment>): set<TrackPoint>
    reads segs
  {
    PointSet(PointLists(segs))
  }

  /** Every track point of the point lists is a separate object: no point occurs twice, in one list or in two. */
  ghost predicate Separate(pls: seq<seq<TrackPoint>>)
  {
    forall j, k, a, b | 0 <= j < |pls| && 0 <= k < |pls| && 0 <= a < |pls[j]| && 0 <= b < |pls[k]| ::
      pls[j][a] == pls[k][b] ==> j == k && a == b
  }

  /** In a separate list, each segment's points are distinct and none is in another segment. */
  lemma SeparateApart(pls: seq<seq<TrackPoint>>, j: nat)
    requires Separate(pls) && j < |pls|
    ensures DistinctPoints(pls[j])
    ensures forall jj, a | 0 <= jj < |pls| && jj != j && 0 <= a < |pls[jj]| :: pls[jj][a] !in pls[j]
  {
  }

  /** The wind data window between a segment's first and its last timestamp (none for an empty segment). */
  function SegmentWindow(windData: seq<WindDataPoint>, pts: seq<TrackPoint>): seq<WindDataPoint>
  {
    if pts == [] then [] else Window(windData, pts[0].timestamp, pts[|pts| - 1].timestamp)
  }

  /**
   * A segment the wind can be added to: it has a first and a last point, and
   * the wind data window between their timestamps is not empty.
   */
  ghost predicate Matchable(pts: seq<TrackPoint>, windData: seq<WindDataPoint>)
  {
    |pts| > 0 && |SegmentWindow(windData, pts)| > 0
  }

  /** The wind the point at position a of a matchable segment is given: the resampled window at its timestamp. */
  ghost function ResampledWind(windData: seq<WindDataPoint>, pts: seq<TrackPoint>, a: nat, fit: Interpolator): Wind
    requires Matchable(pts, windData) && a < |pts|
    reads SegmentWindow(windData, pts)
  {
    WindOf(Resampled(SegmentWindow(windData, pts), pts[a].timestamp, fit))
  }

  /** The readings of the wind data points, as they are now. */
  ghost function Snapshot(windData: seq<WindDataPoint>): map<WindDataPoint, Readings>
    reads windData
  {
    map w | w in windData :: w.Current()
  }

  /** The readings the snapshot records for the samples of the window. */
  ghost function SnapshotReadings(window: seq<WindDataPoint>, snap: map<WindDataPoint, Readings>): (rs: seq<Readings>)
    ensures |rs| == |window|
    ensures forall i | 0 <= i < |window| :: rs[i] == if window[i] in snap then snap[window[i]] else NoReadings
  {
    seq(|window|, i requires 0 <= i < |window| => if window[i] in snap then snap[window[i]] else NoReadings)
  }

  /**
   * The wind resampled at ts from the window, when its samples hold the
   * readings the snapshot records: the value of `Resampled` on that state.
   */
  ghost function SnapshotWind(window: seq<WindDataPoint>, snap: map<WindDataPoint, Readings>, ts: int, fit: Interpolator): Wind
    requires |window| > 0
  {
    WindOf(Stage(Knots(window), SnapshotReadings(window, snap), ts, fit, |Fields|))
  }

  /** While the wind data still holds the snapshot's readings, resampling gives the snapshot's wind. */
  lemma ResampledWindOfSnapshot(windData: seq<WindDataPoint>, pts: seq<TrackPoint>, a: nat, fit: Interpolator,
                                snap: map<WindDataPoint, Readings>)
    requires Matchable(pts, windData) && a < |pts|
    requires forall w | w in windData :: w in snap && w.Current() == snap[w]
    ensures ResampledWind(windData, pts, a, fit) == SnapshotWind(SegmentWindow(windData, pts), snap, pts[a].timestamp, fit)
  {
    var window := SegmentWindow(windData, pts);
    WindowMembers(windData, pts[0].timestamp, pts[|pts| - 1].timestamp);
    assert ReadingsOf(window) == SnapshotReadings(window, snap);
  }

  /**
   * Walks the segment's points and the wind data side by side; a point whose
   * timestamp equals that of the wind data point at the same position takes
   * its direction, wind speed and gust speed, every other point keeps its wind
   * (addWindDataToTrackSegement).
   */
  method AddWindDataToTrackSegment(trackSegment: TrackSegment, windData: seq<WindDataPoint>)
    requires |windData| >= |trackSegment.trackPoints|
    requires DistinctPoints(trackSegment.trackPoints)
    modifies trackSegment.trackPoints
    ensures forall a | 0 <= a < |trackSegment.trackPoints| ::
      trackSegment.trackPoints[a].CurrentWind()
      == if trackSegment.trackPoints[a].timestamp == windData[a].timestamp then WindOf(windData[a].Current())
         else old(trackSegment.trackPoints[a].CurrentWind())
  {
    var trackPoints := trackSegment.trackPoints;
    for a := 0 to |trackPoints|
      invariant forall b | 0 <= b < |trackPoints| ::
        trackPoints[b].CurrentWind()
        == if b < a && trackPoints[b].timestamp == windData[b].timestamp then WindOf(windData[b].Current())
           else old(trackPoints[b].CurrentWind())
    {
      var trackPoint := trackPoints[a];
      var windDataPoint := windData[a];
      if trackPoint.timestamp == windDataPoint.timestamp {
        trackPoint.windDirection := windDataPoint.direction;
        trackPoint.windSpeed := windDataPoint.windSpeed;
        trackPoint.maxWindSpeed := windDataPoint.maxWindSpeed;
      }
    }
  }

  /**
   * The wind data of one segment in addWindDataToTrack: the window between the
   * segment's first and last timestamps, resampled at each of its timestamps.
   */
  method ResampleForSegment(trackSegment: TrackSegment, windData: seq<WindDataPoint>, fit: Interpolator)
    returns (interpolatedWindData: seq<WindDataPoint>)
    requires Matchable(trackSegment.trackPoints, windData)
    ensures |interpolatedWindData| == |trackSegment.trackPoints|
    ensures forall a | 0 <= a < |interpolatedWindData| ::
      interpolatedWindData[a].timestamp == trackSegment.trackPoints[a].timestamp
    ensures forall a | 0 <= a < |interpolatedWindData| ::
      WindOf(interpolatedWindData[a].Current()) == old(ResampledWind(windData, trackSegment.trackPoints, a, fit))
  {
    ghost var pts := trackSegment.trackPoints;
    ghost var window := SegmentWindow(windData, pts);
    ghost var rs := ReadingsOf(window);
    var timestamps := trackSegment.GetTimestamps();
    var extractedWindData := WeatherDataManager.GetWindData(windData, timestamps[0], timestamps[timestamps.Length - 1]);
    assert extractedWindData == window;
    interpolatedWindData := WeatherDataManager.InterpolateWindData(extractedWindData, timestamps, fit);
    assert forall i | 0 <= i < |window| :: window[i].Current() == rs[i];
    assert ReadingsOf(window) == rs;
  }

  /**
   * One segment's turn in addWindDataToTrack: every point takes the wind
   * resampled at its own timestamp.
   */
  method AddResampledWind(trackSegment: TrackSegment, windData: seq<WindDataPoint>, fit: Interpolator)
    requires Matchable(trackSegment.trackPoints, windData)
    requires DistinctPoints(trackSegment.trackPoints)
    modifies trackSegment.trackPoints
    ensures forall a | 0 <= a < |trackSegment.trackPoints| ::
      trackSegment.trackPoints[a].CurrentWind() == old(ResampledWind(windData, trackSegment.trackPoints, a, fit))
  {
    var interpolatedWindData := ResampleForSegment(trackSegment, windData, fit);
    ghost var got := seq(|interpolatedWindData|, a requires 0 <= a < |interpolatedWindData| reads interpolatedWindData =>
                           WindOf(interpolatedWindData[a].Current()));
    AddWindDataToTrackSegment(trackSegment, interpolatedWindData);
    assert forall a | 0 <= a < |interpolatedWindData| :: WindOf(interpolatedWindData[a].Current()) == got[a];
  }

  /**
   * One iteration of addWindDataToTrack, on segment j: its points take the
   * wind resampled from the snapshot; the points of every other segment and
   * the wind data keep their values.
   */
  method AddWindDataToSegmentOf(trackSegments: seq<TrackSegment>, j: nat, windData: seq<WindDataPoint>, fit: Interpolator,
                                ghost pls: seq<seq<TrackPoint>>, ghost snap: map<WindDataPoint, Readings>)
    requires j < |trackSegments| == |pls| && forall jj | 0 <= jj < |pls| :: trackSegments[jj].trackPoints == pls[jj]
    requires Separate(pls) && Matchable(pls[j], windData)
    requires forall w | w in windData :: w in snap && w.Current() == snap[w]
    modifies pls[j]
    ensures forall jj | 0 <= jj < |pls| :: trackSegments[jj].trackPoints == pls[jj]
    ensures forall w | w in windData :: w.Current() == snap[w]
    ensures forall jj, a | 0 <= jj < |pls| && jj != j && 0 <= a < |pls[jj]| ::
      pls[jj][a].CurrentWind() == old(pls[jj][a].CurrentWind())
    ensures forall a | 0 <= a < |pls[j]| ::
      pls[j][a].CurrentWind() == SnapshotWind(SegmentWindow(windData, pls[j]), snap, pls[j][a].timestamp, fit)
  {
    SeparateApart(pls, j);
    forall a | 0 <= a < |pls[j]|
      ensures ResampledWind(windData, pls[j], a, fit)
           == SnapshotWind(SegmentWindow(windData, pls[j]), snap, pls[j][a].timestamp, fit)
    {
      ResampledWindOfSnapshot(windData, pls[j], a, fit, snap);
    }
    AddResampledWind(trackSegments[j], windData, fit);
  }

  /** The loop of addWindDataToTrack: segment by segment, its points take the wind resampled from the snapshot. */
  method AddWindDataToSegments(trackSegments: seq<TrackSegment>, windData: seq<WindDataPoint>, fit: Interpolator,
                               ghost pls: seq<seq<TrackPoint>>, ghost snap: map<WindDataPoint, Readings>)
    requires |trackSegments| == |pls| && forall j | 0 <= j < |pls| :: trackSegments[j].trackPoints == pls[j]
    requires Separate(pls) && forall j | 0 <= j < |pls| :: |pls[j]| > 0 && |SegmentWindow(windData, pls[j])| > 0
    requires forall w | w in windData :: w in snap && w.Current() == snap[w]
    modifies PointSet(pls)
    ensures forall j | 0 <= j < |pls| :: trackSegments[j].trackPoints == pls[j]
    ensures forall j, a | 0 <= j < |pls| && 0 <= a < |pls[j]| ::
      pls[j][a].CurrentWind() == SnapshotWind(SegmentWindow(windData, pls[j]), snap, pls[j][a].timestamp, fit)
  {
    for j := 0 to |trackSegments|
      invariant forall jj | 0 <= jj < |pls| :: trackSegments[jj].trackPoints == pls[jj]
      invariant forall w | w in windData :: w in snap && w.Current() == snap[w]
      invariant forall jj, a | 0 <= jj < j && 0 <= a < |pls[jj]| ::
        pls[jj][a].CurrentWind() == SnapshotWind(SegmentWindow(windData, pls[jj]), snap, pls[jj][a].timestamp, fit)
    {
      assert forall a | 0 <= a < |pls[j]| :: pls[j][a] in PointSet(pls);
      AddWindDataToSegmentOf(trackSegments, j, windData, fit, pls, snap);
    }
  }

  /**
   * Every point of every segment of the track takes the wind resampled at its
   * own timestamp from the window of its segment (addWindDataToTrack).
   */
  method AddWindDataToTrack(track: Track, windData: seq<WindDataPoint>, fit: Interpolator)
    requires forall j | 0 <= j < |track.trackSegments| :: Matchable(track.trackSegments[j].trackPoints, windData)
    requires Separate(PointLists(track.trackSegments))
    modifies PointsOf(track.trackSegments)
    ensures forall j, a | 0 <= j < |track.trackSegments| && 0 <= a < |track.trackSegments[j].trackPoints| ::
      track.trackSegments[j].trackPoints[a].CurrentWind()
      == old(ResampledWind(windData, track.trackSegments[j].trackPoints, a, fit))
  {
    var trackSegments := track.trackSegments;
    ghost var pls: seq<seq<TrackPoint>> := PointLists(trackSegments);
    ghost var snap := Snapshot(windData);
    forall j, a | 0 <= j < |pls| && 0 <= a < |pls[j]|
      ensures ResampledWind(windData, pls[j], a, fit)
           == SnapshotWind(SegmentWindow(windData, pls[j]), snap, pls[j][a].timestamp, fit)
    {
      ResampledWindOfSnapshot(windData, pls[j], a, fit, snap);
    }
    AddWindDataToSegments(trackSegments, windData, fit, pls, snap);
  }

  /** The track points of the point lists of several tracks. */
  ghost function AllPoints(plss: seq<seq<seq<TrackPoint>>>): set<TrackPoint>
  {
    set i, j, a | 0 <= i < |plss| && 0 <= j < |plss[i]| && 0 <= a < |plss[i][j]| :: plss[i][j][a]
  }

  /** The segments the tracks hold. */
  ghost function SegmentsOf(tracks: seq<Track>): set<TrackSegment>
    reads tracks
  {
    set i, s | 0 <= i < |tracks| && s in tracks[i].trackSegments :: s
  }

  /** The point lists of the segments of track i. */
  ghost function TrackPointList(tracks: seq<Track>, i: nat): seq<seq<TrackPoint>>
    requires i < |tracks|
    reads tracks, SegmentsOf(tracks)
  {
    assert forall s | s in tracks[i].trackSegments :: s in SegmentsOf(tracks);
    PointLists(tracks[i].trackSegments)
  }

  /** The point lists of the segments of each track. */
  ghost function TrackPointLists(tracks: seq<Track>): (plss: seq<seq<seq<TrackPoint>>>)
    reads tracks, SegmentsOf(tracks)
    ensures |plss| == |tracks|
    ensures forall i | 0 <= i < |tracks| :: plss[i] == PointLists(tracks[i].trackSegments)
  {
    seq(|tracks|, i requires 0 <= i < |tracks| reads tracks, SegmentsOf(tracks) => TrackPointList(tracks, i))
  }

  /** No track point occurs twice in the point lists of all the tracks. */
  ghost predicate SeparateTracks(plss: seq<seq<seq<TrackPoint>>>)
  {
    forall i, k, j, l, a, b | 0 <= i < |plss| && 0 <= k < |plss| && 0 <= j < |plss[i]| && 0 <= l < |plss[k]|
                           && 0 <= a < |plss[i][j]| && 0 <= b < |plss[k][l]| ::
      plss[i][j][a] == plss[k][l][b] ==> i == k && j == l && a == b
  }

  /** In separate tracks, each track's segments are separate and share no point with another track. */
  lemma SeparateTracksApart(plss: seq<seq<seq<TrackPoint>>>, i: nat)
    requires SeparateTracks(plss) && i < |plss|
    ensures Separate(plss[i])
    ensures forall k, j, a | 0 <= k < |plss| && k != i && 0 <= j < |plss[k]| && 0 <= a < |plss[k][j]| ::
              plss[k][j][a] !in PointSet(plss[i])
  {
  }

  /**
   * One iteration of addWindDataToTrackList, on track i: its points take the
   * wind resampled from the snapshot; the points of every other track and the
   * wind data keep their values.
   */
  method AddWindDataToTrackOf(trackList: seq<Track>, i: nat, windData: seq<WindDataPoint>, fit: Interpolator,
                              ghost plss: seq<seq<seq<TrackPoint>>>, ghost snap: map<WindDataPoint, Readings>)
    requires i < |trackList| == |plss| && forall k | 0 <= k < |plss| :: PointLists(trackList[k].trackSegments) == plss[k]
    requires SeparateTracks(plss)
    requires forall j | 0 <= j < |plss[i]| :: |plss[i][j]| > 0 && |SegmentWindow(windData, plss[i][j])| > 0
    requires forall w | w in windData :: w in snap && w.Current() == snap[w]
    modifies PointSet(plss[i])
    ensures forall k | 0 <= k < |plss| :: PointLists(trackList[k].trackSegments) == plss[k]
    ensures forall w | w in windData :: w.Current() == snap[w]
    ensures forall k, j, a | 0 <= k < |plss| && k != i && 0 <= j < |plss[k]| && 0 <= a < |plss[k][j]| ::
      plss[k][j][a].CurrentWind() == old(plss[k][j][a].CurrentWind())
    ensures forall j, a | 0 <= j < |plss[i]| && 0 <= a < |plss[i][j]| ::
      plss[i][j][a].CurrentWind() == SnapshotWind(SegmentWindow(windData, plss[i][j]), snap, plss[i][j][a].timestamp, fit)
  {
    SeparateTracksApart(plss, i);
    AddWindDataToSegments(trackList[i].trackSegments, windData, fit, plss[i], snap);
    forall k, j, a | 0 <= k < |plss| && k != i && 0 <= j < |plss[k]| && 0 <= a < |plss[k][j]|
      ensures plss[k][j][a].CurrentWind() == old(plss[k][j][a].CurrentWind())
    {
      assert plss[k][j][a] !in PointSet(plss[i]);
    }
  }

  /** The loop of addWindDataToTrackList: track by track, its points take the wind resampled from the snapshot. */
  method AddWindDataToTracks(trackList: seq<Track>, windData: seq<WindDataPoint>, fit: Interpolator,
                             ghost plss: seq<seq<seq<TrackPoint>>>, ghost snap: map<WindDataPoint, Readings>)
    requires |trackList| == |plss| && forall k | 0 <= k < |plss| :: PointLists(trackList[k].trackSegments) == plss[k]
    requires SeparateTracks(plss)
    requires forall i, j | 0 <= i < |plss| && 0 <= j < |plss[i]| ::
      |plss[i][j]| > 0 && |SegmentWindow(windData, plss[i][j])| > 0
    requires forall w | w in windData :: w in snap && w.Current() == snap[w]
    modifies AllPoints(plss)
    ensures forall k, j, a | 0 <= k < |plss| && 0 <= j < |plss[k]| && 0 <= a < |plss[k][j]| ::
      plss[k][j][a].CurrentWind() == SnapshotWind(SegmentWindow(windData, plss[k][j]), snap, plss[k][j][a].timestamp, fit)
  {
    for i := 0 to |trackList|
      invariant forall k | 0 <= k < |plss| :: PointLists(trackList[k].trackSegments) == plss[k]
      invariant forall w | w in windData :: w in snap && w.Current() == snap[w]
      invariant forall k, j, a | 0 <= k < i && 0 <= j < |plss[k]| && 0 <= a < |plss[k][j]| ::
        plss[k][j][a].CurrentWind() == SnapshotWind(SegmentWindow(windData, plss[k][j]), snap, plss[k][j][a].timestamp, fit)
    {
      assert PointSet(plss[i]) <= AllPoints(plss);
      AddWindDataToTrackOf(trackList, i, windData, fit, plss, snap);
    }
  }

  /**
   * Every point of every segment of every track takes the wind resampled at
   * its own timestamp from the window of its segment (addWindDataToTrackList).
   */
  method AddWindDataToTrackList(trackList: seq<Track>, windData: seq<WindDataPoint>, fit: Interpolator)
    requires forall i, j | 0 <= i < |trackList| && 0 <= j < |trackList[i].trackSegments| ::
      Matchable(trackList[i].trackSegments[j].trackPoints, windData)
    requires SeparateTracks(TrackPointLists(trackList))
    modifies AllPoints(TrackPointLists(trackList))
    ensures forall i, j, a | 0 <= i < |trackList| && 0 <= j < |trackList[i].trackSegments|
                          && 0 <= a < |trackList[i].trackSegments[j].trackPoints| ::
      trackList[i].trackSegments[j].trackPoints[a].CurrentWind()
      == old(ResampledWind(windData, trackList[i].trackSegments[j].trackPoints, a, fit))
  {
    ghost var plss: seq<seq<seq<TrackPoint>>> := TrackPointLists(trackList);
    ghost var snap := Snapshot(windData);
    assert forall i, j | 0 <= i < |plss| && 0 <= j < |plss[i]| ::
      |plss[i][j]| > 0 && |SegmentWindow(windData, plss[i][j])| > 0;
    forall i, j, a | 0 <= i < |plss| && 0 <= j < |plss[i]| && 0 <= a < |plss[i][j]|
      ensures ResampledWind(windData, plss[i][j], a, fit)
           == SnapshotWind(SegmentWindow(windData, plss[i][j]), snap, plss[i][j][a].timestamp, fit)
    {
      ResampledWindOfSnapshot(windData, plss[i][j], a, fit, snap);
    }
    AddWindDataToTracks(trackList, windData, fit, plss, snap);
  }
}
