/**
 * Tracks and track segments (src/at/home/bernd/TrackSegment.java,
 * src/at/home/bernd/Track.java). A segment owns the list of its points; the
 * list is replaced in place when a point is added.
 */
module Tracks {
  import opened Points
  import opened SpeedRuns

  /** A run of consecutive GPS samples. */
  class TrackSegment {
    var trackPoints: seq<TrackPoint>

    constructor ()
      ensures trackPoints == []
    {
      trackPoints := [];
    }

    /** The number of points. */
    function Size(): nat
      reads this
    {
      |trackPoints|
    }

    /** Appends one point at the end; the segment grows by one. */
    method AddTrackPoint(trackPoint: TrackPoint)
      modifies this
      ensures trackPoints == old(trackPoints) + [trackPoint]
      ensures Size() == old(Size()) + 1
    {
      trackPoints := trackPoints + [trackPoint];
    }

    /** The timestamps of the points, position by position. */
    method GetTimestamps() returns (timestamps: array<int>)
      ensures fresh(timestamps)
      ensures timestamps.Length == Size()
      ensures forall i | 0 <= i < timestamps.Length :: timestamps[i] == trackPoints[i].timestamp
    {
      var n := |trackPoints|;
      timestamps := new int[n];
      for i := 0 to n
        invariant forall j | 0 <= j < i :: timestamps[j] == trackPoints[j].timestamp
      {
        timestamps[i] := trackPoints[i].timestamp;
      }
    }

    /**
     * The sub-segments whose points are all faster than speedThreshold and that
     * hold more than minPoints points, as fresh segments. The result is exactly
     * what `Extract` describes; SpeedRuns proves what that is.
     */
    method ExtractByTopSpeed(speedThreshold: real, minPoints: int) returns (extracted: seq<TrackSegment>)
      ensures PointLists(extracted) == Extract(trackPoints, speedThreshold, minPoints)
      ensures forall i | 0 <= i < |extracted| :: fresh(extracted[i])
      ensures forall i, j | 0 <= i < j < |extracted| :: extracted[i] != extracted[j]
    {
      var pts := trackPoints;
      extracted := [];
      ghost var lists: seq<seq<TrackPoint>> := [];
      ghost var cand: seq<TrackPoint> := [];
      var candidate := new TrackSegment();
      var i := 0;
      while i < |pts|
        invariant 0 <= i <= |pts| && trackPoints == pts
        invariant fresh(candidate) && candidate !in extracted
        invariant forall k | 0 <= k < |extracted| :: fresh(extracted[k])
        invariant forall k, l | 0 <= k < l < |extracted| :: extracted[k] != extracted[l]
        invariant |extracted| == |lists| && candidate.trackPoints == cand
        invariant forall k | 0 <= k < |extracted| :: extracted[k].trackPoints == lists[k]
        invariant ScanFrom(pts, speedThreshold, minPoints, lists, cand, i) == Extract(pts, speedThreshold, minPoints)
      {
        var trackPoint := pts[i];
        if trackPoint.speed > speedThreshold {
          candidate.AddTrackPoint(trackPoint);
          cand := cand + [trackPoint];
        } else {
          assert ScanFrom(pts, speedThreshold, minPoints, lists, cand, i)
              == ScanFrom(pts, speedThreshold, minPoints, Close(lists, cand, minPoints), [], i + 1);
          if candidate.Size() > minPoints {
            extracted := extracted + [candidate];
            lists := lists + [cand];
            candidate := new TrackSegment();
          } else if candidate.Size() > 0 {
            candidate := new TrackSegment();
          }
          cand := [];
        }
        i := i + 1;
      }
      if candidate.Size() > minPoints {
        extracted := extracted + [candidate];
        lists := lists + [cand];
      }
      assert PointLists(extracted) == lists;
    }
  }

  /** The point lists of a list of segments, position by position. */
  function PointLists(segs: seq<TrackSegment>): (lists: seq<seq<TrackPoint>>)
    reads segs
    ensures |lists| == |segs|
    ensures forall k | 0 <= k < |segs| :: lists[k] == segs[k].trackPoints
  {
    if segs == [] then [] else PointLists(segs[..|segs| - 1]) + [segs[|segs| - 1].trackPoints]
  }

  /** A recorded track: a list of segments. */
  class Track {
    var trackSegments: seq<TrackSegment>

    constructor ()
      ensures trackSegments == []
    {
      trackSegments := [];
    }
  }
}
