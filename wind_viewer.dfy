/**
 * The older copies of the correlation code kept in
 * src/at/home/bernd/WindViewer.java. Where a method is the same loop as its
 * counterpart in the managers it calls that model; where it differs (the
 * window that may start with a null, the splines and passes without the
 * direction and without the range gate) it has its own.
 */
module WindViewer {
  import opened Wrappers
  import opened Points
  import opened Tracks
  import opened SpeedRuns
  import opened Windows
  import opened Resampling
  import TrackDataManager
  import WeatherDataManager

  /** The points strictly between `from` and `to`, in order (getTrackData: the same loop as extractTrackData). */
  method GetTrackData(trackData: seq<TrackPoint>, from: int, to: int) returns (result: seq<TrackPoint>)
    ensures result == TrackDataManager.Between(trackData, from, to)
  {
    result := TrackDataManager.ExtractTrackData(trackData, from, to);
  }

  /** The fast and long runs of every segment of every track, in order (the same loops as in TrackDataManager). */
  method ExtractTrackSegments(trackList: seq<Track>, speedThreshold: real, minPoints: int) returns (result: seq<TrackSegment>)
    ensures PointLists(result)
         == TrackDataManager.ExtractedFrom(TrackDataManager.AllSegments(trackList), speedThreshold, minPoints)
    ensures forall i | 0 <= i < |result| :: fresh(result[i])
  {
    result := TrackDataManager.ExtractTrackSegments(trackList, speedThreshold, minPoints);
  }

  /**
   * The older getWindData: the left pad is appended even when no sample lies
   * at or before `from` (a null, here None), and the loop stops at the sample
   * after the first right pad whatever the size of the result.
   */
  method GetWindData(windData: seq<WindDataPoint>, from: int, to: int) returns (result: seq<Option<WindDataPoint>>)
    ensures result == LegacyWindow(windData, from, to)
  {
    result := [];
    var firstWdp: Option<WindDataPoint> := None;
    var isFirstWdpAdded := false;
    var isLastWdpAdded := false;
    var i := 0;
    while i < |windData|
      invariant 0 <= i <= |windData|
      invariant LegacyWindowFrom(windData, from, to, LegacyScan(result, firstWdp, isFirstWdpAdded, isLastWdpAdded), i)
             == LegacyWindow(windData, from, to)
    {
      var wdp := windData[i];
      var ts := wdp.timestamp;
      if from < ts && !isFirstWdpAdded {
        result := result + [firstWdp];
        isFirstWdpAdded := true;
      } else {
        firstWdp := Some(wdp);
      }
      if isLastWdpAdded {
        break;
      }
      if from < ts && to > ts {
        result := result + [Some(wdp)];
      } else if |result| > 0 {
        result := result + [Some(wdp)];
        isLastWdpAdded := true;
      }
      i := i + 1;
    }
  }

  /** One fresh point per timestamp, in order, with every reading 0 (the same loop as in WeatherDataManager). */
  method CreateEmptyWindDataPoints(timestamps: array<int>) returns (points: seq<WindDataPoint>)
    ensures |points| == timestamps.Length
    ensures forall i | 0 <= i < |points| :: points[i].timestamp == timestamps[i]
    ensures forall i | 0 <= i < |points| :: points[i].Current() == NoReadings
    ensures forall i | 0 <= i < |points| :: fresh(points[i])
  {
    points := WeatherDataManager.CreateEmptyWindDataPoints(timestamps);
  }

  /** The older spline of field t: its switch has no case for the direction, whose knot values stay 0. */
  method CreateInterpolationFunction(windDataPoints: seq<WindDataPoint>, windDataType: WindDataType, fit: Interpolator)
    returns (spline: Curve)
    ensures spline == fit(Knots(windDataPoints), LegacyKnotValues(windDataPoints, windDataType))
  {
    var nDataPoints := |windDataPoints|;
    var xData := new int[nDataPoints];
    var yData := new real[nDataPoints](_ => 0.0);
    for i := 0 to nDataPoints
      invariant forall j | 0 <= j < i :: xData[j] == windDataPoints[j].timestamp
      invariant forall j | 0 <= j < i :: yData[j] == LegacyGet(windDataPoints[j].Current(), windDataType)
      invariant forall j | i <= j < nDataPoints :: yData[j] == 0.0
    {
      var windDataPoint := windDataPoints[i];
      xData[i] := windDataPoint.timestamp;
      match windDataType
      case WindSpeed => yData[i] := windDataPoint.windSpeed;
      case MaxWindSpeed => yData[i] := windDataPoint.maxWindSpeed;
      case Temperature => yData[i] := windDataPoint.temperature;
      case Chill => yData[i] := windDataPoint.chill;
      case _ =>
    }
    assert xData[..] == Knots(windDataPoints);
    assert yData[..] == LegacyKnotValues(windDataPoints, windDataType);
    spline := fit(xData[..], yData[..]);
  }

  /**
   * The older populate: every point, wherever its timestamp lies, gets field t
   * from the spline; the direction has no case and is left alone.
   */
  method PopulateInterpolatedWindData(interpolatedWindData: seq<WindDataPoint>, windDataType: WindDataType,
                                      spline: Curve)
    modifies interpolatedWindData
    ensures forall j | 0 <= j < |interpolatedWindData| ::
      interpolatedWindData[j].Current()
      == LegacyPopulated(old(interpolatedWindData[j].Current()), interpolatedWindData[j].timestamp, windDataType, spline)
  {
    var pts := interpolatedWindData;
    for i := 0 to |pts|
      invariant forall j | 0 <= j < |pts| ::
        pts[j].Current()
        == if pts[j] in pts[..i] then LegacyPopulated(old(pts[j].Current()), pts[j].timestamp, windDataType, spline)
           else old(pts[j].Current())
    {
      var windDataPoint := pts[i];
      var ts := windDataPoint.timestamp;
      ghost var before := windDataPoint.Current();
      if windDataPoint in pts[..i] {
        LegacyPopulatedIdempotent(old(windDataPoint.Current()), ts, windDataType, spline);
      }
      match windDataType
      case WindSpeed => windDataPoint.windSpeed := spline(ts);
      case MaxWindSpeed => windDataPoint.maxWindSpeed := spline(ts);
      case Temperature => windDataPoint.temperature := spline(ts);
      case Chill => windDataPoint.chill := spline(ts);
      case _ =>
        assert windDataPoint.Current() == LegacyPopulated(before, ts, windDataType, spline);
    }
  }

  /** One statement of the older interpolateWindData: the k-th of its four passes. */
  method PopulateField(points: seq<WindDataPoint>, windDataPoints: seq<WindDataPoint>,
                       t: WindDataType, fit: Interpolator, ghost k: nat)
    requires k < |LegacyFields| && t == LegacyFields[k]
    requires forall i, j | 0 <= i < |points| && 0 <= j < |windDataPoints| :: points[i] != windDataPoints[j]
    requires forall i | 0 <= i < |points| ::
      points[i].Current() == LegacyStage(Knots(windDataPoints), ReadingsOf(windDataPoints), points[i].timestamp, fit, k)
    modifies points
    ensures ReadingsOf(windDataPoints) == old(ReadingsOf(windDataPoints))
    ensures forall i | 0 <= i < |points| ::
      points[i].Current() == LegacyStage(Knots(windDataPoints), ReadingsOf(windDataPoints), points[i].timestamp, fit, k + 1)
  {
    ghost var rs := ReadingsOf(windDataPoints);
    var spline := CreateInterpolationFunction(windDataPoints, t, fit);
    PopulateInterpolatedWindData(points, t, spline);
    assert ReadingsOf(windDataPoints) == rs;
  }

  /**
   * The older interpolateWindData: one fresh point per target timestamp whose
   * wind speed, gust speed, temperature and chill are the samples' splines at
   * that timestamp (`LegacyResampled`); the samples are not changed.
   */
  method InterpolateWindData(windDataPoints: seq<WindDataPoint>, timestamps: array<int>, fit: Interpolator)
    returns (interpolatedWindData: seq<WindDataPoint>)
    ensures |interpolatedWindData| == timestamps.Length
    ensures forall i | 0 <= i < |interpolatedWindData| :: interpolatedWindData[i].timestamp == timestamps[i]
    ensures forall i | 0 <= i < |interpolatedWindData| ::
      interpolatedWindData[i].Current() == LegacyResampled(windDataPoints, timestamps[i], fit)
    ensures forall i | 0 <= i < |interpolatedWindData| :: fresh(interpolatedWindData[i])
  {
    var ws := windDataPoints;
    var pts := CreateEmptyWindDataPoints(timestamps);
    PopulateField(pts, ws, WindSpeed, fit, 0);
    PopulateField(pts, ws, MaxWindSpeed, fit, 1);
    PopulateField(pts, ws, Temperature, fit, 2);
    PopulateField(pts, ws, Chill, fit, 3);
    interpolatedWindData := pts;
  }
}
