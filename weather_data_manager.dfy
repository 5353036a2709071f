/**
 * The wind-side operations of src/at/home/bernd/WeatherDataManager.java:
 * cutting a time window out of the weather station's samples, and
 * resampling samples onto the timestamps of a track segment.
 */
module WeatherDataManager {
  import opened Wrappers
  import opened Points
  import opened Windows
  import opened Resampling

  /**
   * The samples from the last one at or before `from` through the right pads
   * after `to` (getWindData). The result is exactly `Window`; Windows proves
   * what that is on an ascending list.
   */
  method GetWindData(windData: seq<WindDataPoint>, from: int, to: int) returns (result: seq<WindDataPoint>)
    ensures result == Window(windData, from, to)
  {
    result := [];
    var firstWdp: Option<WindDataPoint> := None;
    var isFirstWdpAdded := false;
    var isLastWdpAdded := false;
    var i := 0;
    while i < |windData|
      invariant 0 <= i <= |windData|
      invariant WindowFrom(windData, from, to, Scan(result, firstWdp, isFirstWdpAdded, isLastWdpAdded), i)
             == Window(windData, from, to)
    {
      var wdp := windData[i];
      var ts := wdp.timestamp;
      if from < ts && !isFirstWdpAdded {
        if firstWdp.Some? {
          result := result + [firstWdp.value];
          isFirstWdpAdded := true;
        }
      } else {
        firstWdp := Some(wdp);
      }
      if isLastWdpAdded {
        if |result| > 2 {
          break;
        }
      }
      if from < ts && to > ts {
        result := result + [wdp];
      } else if |result| > 0 {
        result := result + [wdp];
        isLastWdpAdded := true;
      }
      i := i + 1;
    }
  }

  /** One fresh point per timestamp, in order, with every reading 0. */
  method CreateEmptyWindDataPoints(timestamps: array<int>) returns (points: seq<WindDataPoint>)
    ensures |points| == timestamps.Length
    ensures forall i | 0 <= i < |points| :: points[i].timestamp == timestamps[i]
    ensures forall i | 0 <= i < |points| :: points[i].Current() == NoReadings
    ensures forall i | 0 <= i < |points| :: fresh(points[i])
  {
    points := [];
    for k := 0 to timestamps.Length
      invariant |points| == k
      invariant forall i | 0 <= i < k :: points[i].timestamp == timestamps[i]
      invariant forall i | 0 <= i < k :: points[i].Current() == NoReadings
      invariant forall i | 0 <= i < k :: fresh(points[i])
    {
      var wdpt := new WindDataPoint(timestamps[k]);
      points := points + [wdpt];
    }
  }

  /** The spline of field t over the samples: fitted to their timestamps and their values of t (0 for `Timestamp`). */
  method CreateInterpolationFunction(windDataPoints: seq<WindDataPoint>, windDataType: WindDataType, fit: Interpolator)
    returns (spline: Curve)
    ensures spline == fit(Knots(windDataPoints), KnotValues(windDataPoints, windDataType))
  {
    var nDataPoints := |windDataPoints|;
    var xData := new int[nDataPoints];
    var yData := new real[nDataPoints];
    for i := 0 to nDataPoints
      invariant forall j | 0 <= j < i :: xData[j] == windDataPoints[j].timestamp
      invariant forall j | 0 <= j < i :: yData[j] == windDataPoints[j].Current().Get(windDataType)
    {
      var windDataPoint := windDataPoints[i];
      xData[i] := windDataPoint.timestamp;
      match windDataType
      case WindSpeed => yData[i] := windDataPoint.windSpeed;
      case MaxWindSpeed => yData[i] := windDataPoint.maxWindSpeed;
      case Direction => yData[i] := windDataPoint.direction;
      case Temperature => yData[i] := windDataPoint.temperature;
      case Chill => yData[i] := windDataPoint.chill;
      case Timestamp => yData[i] := 0.0;
    }
    assert xData[..] == Knots(windDataPoints);
    assert yData[..] == KnotValues(windDataPoints, windDataType);
    spline := fit(xData[..], yData[..]);
  }

  /**
   * Sets field t of every point whose timestamp lies in [minTs, maxTs] to the
   * spline's value there; points outside keep all their readings. A point that
   * occurs twice in the list is simply set twice to the same value.
   */
  method PopulateInterpolatedWindData(interpolatedWindData: seq<WindDataPoint>, minTs: int, maxTs: int,
                                      windDataType: WindDataType, spline: Curve)
    modifies interpolatedWindData
    ensures forall j | 0 <= j < |interpolatedWindData| ::
      interpolatedWindData[j].Current()
      == Populated(old(interpolatedWindData[j].Current()), interpolatedWindData[j].timestamp, minTs, maxTs, windDataType, spline)
  {
    var pts := interpolatedWindData;
    for i := 0 to |pts|
      invariant forall j | 0 <= j < |pts| ::
        pts[j].Current()
        == if pts[j] in pts[..i] then Populated(old(pts[j].Current()), pts[j].timestamp, minTs, maxTs, windDataType, spline)
           else old(pts[j].Current())
    {
      var windDataPoint := pts[i];
      var ts := windDataPoint.timestamp;
      ghost var before := windDataPoint.Current();
      if windDataPoint in pts[..i] {
        PopulatedIdempotent(old(windDataPoint.Current()), ts, minTs, maxTs, windDataType, spline);
      }
      if ts < minTs || ts > maxTs {
        continue;
      }
      match windDataType
      case WindSpeed => windDataPoint.windSpeed := spline(ts);
      case MaxWindSpeed => windDataPoint.maxWindSpeed := spline(ts);
      case Direction => windDataPoint.direction := spline(ts);
      case Temperature => windDataPoint.temperature := spline(ts);
      case Chill => windDataPoint.chill := spline(ts);
      case Timestamp =>
      assert windDataPoint.Current() == Populated(before, ts, minTs, maxTs, windDataType, spline);
    }
  }

  /**
   * One statement of interpolateWindData: fit the spline of field t (the k-th
   * pass) and populate the points with it. The points, which hold the first k
   * passes, then hold the first k + 1; the samples are not changed.
   */
  method PopulateField(points: seq<WindDataPoint>, windDataPoints: seq<WindDataPoint>, minTs: int, maxTs: int,
                       t: WindDataType, fit: Interpolator, ghost k: nat)
    requires |windDataPoints| > 0 && k < |Fields| && t == Fields[k]
    requires minTs == windDataPoints[0].timestamp && maxTs == windDataPoints[|windDataPoints| - 1].timestamp
    requires forall i, j | 0 <= i < |points| && 0 <= j < |windDataPoints| :: points[i] != windDataPoints[j]
    requires forall i | 0 <= i < |points| ::
      points[i].Current() == Stage(Knots(windDataPoints), ReadingsOf(windDataPoints), points[i].timestamp, fit, k)
    modifies points
    ensures ReadingsOf(windDataPoints) == old(ReadingsOf(windDataPoints))
    ensures forall i | 0 <= i < |points| ::
      points[i].Current() == Stage(Knots(windDataPoints), ReadingsOf(windDataPoints), points[i].timestamp, fit, k + 1)
  {
    ghost var xs, rs := Knots(windDataPoints), ReadingsOf(windDataPoints);
    var spline := CreateInterpolationFunction(windDataPoints, t, fit);
    PopulateInterpolatedWindData(points, minTs, maxTs, t, spline);
    assert ReadingsOf(windDataPoints) == rs;
  }

  /**
   * One fresh point per target timestamp, in order, whose readings are the
   * five splines of the samples at that timestamp when it lies between the
   * first and the last sample's timestamps, and 0 otherwise (`Resampled`).
   * The samples themselves are not changed.
   */
  method InterpolateWindData(windDataPoints: seq<WindDataPoint>, timestamps: array<int>, fit: Interpolator)
    returns (interpolatedWindData: seq<WindDataPoint>)
    requires |windDataPoints| > 0
    ensures |interpolatedWindData| == timestamps.Length
    ensures forall i | 0 <= i < |interpolatedWindData| :: interpolatedWindData[i].timestamp == timestamps[i]
    ensures forall i | 0 <= i < |interpolatedWindData| ::
      interpolatedWindData[i].Current() == Resampled(windDataPoints, timestamps[i], fit)
    ensures forall i | 0 <= i < |interpolatedWindData| :: fresh(interpolatedWindData[i])
  {
    var ws := windDataPoints;
    var minTs := ws[0].timestamp;
    var maxTs := ws[|ws| - 1].timestamp;
    var pts := CreateEmptyWindDataPoints(timestamps);
    PopulateField(pts, ws, minTs, maxTs, WindSpeed, fit, 0);
    PopulateField(pts, ws, minTs, maxTs, MaxWindSpeed, fit, 1);
    PopulateField(pts, ws, minTs, maxTs, Direction, fit, 2);
    PopulateField(pts, ws, minTs, maxTs, Temperature, fit, 3);
    PopulateField(pts, ws, minTs, maxTs, Chill, fit, 4);
    interpolatedWindData := pts;
  }
}
