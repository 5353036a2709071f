/**
 * What interpolateWindData computes, point by point
 * (src/at/home/bernd/WeatherDataManager.java:389-530 and the older copy in
 * src/at/home/bernd/WindViewer.java:739-849).
 *
 * The spline fit of the numerics library is a parameter: an `Interpolator`
 * takes the knot times and knot values and yields a curve over timestamps.
 * Nothing is assumed about it, so what is proved is the plumbing around it:
 * which knots each field is fitted to, where each curve is evaluated, and
 * which field each pass writes.
 */
module Resampling {
  import opened Points

  /** A fitted curve, evaluated at an epoch-millisecond timestamp. */
  type Curve = int -> real

  /** The spline fit: knot times and knot values to a curve. */
  type Interpolator = (seq<int>, seq<real>) -> Curve

  /** The knot times: each sample's timestamp, in order (xData). */
  function Knots(ws: seq<WindDataPoint>): (xs: seq<int>)
    ensures |xs| == |ws|
    ensures forall i | 0 <= i < |ws| :: xs[i] == ws[i].timestamp
  {
    if ws == [] then [] else Knots(ws[..|ws| - 1]) + [ws[|ws| - 1].timestamp]
  }

  /** The readings of the samples, in order. */
  function ReadingsOf(ws: seq<WindDataPoint>): (rs: seq<Readings>)
    reads ws
    ensures |rs| == |ws|
    ensures forall i | 0 <= i < |ws| :: rs[i] == ws[i].Current()
  {
    seq(|ws|, i requires 0 <= i < |ws| reads ws => ws[i].Current())
  }

  /** Field t of each of the readings, in order; 0 for `Timestamp`. */
  function Values(rs: seq<Readings>, t: WindDataType): (ys: seq<real>)
    ensures |ys| == |rs|
    ensures forall i | 0 <= i < |rs| :: ys[i] == rs[i].Get(t)
  {
    seq(|rs|, i requires 0 <= i < |rs| => rs[i].Get(t))
  }

  /** The knot values for field t: each sample's value of that field, in order (yData). */
  function KnotValues(ws: seq<WindDataPoint>, t: WindDataType): seq<real>
    reads ws
  {
    Values(ReadingsOf(ws), t)
  }

  /** The field the older switch reads: it has no case for the direction, which stays 0. */
  function LegacyGet(r: Readings, t: WindDataType): real
  {
    if t == Direction then 0.0 else r.Get(t)
  }

  /** The knot values of the older switch, which reads no direction. */
  function LegacyValues(rs: seq<Readings>, t: WindDataType): (ys: seq<real>)
    ensures |ys| == |rs|
    ensures forall i | 0 <= i < |rs| :: ys[i] == LegacyGet(rs[i], t)
  {
    seq(|rs|, i requires 0 <= i < |rs| => LegacyGet(rs[i], t))
  }

  /** The knot values of the older createInterpolationFunction. */
  function LegacyKnotValues(ws: seq<WindDataPoint>, t: WindDataType): seq<real>
    reads ws
  {
    LegacyValues(ReadingsOf(ws), t)
  }

  /** One populate pass on a point at ts: field t gets the curve's value when ts lies in [minTs, maxTs]. */
  function Populated(r: Readings, ts: int, minTs: int, maxTs: int, t: WindDataType, curve: Curve): Readings
  {
    if ts < minTs || ts > maxTs then r else r.With(t, curve(ts))
  }

  /** One pass of the older populate: no range gate, and no case for the direction. */
  function LegacyPopulated(r: Readings, ts: int, t: WindDataType, curve: Curve): Readings
  {
    if t == Direction then r else r.With(t, curve(ts))
  }

  /** The fields interpolateWindData fills, in the order of its passes. */
  const Fields: seq<WindDataType> := [WindSpeed, MaxWindSpeed, Direction, Temperature, Chill]

  /** The fields the older interpolateWindData fills, in the order of its passes. */
  const LegacyFields: seq<WindDataType> := [WindSpeed, MaxWindSpeed, Temperature, Chill]

  /**
   * The readings of a target at ts after the first k passes over samples with
   * knot times xs and readings rs: one fresh point, then field Fields[j] is
   * set to its own curve wherever ts lies between the first and last knot.
   */
  function Stage(xs: seq<int>, rs: seq<Readings>, ts: int, fit: Interpolator, k: nat): Readings
    requires |xs| > 0 && k <= |Fields|
  {
    if k == 0 then NoReadings
    else
      var t := Fields[k - 1];
      Populated(Stage(xs, rs, ts, fit, k - 1), ts, xs[0], xs[|xs| - 1], t, fit(xs, Values(rs, t)))
  }

  /** The same for the older passes: no range gate. */
  function LegacyStage(xs: seq<int>, rs: seq<Readings>, ts: int, fit: Interpolator, k: nat): Readings
    requires k <= |LegacyFields|
  {
    if k == 0 then NoReadings
    else
      var t := LegacyFields[k - 1];
      LegacyPopulated(LegacyStage(xs, rs, ts, fit, k - 1), ts, t, fit(xs, LegacyValues(rs, t)))
  }

  /** The readings interpolateWindData gives the point for target ts: all five passes. */
  function Resampled(ws: seq<WindDataPoint>, ts: int, fit: Interpolator): Readings
    requires |ws| > 0
    reads ws
  {
    Stage(Knots(ws), ReadingsOf(ws), ts, fit, |Fields|)
  }

  /** The readings the older interpolateWindData gives the point for target ts: its four passes. */
  function LegacyResampled(ws: seq<WindDataPoint>, ts: int, fit: Interpolator): Readings
    reads ws
  {
    LegacyStage(Knots(ws), ReadingsOf(ws), ts, fit, |LegacyFields|)
  }

  /** A populate pass writes only its own field: every other field keeps its value. */
  lemma PopulatedWritesOnlyItsField(r: Readings, ts: int, minTs: int, maxTs: int, t: WindDataType, curve: Curve, u: WindDataType)
    requires u != t
    ensures Populated(r, ts, minTs, maxTs, t, curve).Get(u) == r.Get(u)
  {
  }

  /** Repeating a pass on the same point changes nothing more (the value depends only on the timestamp). */
  lemma PopulatedIdempotent(r: Readings, ts: int, minTs: int, maxTs: int, t: WindDataType, curve: Curve)
    ensures Populated(Populated(r, ts, minTs, maxTs, t, curve), ts, minTs, maxTs, t, curve)
         == Populated(r, ts, minTs, maxTs, t, curve)
  {
    if !(ts < minTs || ts > maxTs) {
      var v := curve(ts);
      var once := r.With(t, v);
      assert forall u :: once.With(t, v).Get(u) == once.Get(u);
      ReadingsByFields(once.With(t, v), once);
    }
  }

  /** The same for a pass of the older populate. */
  lemma LegacyPopulatedIdempotent(r: Readings, ts: int, t: WindDataType, curve: Curve)
    ensures LegacyPopulated(LegacyPopulated(r, ts, t, curve), ts, t, curve) == LegacyPopulated(r, ts, t, curve)
  {
    if t != Direction {
      var v := curve(ts);
      var once := r.With(t, v);
      assert forall u :: once.With(t, v).Get(u) == once.Get(u);
      ReadingsByFields(once.With(t, v), once);
    }
  }

  /** Readings that agree on every field are equal. */
  lemma ReadingsByFields(r: Readings, s: Readings)
    requires forall u :: r.Get(u) == s.Get(u)
    ensures r == s
  {
    assert r.Get(Direction) == s.Get(Direction);
    assert r.Get(WindSpeed) == s.Get(WindSpeed);
    assert r.Get(MaxWindSpeed) == s.Get(MaxWindSpeed);
    assert r.Get(Temperature) == s.Get(Temperature);
    assert r.Get(Chill) == s.Get(Chill);
  }

  /**
   * After k passes, field t holds its own curve's value at ts if one of the
   * first k passes was for t and ts lies between the first and last knot;
   * otherwise it is still 0.
   */
  lemma {:induction false} StageFields(xs: seq<int>, rs: seq<Readings>, ts: int, fit: Interpolator, k: nat, t: WindDataType)
    requires |xs| > 0 && k <= |Fields| && t != Timestamp
    ensures Stage(xs, rs, ts, fit, k).Get(t)
         == if t in Fields[..k] && xs[0] <= ts <= xs[|xs| - 1] then fit(xs, Values(rs, t))(ts) else 0.0
  {
    if k > 0 {
      StageFields(xs, rs, ts, fit, k - 1, t);
      assert Fields[..k] == Fields[..k - 1] + [Fields[k - 1]];
    }
  }

  /** The same for the older passes, which have no gate. */
  lemma {:induction false} LegacyStageFields(xs: seq<int>, rs: seq<Readings>, ts: int, fit: Interpolator, k: nat, t: WindDataType)
    requires k <= |LegacyFields| && t != Timestamp
    ensures LegacyStage(xs, rs, ts, fit, k).Get(t)
         == if t in LegacyFields[..k] then fit(xs, LegacyValues(rs, t))(ts) else 0.0
  {
    if k > 0 {
      LegacyStageFields(xs, rs, ts, fit, k - 1, t);
      assert LegacyFields[..k] == LegacyFields[..k - 1] + [LegacyFields[k - 1]];
    }
  }

  /**
   * Field by field: a target inside [first, last] gets each field's own curve
   * at its timestamp; a target outside keeps every field at 0.
   */
  lemma ResampledFields(ws: seq<WindDataPoint>, ts: int, fit: Interpolator, t: WindDataType)
    requires |ws| > 0 && t != Timestamp
    ensures var inRange := ws[0].timestamp <= ts <= ws[|ws| - 1].timestamp;
      Resampled(ws, ts, fit).Get(t) == if inRange then fit(Knots(ws), KnotValues(ws, t))(ts) else 0.0
  {
    var xs, rs := Knots(ws), ReadingsOf(ws);
    StageFields(xs, rs, ts, fit, |Fields|, t);
    WholeSlice(Fields);
    assert t in Fields by { FieldsCover(t); }
    assert xs[0] == ws[0].timestamp && xs[|xs| - 1] == ws[|ws| - 1].timestamp;
  }

  /** Every reading other than the timestamp is one of the five passes. */
  lemma FieldsCover(t: WindDataType)
    requires t != Timestamp
    ensures t in Fields
  {
    match t
    case Direction => assert Fields[2] == t;
    case WindSpeed => assert Fields[0] == t;
    case MaxWindSpeed => assert Fields[1] == t;
    case Temperature => assert Fields[3] == t;
    case Chill => assert Fields[4] == t;
  }

  lemma WholeSlice<T>(s: seq<T>)
    ensures s[..|s|] == s
  {
  }

  /**
   * The older resampling: wind speed, max wind speed, temperature and chill get
   * their curves at every target, in range or not; the direction stays 0.
   */
  lemma LegacyResampledFields(ws: seq<WindDataPoint>, ts: int, fit: Interpolator, t: WindDataType)
    requires t != Timestamp
    ensures LegacyResampled(ws, ts, fit).Get(t)
         == if t == Direction then 0.0 else fit(Knots(ws), KnotValues(ws, t))(ts)
  {
    LegacyStageFields(Knots(ws), ReadingsOf(ws), ts, fit, |LegacyFields|, t);
    assert LegacyFields[..|LegacyFields|] == LegacyFields;
    if t != Direction {
      assert LegacyKnotValues(ws, t) == KnotValues(ws, t);
    }
  }

  /** Inside the range, both versions agree on every field the older one fills. */
  lemma ResamplingVersionsAgree(ws: seq<WindDataPoint>, ts: int, fit: Interpolator, t: WindDataType)
    requires |ws| > 0 && ws[0].timestamp <= ts <= ws[|ws| - 1].timestamp
    requires t != Timestamp && t != Direction
    ensures Resampled(ws, ts, fit).Get(t) == LegacyResampled(ws, ts, fit).Get(t)
  {
    ResampledFields(ws, ts, fit, t);
    LegacyResampledFields(ws, ts, fit, t);
  }
}
