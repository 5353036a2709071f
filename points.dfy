/**
 * The two kinds of sample the correlation works on: a GPS track point and a
 * weather-station reading (src/at/home/bernd/TrackPoint.java,
 * src/at/home/bernd/WindDataPoint.java, shaped after their use in the managers).
 * Timestamps are epoch milliseconds.
 */
module Points {

  /** The field selector of WindDataPoint.WIND_DATA_TYPE. */
  datatype WindDataType = Timestamp | Direction | WindSpeed | MaxWindSpeed | Temperature | Chill

  /** The five numeric fields of a weather reading, taken together. */
  datatype Readings = Readings(direction: real, windSpeed: real, maxWindSpeed: real, temperature: real, chill: real)
  {
    /** The field that t selects; `Timestamp` selects no numeric field and reads as 0. */
    function Get(t: WindDataType): real
    {
      match t
      case Timestamp => 0.0
      case Direction => direction
      case WindSpeed => windSpeed
      case MaxWindSpeed => maxWindSpeed
      case Temperature => temperature
      case Chill => chill
    }

    /** These readings with the field that t selects set to v; every other field, and everything for `Timestamp`, stays. */
    function With(t: WindDataType, v: real): (r: Readings)
      ensures forall u :: r.Get(u) == if u == t && t != Timestamp then v else Get(u)
    {
      match t
      case Timestamp => this
      case Direction => this.(direction := v)
      case WindSpeed => this.(windSpeed := v)
      case MaxWindSpeed => this.(maxWindSpeed := v)
      case Temperature => this.(temperature := v)
      case Chill => this.(chill := v)
    }
  }

  /** The readings of a freshly constructed WindDataPoint: Java's default 0.0 everywhere. */
  const NoReadings := Readings(0.0, 0.0, 0.0, 0.0, 0.0)

  /** A weather sample. Its timestamp is fixed when the point is created. */
  class WindDataPoint {
    const timestamp: int
    var direction: real
    var windSpeed: real
    var maxWindSpeed: real
    var temperature: real
    var chill: real

    /** `new WindDataPoint()` followed by `setTimestamp(timestamp)`. */
    constructor (timestamp: int)
      ensures this.timestamp == timestamp && Current() == NoReadings
    {
      this.timestamp := timestamp;
      direction, windSpeed, maxWindSpeed, temperature, chill := 0.0, 0.0, 0.0, 0.0, 0.0;
    }

    /** The current values of the numeric fields. */
    function Current(): Readings
      reads this
    {
      Readings(direction, windSpeed, maxWindSpeed, temperature, chill)
    }
  }

  /** A GPS sample. Only the wind fields are written after parsing. */
  class TrackPoint {
    const timestamp: int
    const latitude: real
    const longitude: real
    const elevation: real
    const speed: real
    const course: real
    var windDirection: real
    var windSpeed: real
    var maxWindSpeed: real

    constructor (timestamp: int, latitude: real, longitude: real, elevation: real, speed: real, course: real)
      ensures this.timestamp == timestamp && this.latitude == latitude && this.longitude == longitude
      ensures this.elevation == elevation && this.speed == speed && this.course == course
      ensures windDirection == 0.0 && windSpeed == 0.0 && maxWindSpeed == 0.0
    {
      this.timestamp, this.latitude, this.longitude := timestamp, latitude, longitude;
      this.elevation, this.speed, this.course := elevation, speed, course;
      windDirection, windSpeed, maxWindSpeed := 0.0, 0.0, 0.0;
    }

    /** The wind this point was given. */
    function CurrentWind(): Wind
      reads this
    {
      Wind(windDirection, windSpeed, maxWindSpeed)
    }
  }

  /** The wind a track point carries: direction, speed and gust speed. */
  datatype Wind = Wind(direction: real, speed: real, maxSpeed: real)
}
