# WindViewer correlation core in Dafny

WindViewer takes GPS tracks recorded on the water and the samples of a
nearby weather station. It cuts out the fast runs of each track, then gives
every track point the wind that the weather station measured at that
moment. The wind is resampled by a spline through the station's samples.
This project models that core and proves what each step computes:

- `Tracks`: a `TrackSegment` class with its mutable list of points.
  Its methods are `AddTrackPoint`, `GetTimestamps`, and `ExtractByTopSpeed`,
  which cuts the fast sub-segments out of a segment.
- `SpeedRuns`: the value-level specification of `extractByTopSpeed`.
  It proves that the scan yields exactly the maximal runs of fast points
  that are longer than `minPoints`. It also covers the edge cases of
  negative `minPoints` and of runs of exactly `minPoints` points.
- `Windows`: closed forms of the two `getWindData` loops. The current one is
  in `WeatherDataManager`; the older one in `WindViewer` may start with a
  `null`. Both are described as a slice of an ascending sample list: a left
  pad, the samples inside, and the right pads.
- `Resampling`: what `interpolateWindData` gives each target timestamp, field
  by field, for the current passes and for the older ones.
- `WeatherDataManager`, `TrackDataManager` and `WindViewer`: the methods of
  the three Java classes as imperative Dafny over objects that are updated
  in place. Each is proved against the specification functions above.
- `Conversion`: `mapDirection` and the string slicing of
  `parseTemperatureString` in `DataConversionUtility`.
  This includes Java's `String.strip` and its notion of whitespace.

Timestamps (`java.util.Date`) are epoch milliseconds as `int`, and `before`
and `after` are `<` and `>`. Speeds and readings are `real`. The spline
library (`SplineInterpolator`) is a parameter `fit` of type
`(seq<int>, seq<real>) -> (int -> real)`. Nothing is assumed about it: the
proofs show which knots each field's spline is fitted to, where the spline
is evaluated, and which field each pass writes.

Where the code and its documentation disagree, the model follows the code.
`WindDataPoint.direction` is declared as a `String`
(src/at/home/bernd/WindDataPoint.java:33), while the correlation code reads
it as a number. `TrackPoint` declares no wind fields
(src/at/home/bernd/TrackPoint.java), while `addWindDataToTrackSegement`
sets them. The model gives `WindDataPoint` a numeric direction and
`TrackPoint` the three wind fields the correlation code writes.

## Model

| member | source | states |
|---|---|---|
| Tracks.TrackSegment.AddTrackPoint | src/at/home/bernd/TrackSegment.java:38-41 | the point is appended at the end, nothing else changes, and the size grows by one |
| Tracks.TrackSegment.GetTimestamps | src/at/home/bernd/TrackSegment.java:74-84 | a fresh array with one entry per point, holding that point's timestamp at the same position |
| Tracks.TrackSegment.ExtractByTopSpeed | src/at/home/bernd/TrackSegment.java:93-123 | the point lists of the returned segments are exactly `Extract`: the scan that appends fast points to a candidate, and at each slow point and at the end keeps the candidate if it has more than `minPoints` points; every returned segment is fresh and no segment is returned twice |
| SpeedRuns.ExtractIsLongMaximalRuns | src/at/home/bernd/TrackSegment.java:97-122 | for `minPoints >= 0` the result is exactly the maximal runs of consecutive points faster than the threshold that hold more than `minPoints` points, in input order |
| SpeedRuns.MaximalRunsSound | src/at/home/bernd/TrackSegment.java:99-116 | every run the specification lists is non-empty, all fast, bounded by slow points or the ends, and the runs are in increasing order |
| SpeedRuns.MaximalRunsComplete | src/at/home/bernd/TrackSegment.java:99-116 | every maximal run of fast points is listed |
| SpeedRuns.ExtractFastAndLong | src/at/home/bernd/TrackSegment.java:99-120 | for any `minPoints`, each extracted segment has more than `minPoints` points, each strictly faster than the threshold and each one of the input points |
| SpeedRuns.NoFastPointNoSegment | src/at/home/bernd/TrackSegment.java:104-120 | with `minPoints >= 0`, a list with no point faster than the threshold yields no segment |
| SpeedRuns.NegativeMinPointsOnEmptyInput | src/at/home/bernd/TrackSegment.java:118-121 | with negative `minPoints` the empty list yields one empty segment, because the final size test passes for an empty candidate |
| SpeedRuns.NegativeMinPointsAtSlowPoint | src/at/home/bernd/TrackSegment.java:106-121 | with negative `minPoints` one slow point yields two empty segments |
| SpeedRuns.NegativeMinPoints | src/at/home/bernd/TrackSegment.java:104-121 | for every negative `minPoints` every candidate is kept, empty ones included: there is one segment per point no faster than the threshold, plus one, and without the empty ones the result is the maximal runs of fast points |
| SpeedRuns.RunOfExactlyMinPointsDropped | src/at/home/bernd/TrackSegment.java:106-114 | a run of exactly `minPoints` fast points between slow points is dropped (the test is strictly greater) |
| SpeedRuns.RunOfMinPointsPlusOneKept | src/at/home/bernd/TrackSegment.java:106-110 | a run of `minPoints + 1` fast points between slow points is kept, as the one segment |
| SpeedRuns.ExtractExample | src/at/home/bernd/TrackSegment.java:93-123 | speeds 10, 40, 45, 50, 5, 60, 60, 60, 5 with threshold 30 and `minPoints` 2 give the two runs at positions 1-3 and 5-7 |
| TrackDataManager.ExtractTrackData | src/at/home/bernd/TrackDataManager.java:380-392 | the result is `Between`: the points strictly after `from` and strictly before `to`, in order |
| TrackDataManager.BetweenMembers | src/at/home/bernd/TrackDataManager.java:384-389 | a point is in the result if and only if it is in the input and strictly inside the window |
| TrackDataManager.BetweenAppend | src/at/home/bernd/TrackDataManager.java:384-389 | the filter works point by point: the result for a concatenation is the concatenation of the results |
| TrackDataManager.BetweenIdempotent | src/at/home/bernd/TrackDataManager.java:380-392 | cutting the same window twice gives the same points as cutting it once |
| TrackDataManager.ExtractTrackSegments | src/at/home/bernd/TrackDataManager.java:403-419 | the point lists of the result are those `extractByTopSpeed` yields for each segment of each track, track by track and segment by segment, concatenated, each a fresh segment |
| TrackDataManager.AllSegmentsMembers | src/at/home/bernd/TrackDataManager.java:406-409 | a segment is visited if and only if one of the tracks holds it |
| TrackDataManager.ExtractedFromMembers | src/at/home/bernd/TrackDataManager.java:406-416 | a point list is collected if and only if it comes out of `extractByTopSpeed` on one of the segments |
| TrackDataManager.ExtractedFromTracksFastAndLong | src/at/home/bernd/TrackDataManager.java:403-419 | every collected point list has more than `minPoints` points, all faster than the threshold and all from one segment of one of the tracks |
| TrackDataManager.AddWindDataToTrackSegment | src/at/home/bernd/TrackDataManager.java:460-474 | a point takes the direction, wind speed and gust speed of the wind data point at the same position exactly when their timestamps are equal; every other point keeps its wind |
| TrackDataManager.AddWindDataToTrack | src/at/home/bernd/TrackDataManager.java:441-452 | every point of every segment takes the wind resampled at its own timestamp from the wind data window between its segment's first and last timestamps |
| TrackDataManager.AddWindDataToTrackList | src/at/home/bernd/TrackDataManager.java:427-433 | every point of every segment of every track takes the wind resampled at its own timestamp from its segment's window |
| TrackDataManager.ResampledWindOfSnapshot | src/at/home/bernd/TrackDataManager.java:441-452 | as long as the wind data holds the readings recorded before the loop, resampling from it gives the recorded wind; so writing to track points does not change what later segments are given |
| WeatherDataManager.GetWindData | src/at/home/bernd/WeatherDataManager.java:278-317 | the result is `Window`, the loop's own specification, whose closed form the `Windows` lemmas give |
| Windows.WindowIsBracket | src/at/home/bernd/WeatherDataManager.java:278-317 | on an ascending list the window is one slice: from the last sample at or before `from` (or the first sample if there is none), through the first sample at or after `to`, extended to three samples where the list allows |
| Windows.WindowLeftPad | src/at/home/bernd/WeatherDataManager.java:287-298 | when sample k is the first after `from`, the window starts with sample k - 1 |
| Windows.WindowNoLeftPad | src/at/home/bernd/WeatherDataManager.java:287-298 | when the first sample is already after `from`, no pad is added; the window is non-empty if and only if that sample is before `to`, and then it starts with that sample |
| Windows.WindowIncludesInside | src/at/home/bernd/WeatherDataManager.java:306-309 | every sample strictly inside the window's time range is in the result |
| Windows.WindowEmpty | src/at/home/bernd/WeatherDataManager.java:278-317 | the result is empty if and only if no sample lies after `from`, or every sample lies after `from` and at or after `to` |
| Windows.WindowRightPad | src/at/home/bernd/WeatherDataManager.java:299-314 | if a sample reaches `to`, a non-empty window ends with such a sample; it holds at least three samples unless it reaches the end of the list, and a window longer than three has exactly one sample at or after `to` |
| Windows.WindowMembers | src/at/home/bernd/WeatherDataManager.java:278-317 | every sample of the window is one of the input samples |
| Windows.WindowExample | src/at/home/bernd/WeatherDataManager.java:278-317 | timestamps 0, 10, 20, 30 and the window (12, 18) give the samples at 10, 20 and 30 |
| WindViewer.GetWindData | src/at/home/bernd/WindViewer.java:635-668 | the older loop's result is `LegacyWindow`, in which a missing left pad is a `None` (Java's `null`) |
| Windows.LegacyWindowIsBracket | src/at/home/bernd/WindViewer.java:635-668 | on an ascending list the older window is the pad (or `None`), then the samples from the first one after `from` through the first one at or after `to` |
| Windows.LegacyNullLeftPad | src/at/home/bernd/WindViewer.java:644-647 | when the first sample is already after `from`, the older window starts with `None` |
| Windows.LegacyLeftPad | src/at/home/bernd/WindViewer.java:644-652 | when sample k is the first after `from`, the older window starts with sample k - 1 |
| Windows.LegacyWindowEmpty | src/at/home/bernd/WindViewer.java:635-668 | the older window is empty if and only if no sample lies after `from` |
| Windows.LegacyWindowIncludesInside | src/at/home/bernd/WindViewer.java:657-660 | every sample strictly inside the range is in the older window |
| Windows.LegacyOneRightPad | src/at/home/bernd/WindViewer.java:653-665 | if a sample reaches `to`, the older window ends with exactly one such sample, and everything between the pad and it lies strictly inside the range |
| Windows.LegacyWindowExample | src/at/home/bernd/WindViewer.java:635-668 | timestamps 0, 10, 20, 30 and the window (12, 18) give only the samples at 10 and 20 |
| WeatherDataManager.CreateEmptyWindDataPoints | src/at/home/bernd/WeatherDataManager.java:389-399 | one fresh point per timestamp, in order, with every reading 0 |
| WeatherDataManager.CreateInterpolationFunction | src/at/home/bernd/WeatherDataManager.java:408-442 | the spline is `fit` applied to the samples' timestamps and their values of the requested field, in order |
| WeatherDataManager.PopulateInterpolatedWindData | src/at/home/bernd/WeatherDataManager.java:454-490 | each point whose timestamp lies in [minTs, maxTs] gets the requested field set to the spline's value at its timestamp; every other field, and every point outside the range, is unchanged |
| WeatherDataManager.InterpolateWindData | src/at/home/bernd/WeatherDataManager.java:499-530 | one fresh point per target timestamp, in order, holding `Resampled`: the five passes applied to a point that starts with every reading 0 |
| Resampling.ResampledFields | src/at/home/bernd/WeatherDataManager.java:499-530 | field by field: a target between the first and last sample gets that field's own spline of the samples at its timestamp, and a target outside keeps 0 |
| Resampling.PopulatedWritesOnlyItsField | src/at/home/bernd/WeatherDataManager.java:470-489 | a pass changes no field other than its own |
| Resampling.PopulatedIdempotent | src/at/home/bernd/WeatherDataManager.java:462-489 | doing a pass twice on the same point gives the same readings as doing it once |
| WindViewer.CreateInterpolationFunction | src/at/home/bernd/WindViewer.java:758-789 | the older spline is fitted to the timestamps and the field's values, with 0 for the direction, which its switch has no case for |
| WindViewer.PopulateInterpolatedWindData | src/at/home/bernd/WindViewer.java:799-824 | the older pass sets the field on every point, with no range check; the direction is left unchanged |
| WindViewer.InterpolateWindData | src/at/home/bernd/WindViewer.java:833-849 | one fresh point per target timestamp holding `LegacyResampled`: the four older passes applied to a point with every reading 0 |
| Resampling.LegacyResampledFields | src/at/home/bernd/WindViewer.java:833-849 | the older resampling gives wind speed, gust speed, temperature and chill their spline's value at every target, in range or not, and leaves the direction at 0 |
| Resampling.LegacyPopulatedIdempotent | src/at/home/bernd/WindViewer.java:799-824 | doing an older pass twice on the same point gives the same readings as doing it once |
| Resampling.ResamplingVersionsAgree | src/at/home/bernd/WindViewer.java:833-849 | within the range of the samples, the older and the current resampling agree on every field the older one fills |
| WindViewer.GetTrackData | src/at/home/bernd/WindViewer.java:521-533 | the older copy computes the same `Between` as `extractTrackData` |
| WindViewer.ExtractTrackSegments | src/at/home/bernd/WindViewer.java:609-625 | the older copy computes the same fresh segments as `extractTrackSegments` |
| WindViewer.CreateEmptyWindDataPoints | src/at/home/bernd/WindViewer.java:739-749 | one fresh point per timestamp, in order, with every reading 0 |
| Conversion.StripLeading | src/at/home/bernd/DataConversionUtility.java:111 | the result is a suffix of the input whose removed part is all whitespace, and it is empty or starts with a non-whitespace character |
| Conversion.StripTrailing | src/at/home/bernd/DataConversionUtility.java:111 | the result is a prefix of the input whose removed part is all whitespace, and it is empty or ends with a non-whitespace character |
| Conversion.StripDecomposes | src/at/home/bernd/DataConversionUtility.java:111 | every text is whitespace, then its strip, then whitespace |
| Conversion.StripOfPadded | src/at/home/bernd/DataConversionUtility.java:111 | whitespace around a core that has no whitespace at either end strips to exactly that core |
| Conversion.StripIgnoresPadding | src/at/home/bernd/DataConversionUtility.java:111 | adding whitespace around a text does not change its strip |
| Conversion.StripIdempotent | src/at/home/bernd/DataConversionUtility.java:111 | stripping twice is stripping once |
| Conversion.MapDirection | src/at/home/bernd/DataConversionUtility.java:109-129 | the result is -1 or lies in (0, 360]; a result other than -1 is 22.5 * (k + 1) for a compass point k that the stripped text names in English or German |
| Conversion.MapDirectionEnglish | src/at/home/bernd/DataConversionUtility.java:112-127 | the k-th English point clockwise from NNE, with any whitespace around it, maps to 22.5 * (k + 1), so N is 360 |
| Conversion.MapDirectionGerman | src/at/home/bernd/DataConversionUtility.java:112-127 | the same for the German names, where east is O |
| Conversion.MapDirectionUnknown | src/at/home/bernd/DataConversionUtility.java:128 | the result is -1 if and only if the stripped text names no compass point |
| Conversion.MapDirectionIgnoresPadding | src/at/home/bernd/DataConversionUtility.java:111 | whitespace around the text does not change the direction |
| Conversion.MapDirectionNorth | src/at/home/bernd/DataConversionUtility.java:127 | " N " maps to 360 |
| Conversion.MapDirectionGermanEast | src/at/home/bernd/DataConversionUtility.java:115 | "O" maps to 90 |
| Conversion.DegreesLowerCase | src/at/home/bernd/DataConversionUtility.java:112-128 | the comparison is case-sensitive: a text starting with a lower-case letter is never recognised |
| Conversion.MapDirectionCaseSensitive | src/at/home/bernd/DataConversionUtility.java:112-128 | "n" maps to -1 |
| Conversion.IndexOf | src/at/home/bernd/DataConversionUtility.java:67 | -1 if and only if the character does not occur; otherwise the position of its first occurrence |
| Conversion.TemperatureText | src/at/home/bernd/DataConversionUtility.java:64-73 | the text handed to `Double.parseDouble` is a prefix of the stripped input. It is cut just before the first 'C' when that 'C' is not the first character, and is the stripped input otherwise |
| Conversion.TemperatureTextOfNumber | src/at/home/bernd/DataConversionUtility.java:66-71 | a text that strips to a number without 'C', then 'C', then anything, yields exactly that number text |
| Conversion.TemperatureTextPadded | src/at/home/bernd/test/DataConversionUtilityTest.java:40 | " 28.3 C" yields "28.3 " |
| Conversion.TemperatureTextWithUnit | src/at/home/bernd/test/DataConversionUtilityTest.java:43 | "28.4 C" yields "28.4 " |
| Conversion.TemperatureTextWithoutUnit | src/at/home/bernd/test/DataConversionUtilityTest.java:46 | "28.5" yields "28.5" |
| Conversion.LegacyTemperatureText | src/at/home/bernd/WindViewer.java:477-483 | the older version cuts at the first 'C' whatever its position: no 'C' (where `substring` throws) gives `None`, and a leading 'C' gives the empty text |
| Conversion.TemperatureVersionsAgree | src/at/home/bernd/WindViewer.java:477-483 | when the stripped text has a 'C' after its first character, both versions yield the same text |

## Left out

- Reading and parsing the GPX tracks and the XHTML weather tables, the charts, console output and date formatting are I/O and are not modelled.
- `Double.parseDouble` is not modelled. The temperature model stops at the text handed to it, and a malformed number is not an error here.
- Floating point: speeds, readings and degrees are `real`, so rounding in comparisons and in the spline is not modelled.
- The spline library is a parameter. Its requirements (at least three knots, strictly increasing times) and the exceptions it and `value` throw outside the knots are not modelled.
- `Character.isWhitespace` is modelled by code point, and a `char` here is one Unicode scalar value, so `strip` sees supplementary characters as Java's code-point decoding does. Lone surrogates, which a Java `String` can hold but a `char` here cannot, and UTF-16 indexing (`indexOf` and `substring` count UTF-16 units, the model counts code points) are not modelled.
- Tracks.TrackSegment.Size: a one-line getter with no contract of its own. `AddTrackPoint` and `GetTimestamps` state their results in terms of it.
- TrackDataManager.AddWindDataToTrackSegment: requires that the wind data is at least as long as the segment, where the iterator's `next` throws `NoSuchElementException`. It also requires that no point occurs twice in the segment, where Java would write the same point twice.
- TrackDataManager.AddWindDataToTrack: requires that every segment has a first and a last point and a non-empty wind window, where Java throws. It also requires that no track point occurs twice, in one segment or in two, where Java would let later writes win.
- TrackDataManager.AddWindDataToTrackList: the same requirements as `AddWindDataToTrack`, over all tracks.
- WeatherDataManager.InterpolateWindData: requires at least one sample, where Java throws `IndexOutOfBoundsException` on the empty list.
- `TrackSegment.isWindInfoAvailable`/`setWindInfoAvailable`, `Track.addTrackSegment` and the getters and setters of the data classes are plain field access and are not modelled separately.

## Findings

| source | as written | input that shows it | evidently intended | confidence | as-written member | corrected member |
|---|---|---|---|---|---|---|
| src/at/home/bernd/WindViewer.java:644-647 | the older `getWindData` appends `firstWdp` at the first sample after `from` even when no sample came before, so the window starts with `null` | samples at 10 and 20 with `from` = 5 and `to` = 15: the result is `[null, 10, 20]`, and `createInterpolationFunction` dereferences that `null` (src/at/home/bernd/WindViewer.java:766-767) | append the left pad only when one exists, as `WeatherDataManager.getWindData` does (src/at/home/bernd/WeatherDataManager.java:289-293) | not executed | Windows.LegacyNullLeftPad | Windows.WindowNoLeftPad |
