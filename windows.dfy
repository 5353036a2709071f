/**
 * What getWindData computes: the weather samples that bracket a time window
 * (src/at/home/bernd/WeatherDataManager.java:278-317), and the older variant
 * in src/at/home/bernd/WindViewer.java:635-668.
 *
 * `WindowFrom` and `LegacyWindowFrom` are the two loops step by step: the
 * left-pad step, the early exit, and the keep step, over the state the loops
 * carry (the result so far, the pending left pad, and the two flags). For
 * chronologically ascending input each is proved equal to a closed form, a
 * slice of the input, and the properties of the window follow from that.
 */
module Windows {
  import opened Wrappers
  import opened Points

  function Min(x: int, y: int): int
  {
    if x <= y then x else y
  }

  function Max(x: int, y: int): int
  {
    if x <= y then y else x
  }

  /** Chronological order (equal timestamps allowed). */
  predicate Ascending(ws: seq<WindDataPoint>)
  {
    forall j, k | 0 <= j < k < |ws| :: ws[j].timestamp <= ws[k].timestamp
  }

  /** Strictly between the bounds: both bounds are exclusive (Date.before / Date.after). */
  predicate Inside(ts: int, from: int, to: int)
  {
    from < ts < to
  }

  /** The first index at or after i whose sample lies after `from` (|ws| when there is none). */
  function FirstAfter(ws: seq<WindDataPoint>, from: int, i: nat): (k: nat)
    requires i <= |ws|
    ensures i <= k <= |ws|
    ensures forall j | i <= j < k :: ws[j].timestamp <= from
    ensures k < |ws| ==> from < ws[k].timestamp
    decreases |ws| - i
  {
    if i == |ws| || from < ws[i].timestamp then i else FirstAfter(ws, from, i + 1)
  }

  /** The first index at or after i whose sample lies at or after `to` (|ws| when there is none). */
  function FirstAtOrAfter(ws: seq<WindDataPoint>, to: int, i: nat): (k: nat)
    requires i <= |ws|
    ensures i <= k <= |ws|
    ensures forall j | i <= j < k :: ws[j].timestamp < to
    ensures k < |ws| ==> to <= ws[k].timestamp
    decreases |ws| - i
  {
    if i == |ws| || to <= ws[i].timestamp then i else FirstAtOrAfter(ws, to, i + 1)
  }

  // ---------------------------------------------------------------------------
  // The current variant (WeatherDataManager.getWindData)
  // ---------------------------------------------------------------------------

  /** The loop state: result, firstWdp, isFirstWdpAdded, isLastWdpAdded. */
  datatype Scan = Scan(result: seq<WindDataPoint>, firstWdp: Option<WindDataPoint>, firstAdded: bool, lastAdded: bool)

  const Start := Scan([], None, false, false)

  /**
   * The left-pad step: at the first sample after `from` the pending sample is
   * appended, but only if there is one; every other sample becomes the pending one.
   */
  function PadStep(st: Scan, w: WindDataPoint, from: int): Scan
  {
    if from < w.timestamp && !st.firstAdded then
      if st.firstWdp.Some? then st.(result := st.result + [st.firstWdp.value], firstAdded := true) else st
    else
      st.(firstWdp := Some(w))
  }

  /** The keep step: samples inside the window are appended, and so is any later sample once the result is non-empty. */
  function KeepStep(st: Scan, w: WindDataPoint, from: int, to: int): Scan
  {
    if Inside(w.timestamp, from, to) then st.(result := st.result + [w])
    else if |st.result| > 0 then st.(result := st.result + [w], lastAdded := true)
    else st
  }

  /** The loop from sample i on; it stops early once a right pad was appended and more than two samples are kept. */
  function WindowFrom(ws: seq<WindDataPoint>, from: int, to: int, st: Scan, i: nat): seq<WindDataPoint>
    requires i <= |ws|
    decreases |ws| - i
  {
    if i == |ws| then st.result
    else
      var st' := PadStep(st, ws[i], from);
      if st'.lastAdded && |st'.result| > 2 then st'.result
      else WindowFrom(ws, from, to, KeepStep(st', ws[i], from, to), i + 1)
  }

  /** What getWindData(windData, from, to) returns. */
  function Window(ws: seq<WindDataPoint>, from: int, to: int): seq<WindDataPoint>
  {
    WindowFrom(ws, from, to, Start, 0)
  }

  /** The loop only ever appends samples of the input. */
  lemma {:induction false} WindowFromMembers(ws: seq<WindDataPoint>, from: int, to: int, st: Scan, i: nat)
    requires i <= |ws|
    requires forall w | w in st.result :: w in ws
    requires st.firstWdp.Some? ==> st.firstWdp.value in ws
    ensures forall w | w in WindowFrom(ws, from, to, st, i) :: w in ws
    decreases |ws| - i
  {
    if i < |ws| {
      var st' := PadStep(st, ws[i], from);
      if !(st'.lastAdded && |st'.result| > 2) {
        WindowFromMembers(ws, from, to, KeepStep(st', ws[i], from, to), i + 1);
      }
    }
  }

  /** Every sample of the window is one of the input samples. */
  lemma WindowMembers(ws: seq<WindDataPoint>, from: int, to: int)
    ensures forall w | w in Window(ws, from, to) :: w in ws
  {
    WindowFromMembers(ws, from, to, Start, 0);
  }

  /** The end of the right padding: one sample at or after `to`, more until three samples are kept. */
  function RightEnd(n: nat, lo: nat, c: nat): (e: nat)
    ensures c <= n ==> Min(n, c + 1) <= e <= n
  {
    if c == n then n else Min(n, Max(c + 1, lo + 3))
  }

  /**
   * The window of an ascending list in closed form: the last sample at or
   * before `from` (if any), the samples inside, and right pads.
   */
  function Bracket(ws: seq<WindDataPoint>, from: int, to: int): seq<WindDataPoint>
  {
    var a := FirstAfter(ws, from, 0);
    var c := FirstAtOrAfter(ws, to, a);
    var lo := if a > 0 then a - 1 else 0;
    if a == |ws| || lo == c then [] else ws[lo..RightEnd(|ws|, lo, c)]
  }

  /** The state before sample i while no sample after `from` has been met. */
  function PrefixState(ws: seq<WindDataPoint>, i: nat): Scan
    requires i <= |ws|
  {
    Scan([], if i == 0 then None else Some(ws[i - 1]), false, false)
  }

  lemma {:induction false} PrefixPhase(ws: seq<WindDataPoint>, from: int, to: int, a: nat, i: nat)
    requires i <= a <= |ws|
    requires forall j | i <= j < a :: ws[j].timestamp <= from
    ensures WindowFrom(ws, from, to, PrefixState(ws, i), i) == WindowFrom(ws, from, to, PrefixState(ws, a), a)
    decreases a - i
  {
    if i < a {
      assert PadStep(PrefixState(ws, i), ws[i], from) == PrefixState(ws, i + 1);
      assert KeepStep(PrefixState(ws, i + 1), ws[i], from, to) == PrefixState(ws, i + 1);
      PrefixPhase(ws, from, to, a, i + 1);
    }
  }

  /** When every remaining sample is after both bounds and nothing is pending, nothing is ever kept. */
  lemma {:induction false} DeadPhase(ws: seq<WindDataPoint>, from: int, to: int, i: nat)
    requires i <= |ws|
    requires forall j | i <= j < |ws| :: from < ws[j].timestamp && to <= ws[j].timestamp
    ensures WindowFrom(ws, from, to, Start, i) == []
    decreases |ws| - i
  {
    if i < |ws| {
      assert PadStep(Start, ws[i], from) == Start;
      assert KeepStep(Start, ws[i], from, to) == Start;
      DeadPhase(ws, from, to, i + 1);
    }
  }

  /**
   * Once the left pad is settled, the result is the slice ws[lo..i]; inside
   * samples extend it, and from index c on it is padded up to RightEnd.
   */
  lemma {:induction false} SettledPhase(ws: seq<WindDataPoint>, from: int, to: int, lo: nat, c: nat, st: Scan, i: nat)
    requires lo < c <= |ws| && lo <= i <= RightEnd(|ws|, lo, c) <= |ws|
    requires forall j | i <= j < |ws| :: from < ws[j].timestamp
    requires forall j | i <= j < c :: ws[j].timestamp < to
    requires forall j | c <= j < |ws| :: to <= ws[j].timestamp
    requires st.firstAdded || st.firstWdp.None?
    requires st.result == ws[lo..i]
    requires st.lastAdded <==> c < i
    ensures WindowFrom(ws, from, to, st, i) == ws[lo..RightEnd(|ws|, lo, c)]
    decreases |ws| - i
  {
    if i < |ws| {
      var st1 := PadStep(st, ws[i], from);
      assert st1.result == st.result && st1.lastAdded == st.lastAdded;
      assert st1.firstAdded || st1.firstWdp.None?;
      if !(st1.lastAdded && |st1.result| > 2) {
        var st2 := KeepStep(st1, ws[i], from, to);
        assert ws[lo..i] + [ws[i]] == ws[lo..i + 1];
        assert st2.result == ws[lo..i + 1];
        SettledPhase(ws, from, to, lo, c, st2, i + 1);
      }
    }
  }

  /** In an ascending list every sample from the first one after `from` on is after `from`, and likewise for `to`. */
  lemma AscendingBounds(ws: seq<WindDataPoint>, from: int, to: int)
    requires Ascending(ws)
    ensures var a := FirstAfter(ws, from, 0);
      forall j | a <= j < |ws| :: from < ws[j].timestamp
    ensures var c := FirstAtOrAfter(ws, to, FirstAfter(ws, from, 0));
      forall j | c <= j < |ws| :: to <= ws[j].timestamp
  {
    var a := FirstAfter(ws, from, 0);
    var c := FirstAtOrAfter(ws, to, a);
    forall j | a <= j < |ws| ensures from < ws[j].timestamp {
      assert ws[a].timestamp <= ws[j].timestamp;
    }
    forall j | c <= j < |ws| ensures to <= ws[j].timestamp {
      assert ws[c].timestamp <= ws[j].timestamp;
    }
  }

  /** The step at the first sample after `from`, when there is a sample before it: the pad and that sample are kept. */
  lemma PadAtFirstAfter(ws: seq<WindDataPoint>, from: int, to: int, a: nat)
    requires 0 < a < |ws| && from < ws[a].timestamp
    ensures WindowFrom(ws, from, to, PrefixState(ws, a), a)
         == WindowFrom(ws, from, to, Scan(ws[a - 1..a + 1], Some(ws[a - 1]), true, to <= ws[a].timestamp), a + 1)
  {
    var st1 := PadStep(PrefixState(ws, a), ws[a], from);
    assert st1 == Scan([ws[a - 1]], Some(ws[a - 1]), true, false);
    assert [ws[a - 1]] + [ws[a]] == ws[a - 1..a + 1];
  }

  /** For ascending input the loop computes the closed form. */
  lemma WindowIsBracket(ws: seq<WindDataPoint>, from: int, to: int)
    requires Ascending(ws)
    ensures Window(ws, from, to) == Bracket(ws, from, to)
  {
    var n := |ws|;
    var a := FirstAfter(ws, from, 0);
    var c := FirstAtOrAfter(ws, to, a);
    var lo := if a > 0 then a - 1 else 0;
    PrefixPhase(ws, from, to, a, 0);
    assert PrefixState(ws, 0) == Start;
    if a < n {
      AscendingBounds(ws, from, to);
      if a == 0 {
        if c == 0 {
          DeadPhase(ws, from, to, 0);
        } else {
          assert Start.result == ws[0..0];
          SettledPhase(ws, from, to, 0, c, Start, 0);
        }
      } else {
        PadAtFirstAfter(ws, from, to, a);
        SettledPhase(ws, from, to, lo, c, Scan(ws[a - 1..a + 1], Some(ws[a - 1]), true, to <= ws[a].timestamp), a + 1);
      }
    }
  }

  /** For ascending input the window is one contiguous stretch of the input, in input order. */
  lemma WindowIsSlice(ws: seq<WindDataPoint>, from: int, to: int)
    requires Ascending(ws)
    ensures exists lo, hi | 0 <= lo <= hi <= |ws| :: Window(ws, from, to) == ws[lo..hi]
  {
    WindowIsBracket(ws, from, to);
    var a := FirstAfter(ws, from, 0);
    var c := FirstAtOrAfter(ws, to, a);
    var lo := if a > 0 then a - 1 else 0;
    if a == |ws| || lo == c {
      assert Window(ws, from, to) == ws[0..0];
    } else {
      assert Window(ws, from, to) == ws[lo..RightEnd(|ws|, lo, c)];
    }
  }

  /** In an ascending list, the position of the first sample after `from`. */
  lemma FirstAfterAt(ws: seq<WindDataPoint>, from: int, k: nat)
    requires Ascending(ws) && k <= |ws|
    requires k == 0 || ws[k - 1].timestamp <= from
    requires k == |ws| || from < ws[k].timestamp
    ensures FirstAfter(ws, from, 0) == k
  {
    var a := FirstAfter(ws, from, 0);
  }

  /**
   * Left pad: when sample k is the first one after `from`, the window starts
   * with the sample before it, the last one at or before `from`.
   */
  lemma WindowLeftPad(ws: seq<WindDataPoint>, from: int, to: int, k: nat)
    requires Ascending(ws)
    requires 0 < k < |ws| && ws[k - 1].timestamp <= from < ws[k].timestamp
    ensures |Window(ws, from, to)| > 0 && Window(ws, from, to)[0] == ws[k - 1]
  {
    WindowIsBracket(ws, from, to);
    FirstAfterAt(ws, from, k);
  }

  /**
   * No left pad: when the first sample is already after `from`, the window is
   * non-empty exactly when that sample is before `to`, and then starts with it.
   */
  lemma WindowNoLeftPad(ws: seq<WindDataPoint>, from: int, to: int)
    requires Ascending(ws)
    requires |ws| > 0 && from < ws[0].timestamp
    ensures |Window(ws, from, to)| > 0 <==> ws[0].timestamp < to
    ensures |Window(ws, from, to)| > 0 ==> Window(ws, from, to)[0] == ws[0]
  {
    WindowIsBracket(ws, from, to);
    FirstAfterAt(ws, from, 0);
  }

  /** Every sample strictly inside (from, to) is in the window. */
  lemma WindowIncludesInside(ws: seq<WindDataPoint>, from: int, to: int, k: nat)
    requires Ascending(ws)
    requires k < |ws| && from < ws[k].timestamp < to
    ensures ws[k] in Window(ws, from, to)
  {
    WindowIsBracket(ws, from, to);
    var a := FirstAfter(ws, from, 0);
    var c := FirstAtOrAfter(ws, to, a);
    var lo := if a > 0 then a - 1 else 0;
    assert a <= k;
    var r := ws[lo..RightEnd(|ws|, lo, c)];
    assert r[k - lo] == ws[k];
  }

  /**
   * The window is empty exactly when no sample lies after `from`, or when every
   * sample lies after `from` and at or after `to`.
   */
  lemma WindowEmpty(ws: seq<WindDataPoint>, from: int, to: int)
    requires Ascending(ws)
    ensures Window(ws, from, to) == [] <==>
              (forall k | 0 <= k < |ws| :: ws[k].timestamp <= from)
              || (forall k | 0 <= k < |ws| :: from < ws[k].timestamp && to <= ws[k].timestamp)
  {
    WindowIsBracket(ws, from, to);
    var a := FirstAfter(ws, from, 0);
    var c := FirstAtOrAfter(ws, to, a);
    if a < |ws| {
      assert !(forall k | 0 <= k < |ws| :: ws[k].timestamp <= from) by {
        assert from < ws[a].timestamp;
      }
      if a == 0 && c == 0 {
        forall k | 0 <= k < |ws| ensures from < ws[k].timestamp && to <= ws[k].timestamp {
          assert ws[0].timestamp <= ws[k].timestamp;
        }
      } else if a > 0 {
        assert !(from < ws[0].timestamp);
      } else {
        assert !(to <= ws[0].timestamp);
      }
    }
  }

  /**
   * Right pad: if a sample after `from` lies at or after `to`, a non-empty
   * window ends with such a sample; it holds at least three samples unless it
   * reaches the end of the input; and a window of more than three samples has
   * exactly one sample at or after `to`.
   */
  lemma WindowRightPad(ws: seq<WindDataPoint>, from: int, to: int, j: nat)
    requires Ascending(ws)
    requires j < |ws| && from < ws[j].timestamp && to <= ws[j].timestamp
    requires Window(ws, from, to) != []
    ensures var r := Window(ws, from, to);
      && to <= r[|r| - 1].timestamp
      && (|r| >= 3 || r[|r| - 1] == ws[|ws| - 1])
      && (|r| > 3 ==> r[|r| - 2].timestamp < to)
  {
    WindowIsBracket(ws, from, to);
    var a := FirstAfter(ws, from, 0);
    var c := FirstAtOrAfter(ws, to, a);
    assert a <= j;
    assert c <= j;
    assert to <= ws[c].timestamp;
    var lo := if a > 0 then a - 1 else 0;
    var e := RightEnd(|ws|, lo, c);
    assert ws[c].timestamp <= ws[e - 1].timestamp;
  }

  /** Timestamps [0, 10, 20, 30] with window (12, 18): pad 10, no sample inside, pads 20 and 30. */
  lemma WindowExample(ws: seq<WindDataPoint>)
    requires |ws| == 4
    requires ws[0].timestamp == 0 && ws[1].timestamp == 10 && ws[2].timestamp == 20 && ws[3].timestamp == 30
    ensures Window(ws, 12, 18) == ws[1..4]
  {
    WindowIsBracket(ws, 12, 18);
    FirstAfterAt(ws, 12, 2);
    assert FirstAtOrAfter(ws, 18, 2) == 2;
  }

  // ---------------------------------------------------------------------------
  // The older variant (WindViewer.getWindData)
  // ---------------------------------------------------------------------------

  /** The loop state of the older variant; its result may hold a null (None) left pad. */
  datatype LegacyScan = LegacyScan(result: seq<Option<WindDataPoint>>, firstWdp: Option<WindDataPoint>,
                                   firstAdded: bool, lastAdded: bool)

  const LegacyStart := LegacyScan([], None, false, false)

  /** The left-pad step of the older variant: the pending sample is appended even when there is none. */
  function LegacyPadStep(st: LegacyScan, w: WindDataPoint, from: int): LegacyScan
  {
    if from < w.timestamp && !st.firstAdded then st.(result := st.result + [st.firstWdp], firstAdded := true)
    else st.(firstWdp := Some(w))
  }

  function LegacyKeepStep(st: LegacyScan, w: WindDataPoint, from: int, to: int): LegacyScan
  {
    if Inside(w.timestamp, from, to) then st.(result := st.result + [Some(w)])
    else if |st.result| > 0 then st.(result := st.result + [Some(w)], lastAdded := true)
    else st
  }

  /** The older loop from sample i on; it stops at the first sample after a right pad was appended. */
  function LegacyWindowFrom(ws: seq<WindDataPoint>, from: int, to: int, st: LegacyScan, i: nat): seq<Option<WindDataPoint>>
    requires i <= |ws|
    decreases |ws| - i
  {
    if i == |ws| then st.result
    else
      var st' := LegacyPadStep(st, ws[i], from);
      if st'.lastAdded then st'.result
      else LegacyWindowFrom(ws, from, to, LegacyKeepStep(st', ws[i], from, to), i + 1)
  }

  /** What the older getWindData(windData, from, to) returns. */
  function LegacyWindow(ws: seq<WindDataPoint>, from: int, to: int): seq<Option<WindDataPoint>>
  {
    LegacyWindowFrom(ws, from, to, LegacyStart, 0)
  }

  /** The samples of s, each wrapped as present. */
  function Wrap(s: seq<WindDataPoint>): seq<Option<WindDataPoint>>
  {
    seq(|s|, k requires 0 <= k < |s| => Some(s[k]))
  }

  /**
   * The older window of an ascending list in closed form: the pending sample
   * (None when the first sample is already after `from`), the samples inside,
   * and exactly one right pad if there is one.
   */
  function LegacyBracket(ws: seq<WindDataPoint>, from: int, to: int): seq<Option<WindDataPoint>>
  {
    var a := FirstAfter(ws, from, 0);
    var c := FirstAtOrAfter(ws, to, a);
    if a == |ws| then []
    else [if a > 0 then Some(ws[a - 1]) else None] + Wrap(ws[a..Min(c + 1, |ws|)])
  }

  function LegacyPrefixState(ws: seq<WindDataPoint>, i: nat): LegacyScan
    requires i <= |ws|
  {
    LegacyScan([], if i == 0 then None else Some(ws[i - 1]), false, false)
  }

  lemma {:induction false} LegacyPrefixPhase(ws: seq<WindDataPoint>, from: int, to: int, a: nat, i: nat)
    requires i <= a <= |ws|
    requires forall j | i <= j < a :: ws[j].timestamp <= from
    ensures LegacyWindowFrom(ws, from, to, LegacyPrefixState(ws, i), i)
         == LegacyWindowFrom(ws, from, to, LegacyPrefixState(ws, a), a)
    decreases a - i
  {
    if i < a {
      assert LegacyPadStep(LegacyPrefixState(ws, i), ws[i], from) == LegacyPrefixState(ws, i + 1);
      assert LegacyKeepStep(LegacyPrefixState(ws, i + 1), ws[i], from, to) == LegacyPrefixState(ws, i + 1);
      LegacyPrefixPhase(ws, from, to, a, i + 1);
    }
  }

  lemma {:induction false} LegacySettledPhase(ws: seq<WindDataPoint>, from: int, to: int,
                                              pad: Option<WindDataPoint>, a: nat, c: nat, st: LegacyScan, i: nat)
    requires a <= c <= |ws| && a < i <= Min(c + 1, |ws|)
    requires forall j | i <= j < |ws| :: from < ws[j].timestamp
    requires forall j | i <= j < c :: ws[j].timestamp < to
    requires c < |ws| ==> to <= ws[c].timestamp
    requires st.firstAdded
    requires st.result == [pad] + Wrap(ws[a..i])
    requires st.lastAdded <==> c < i
    ensures LegacyWindowFrom(ws, from, to, st, i) == [pad] + Wrap(ws[a..Min(c + 1, |ws|)])
    decreases |ws| - i
  {
    if i < |ws| {
      var st1 := LegacyPadStep(st, ws[i], from);
      assert st1.result == st.result && st1.lastAdded == st.lastAdded && st1.firstAdded;
      if !st1.lastAdded {
        var st2 := LegacyKeepStep(st1, ws[i], from, to);
        assert Wrap(ws[a..i]) + [Some(ws[i])] == Wrap(ws[a..i + 1]);
        assert st2.result == [pad] + Wrap(ws[a..i + 1]);
        LegacySettledPhase(ws, from, to, pad, a, c, st2, i + 1);
      }
    }
  }

  /** The step of the older loop at the first sample after `from`: the pad (present or not) and that sample are kept. */
  lemma LegacyPadAtFirstAfter(ws: seq<WindDataPoint>, from: int, to: int, a: nat)
    requires a < |ws| && from < ws[a].timestamp
    ensures var pad := if a > 0 then Some(ws[a - 1]) else None;
      LegacyWindowFrom(ws, from, to, LegacyPrefixState(ws, a), a)
      == LegacyWindowFrom(ws, from, to, LegacyScan([pad] + Wrap(ws[a..a + 1]), pad, true, to <= ws[a].timestamp), a + 1)
  {
    var pad := if a > 0 then Some(ws[a - 1]) else None;
    var st1 := LegacyPadStep(LegacyPrefixState(ws, a), ws[a], from);
    assert st1 == LegacyScan([pad], pad, true, false);
    assert Wrap(ws[a..a + 1]) == [Some(ws[a])];
  }

  /** For ascending input the older loop computes its closed form. */
  lemma LegacyWindowIsBracket(ws: seq<WindDataPoint>, from: int, to: int)
    requires Ascending(ws)
    ensures LegacyWindow(ws, from, to) == LegacyBracket(ws, from, to)
  {
    var a := FirstAfter(ws, from, 0);
    var c := FirstAtOrAfter(ws, to, a);
    LegacyPrefixPhase(ws, from, to, a, 0);
    assert LegacyPrefixState(ws, 0) == LegacyStart;
    if a < |ws| {
      AscendingBounds(ws, from, to);
      var pad := if a > 0 then Some(ws[a - 1]) else None;
      LegacyPadAtFirstAfter(ws, from, to, a);
      LegacySettledPhase(ws, from, to, pad, a, c,
                         LegacyScan([pad] + Wrap(ws[a..a + 1]), pad, true, to <= ws[a].timestamp), a + 1);
    }
  }

  /** The older variant appends a null pad when the first sample is already after `from`. */
  lemma LegacyNullLeftPad(ws: seq<WindDataPoint>, from: int, to: int)
    requires Ascending(ws)
    requires |ws| > 0 && from < ws[0].timestamp
    ensures |LegacyWindow(ws, from, to)| > 0 && LegacyWindow(ws, from, to)[0] == None
  {
    LegacyWindowIsBracket(ws, from, to);
    FirstAfterAt(ws, from, 0);
  }

  /** Otherwise its left pad is the last sample at or before `from`. */
  lemma LegacyLeftPad(ws: seq<WindDataPoint>, from: int, to: int, k: nat)
    requires Ascending(ws)
    requires 0 < k < |ws| && ws[k - 1].timestamp <= from < ws[k].timestamp
    ensures |LegacyWindow(ws, from, to)| > 0 && LegacyWindow(ws, from, to)[0] == Some(ws[k - 1])
  {
    LegacyWindowIsBracket(ws, from, to);
    FirstAfterAt(ws, from, k);
  }

  /** The older variant is empty exactly when no sample lies after `from`. */
  lemma LegacyWindowEmpty(ws: seq<WindDataPoint>, from: int, to: int)
    requires Ascending(ws)
    ensures LegacyWindow(ws, from, to) == [] <==> forall k | 0 <= k < |ws| :: ws[k].timestamp <= from
  {
    LegacyWindowIsBracket(ws, from, to);
    var a := FirstAfter(ws, from, 0);
    if a < |ws| {
      assert from < ws[a].timestamp;
    }
  }

  /** Every sample strictly inside (from, to) is in the older window too. */
  lemma LegacyWindowIncludesInside(ws: seq<WindDataPoint>, from: int, to: int, k: nat)
    requires Ascending(ws)
    requires k < |ws| && from < ws[k].timestamp < to
    ensures Some(ws[k]) in LegacyWindow(ws, from, to)
  {
    LegacyWindowIsBracket(ws, from, to);
    var a := FirstAfter(ws, from, 0);
    var c := FirstAtOrAfter(ws, to, a);
    assert a <= k;
    var r := LegacyBracket(ws, from, to);
    assert r[1 + k - a] == Some(ws[k]);
  }

  /**
   * Exactly one right pad: if a sample after `from` lies at or after `to`, the
   * older window ends with such a sample, and every entry between the left pad
   * and that last one lies strictly inside (from, to).
   */
  lemma LegacyOneRightPad(ws: seq<WindDataPoint>, from: int, to: int, j: nat)
    requires Ascending(ws)
    requires j < |ws| && from < ws[j].timestamp && to <= ws[j].timestamp
    ensures var r := LegacyWindow(ws, from, to);
      && |r| >= 2
      && r[|r| - 1].Some? && to <= r[|r| - 1].value.timestamp
      && forall k | 1 <= k < |r| - 1 :: r[k].Some? && Inside(r[k].value.timestamp, from, to)
  {
    LegacyWindowIsBracket(ws, from, to);
    var a := FirstAfter(ws, from, 0);
    var c := FirstAtOrAfter(ws, to, a);
    assert a <= j;
    assert c <= j;
    var r := LegacyBracket(ws, from, to);
    assert |r| == c - a + 2;
    forall k | 1 <= k < |r| - 1
      ensures r[k].Some? && Inside(r[k].value.timestamp, from, to)
    {
      assert r[k] == Some(ws[a + k - 1]);
      assert ws[a].timestamp <= ws[a + k - 1].timestamp;
    }
  }

  /** Timestamps [0, 10, 20, 30] with window (12, 18): the older variant keeps only the pad 10 and one right pad 20. */
  lemma LegacyWindowExample(ws: seq<WindDataPoint>)
    requires |ws| == 4
    requires ws[0].timestamp == 0 && ws[1].timestamp == 10 && ws[2].timestamp == 20 && ws[3].timestamp == 30
    ensures LegacyWindow(ws, 12, 18) == [Some(ws[1]), Some(ws[2])]
  {
    LegacyWindowIsBracket(ws, 12, 18);
    FirstAfterAt(ws, 12, 2);
    assert FirstAtOrAfter(ws, 18, 2) == 2;
    assert Wrap(ws[2..3]) == [Some(ws[2])];
  }
}
