/** The arithmetic helpers of kaiserlift/running_viewers.py: formatting a
    duration as a clock reading, choosing pace-axis ticks, and deriving the
    Duration and Speed columns of a running frame. */
module Running {
  import opened Numeric
  import opened Frames

  // ----- decimal digits -----

  predicate IsDigit(c: char) { '0' <= c <= '9' }

  predicate AllDigits(s: string) { forall i :: 0 <= i < |s| ==> IsDigit(s[i]) }

  function DigitChar(d: int): (c: char)
    requires 0 <= d < 10
    ensures IsDigit(c) && c as int - '0' as int == d
  {
    ('0' as int + d) as char
  }

  /** Python's `str(n)` for a non-negative integer. */
  function NatToString(n: nat): (s: string)
    ensures s != [] && AllDigits(s)
  {
    if n < 10 then [DigitChar(n)] else NatToString(n / 10) + [DigitChar(n % 10)]
  }

  /** The number a string of decimal digits denotes. */
  function DigitsValue(s: string): nat
    requires AllDigits(s)
  {
    if s == [] then 0 else DigitsValue(s[..|s| - 1]) * 10 + (s[|s| - 1] as int - '0' as int)
  }

  lemma {:induction false} DigitsRoundTrip(n: nat)
    ensures DigitsValue(NatToString(n)) == n
  {
    if n >= 10 {
      DigitsRoundTrip(n / 10);
      var s := NatToString(n);
      assert s[..|s| - 1] == NatToString(n / 10);
    }
  }

  /** `f"{n:02d}"` for 0 <= n < 100. */
  function Pad2(n: nat): (s: string)
    requires n < 100
    ensures |s| == 2 && AllDigits(s) && DigitsValue(s) == n
  {
    var s := [DigitChar(n / 10), DigitChar(n % 10)];
    assert s[..1] == [DigitChar(n / 10)] && s[..1][..0] == [];
    assert DigitsValue(s[..1]) == n / 10;
    s
  }

  // ----- splitting on ':' -----

  /** `s.split(":")`. */
  function Split(s: string): (fields: seq<string>)
    ensures |fields| >= 1
  {
    if s == [] then [[]]
    else
      var rest := Split(s[1..]);
      if s[0] == ':' then [[]] + rest else [[s[0]] + rest[0]] + rest[1..]
  }

  lemma {:induction false} SplitWithoutColon(a: string, b: string)
    requires forall i :: 0 <= i < |a| ==> a[i] != ':'
    ensures Split(a + b)[0] == a + Split(b)[0]
    ensures Split(a + b)[1..] == Split(b)[1..]
    decreases |a|
  {
    if a != [] {
      assert (a + b)[1..] == a[1..] + b;
      SplitWithoutColon(a[1..], b);
    } else {
      assert a + b == b;
    }
  }

  /** Splitting a colon-free field followed by ":" and the rest. */
  lemma SplitJoin(a: string, b: string)
    requires AllDigits(a)
    ensures Split(a + ":" + b) == [a] + Split(b)
  {
    var b' := ":" + b;
    assert a + ":" + b == a + b';
    SplitWithoutColon(a, b');
    assert b'[0] == ':' && b'[1..] == b;
    assert Split(b') == [[]] + Split(b);
    assert a + Split(b')[0] == a;
    var f := Split(a + b');
    assert f == [f[0]] + f[1..];
  }

  lemma SplitDigits(a: string)
    requires forall i :: 0 <= i < |a| ==> a[i] != ':'
    ensures Split(a) == [a]
  {
    SplitWithoutColon(a, []);
    assert a + [] == a;
  }

  // ----- _format_duration_minutes -----

  /** Hours, minutes and seconds of a whole number of seconds. */
  function ClockParts(total: nat): (hms: (nat, nat, nat))
    ensures hms.0 * 3600 + hms.1 * 60 + hms.2 == total
    ensures hms.1 < 60 && hms.2 < 60
  {
    var h := total / 3600;
    var rest := total % 3600;
    assert total == h * 3600 + rest;
    (h, rest / 60, total % 60)
  }

  /** The clock reading of `total_seconds`: H:MM:SS from one hour on, M:SS
      below. Reading it back gives the number of seconds, so the format
      loses nothing. */
  function FormatClock(total: nat): (s: string)
    ensures ParseClock(s) == Some(total)
  {
    var (h, m, sec) := ClockParts(total);
    ClockTextFields(h, m, sec);
    DigitsRoundTrip(h);
    DigitsRoundTrip(m);
    if h > 0 then NatToString(h) + ":" + Pad2(m) + ":" + Pad2(sec)
    else NatToString(m) + ":" + Pad2(sec)
  }

  /** `_format_duration_minutes`: "N/A" exactly for NaN or a non-positive
      duration, otherwise a clock reading of the duration rounded to whole
      seconds. */
  function FormatDurationMinutes(minutes: Float): (s: string)
    ensures s == "N/A" <==> minutes.NaN? || minutes.value <= 0.0
    ensures minutes.Fin? && minutes.value > 0.0 ==> ParseClock(s) == Some(RoundHalfEven(minutes.value * 60.0))
  {
    SplitDigits("N/A");
    assert ParseClock("N/A") == None;
    if minutes.NaN? || minutes.value <= 0.0 then "N/A"
    else FormatClock(RoundHalfEven(minutes.value * 60.0))
  }

  /** Reads a clock reading back: two or three colon-separated digit fields. */
  function ParseClock(s: string): (r: Option<nat>)
  {
    var f := Split(s);
    if |f| == 3 && AllDigits(f[0]) && AllDigits(f[1]) && AllDigits(f[2]) then
      Some(DigitsValue(f[0]) * 3600 + DigitsValue(f[1]) * 60 + DigitsValue(f[2]))
    else if |f| == 2 && AllDigits(f[0]) && AllDigits(f[1]) then
      Some(DigitsValue(f[0]) * 60 + DigitsValue(f[1]))
    else None
  }

  /** The fields of the two clock texts, split at ':'. */
  lemma ClockTextFields(h: nat, m: nat, sec: nat)
    requires m < 60 && sec < 60
    ensures Split(NatToString(h) + ":" + Pad2(m) + ":" + Pad2(sec)) == [NatToString(h), Pad2(m), Pad2(sec)]
    ensures Split(NatToString(m) + ":" + Pad2(sec)) == [NatToString(m), Pad2(sec)]
  {
    SplitDigits(Pad2(sec));
    SplitJoin(Pad2(m), Pad2(sec));
    assert NatToString(h) + ":" + Pad2(m) + ":" + Pad2(sec) == NatToString(h) + ":" + (Pad2(m) + ":" + Pad2(sec));
    SplitJoin(NatToString(h), Pad2(m) + ":" + Pad2(sec));
    SplitJoin(NatToString(m), Pad2(sec));
  }

  /** The fields of a clock reading: the hour field only from one hour on,
      and minutes (after an hour field) and seconds always two digits. */
  lemma FormatClockFields(total: nat)
    ensures var (h, m, sec) := ClockParts(total);
      Split(FormatClock(total)) ==
        if h > 0 then [NatToString(h), Pad2(m), Pad2(sec)] else [NatToString(m), Pad2(sec)]
  {
    var (h, m, sec) := ClockParts(total);
    ClockTextFields(h, m, sec);
  }

  /** No two durations look alike. */
  lemma FormatClockInjective(a: nat, b: nat)
    requires FormatClock(a) == FormatClock(b)
    ensures a == b
  {
  }

  lemma FormatDurationExamples()
    ensures FormatClock(59) == "0:59"
    ensures FormatClock(3725) == "1:02:05"
  {
    assert ClockParts(3725) == (1, 2, 5);
  }

  // ----- _pace_axis_ticks -----

  /** The tick spacing, in seconds per mile, for a pace axis spanning
      `paceRange` seconds: 15, 30, 60 or 120. Up to 600 seconds it leaves
      at most ten intervals across the range, and it is never coarser than
      needed: a spacing above 15 is chosen only for a range of more than
      four intervals. */
  function TickInterval(paceRange: real): (interval: int)
    ensures interval in {15, 30, 60, 120}
    ensures paceRange <= 600.0 ==> paceRange <= 10.0 * interval as real
    ensures interval > 15 ==> paceRange > 4.0 * interval as real
  {
    if paceRange <= 120.0 then 15
    else if paceRange <= 300.0 then 30
    else if paceRange <= 600.0 then 60
    else 120
  }

  lemma TickIntervalMonotone(r1: real, r2: real)
    requires r1 <= r2
    ensures TickInterval(r1) <= TickInterval(r2)
  {
  }

  /** Python's `range(start, stop, step)` for a positive step. */
  function PyRange(start: int, stop: int, step: int): (r: seq<int>)
    requires step > 0
    ensures forall i :: 0 <= i < |r| ==> r[i] == start + i * step && r[i] < stop
    ensures Ascending(r)
    decreases stop - start
  {
    if start >= stop then [] else [start] + PyRange(start + step, stop, step)
  }

  /** Every value the range steps over is in it. */
  lemma {:induction false} PyRangeComplete(start: int, stop: int, step: int, i: nat)
    requires step > 0 && start + i * step < stop
    ensures start + i * step in PyRange(start, stop, step)
    decreases i
  {
    if i > 0 {
      assert start + step + (i - 1) * step == start + i * step;
      PyRangeComplete(start + step, stop, step, i - 1);
    }
  }

  predicate Ascending(xs: seq<int>)
  {
    forall i, j :: 0 <= i < j < |xs| ==> xs[i] < xs[j]
  }

  /** The values of `xs` that lie in [lo, hi], in order. */
  function InWindow(xs: seq<int>, lo: real, hi: real): (r: seq<int>)
    ensures forall t :: t in r <==> t in xs && lo <= t as real <= hi
    ensures Ascending(xs) ==> Ascending(r)
  {
    if xs == [] then []
    else
      var rest := InWindow(xs[1..], lo, hi);
      TailOfAscending(xs);
      if lo <= xs[0] as real <= hi then
        ConsAscending(xs, rest);
        [xs[0]] + rest
      else rest
  }

  lemma TailOfAscending(xs: seq<int>)
    requires xs != []
    ensures forall t :: t in xs[1..] ==> t in xs
    ensures Ascending(xs) ==> Ascending(xs[1..])
  {
    if Ascending(xs) {
      forall i, j | 0 <= i < j < |xs[1..]| ensures xs[1..][i] < xs[1..][j] {
        assert xs[1..][i] == xs[i + 1] && xs[1..][j] == xs[j + 1];
      }
    }
  }

  /** Putting the head of an ascending list before an ascending selection
      of its tail keeps the order. */
  lemma ConsAscending(xs: seq<int>, rest: seq<int>)
    requires xs != [] && forall t :: t in rest ==> t in xs[1..]
    ensures Ascending(xs) && Ascending(rest) ==> Ascending([xs[0]] + rest)
  {
    if Ascending(xs) && Ascending(rest) {
      var r := [xs[0]] + rest;
      forall i, j | 0 <= i < j < |r| ensures r[i] < r[j] {
        assert r[j] == rest[j - 1] && r[j] in xs[1..];
        var k :| 0 <= k < |xs[1..]| && xs[1..][k] == r[j];
        assert xs[0] < xs[k + 1];
        if i > 0 {
          assert r[i] == rest[i - 1];
        }
      }
    }
  }

  /** First and last candidate ticks: the multiples of the interval at or
      below `yLo` and the one above `yHi`. */
  function TickStart(yLo: real, interval: int): (start: int)
    requires interval > 0
    ensures start as real <= yLo < start as real + interval as real
  {
    FloorTimes(yLo, interval);
    (yLo / interval as real).Floor * interval
  }

  function TickStop(yHi: real, interval: int): (stop: int)
    requires interval > 0
    ensures yHi < stop as real <= yHi + interval as real
  {
    FloorTimes(yHi, interval);
    ((yHi / interval as real).Floor + 1) * interval
  }

  /** The multiple of `interval` that `Floor` picks lies at or below `y`, within one interval. */
  lemma FloorTimes(y: real, interval: int)
    requires interval > 0
    ensures var f := (y / interval as real).Floor;
      (f * interval) as real <= y < (f * interval) as real + interval as real
  {
    var i := interval as real;
    var q := y / i;
    var f := q.Floor;
    var p := (f * interval) as real;
    assert p == f as real * i;
    calc {
      p;
      f as real * i;
    <= { assert f as real <= q; }
      q * i;
      y;
    }
    calc {
      y;
      q * i;
    < { assert q < f as real + 1.0; }
      (f as real + 1.0) * i;
      p + i;
    }
  }

  /** `_pace_axis_ticks(y_lo, y_hi)`; `paceString` is the label formatter
      `seconds_to_pace_string`. The ticks are strictly ascending multiples
      of the interval inside the window [0.95 * yLo, 1.05 * yHi], they are
      every such multiple between the first and last candidate, and each
      has its own label. */
  function PaceAxisTicks(yLo: real, yHi: real, paceString: int -> string): (r: (seq<int>, seq<string>))
    ensures var (ticks, labels) := r;
      var interval := TickInterval(yHi - yLo);
      && |labels| == |ticks|
      && (forall k :: 0 <= k < |ticks| ==> labels[k] == paceString(ticks[k]))
      && Ascending(ticks)
      && (forall t :: t in ticks ==> t % interval == 0 && yLo * 0.95 <= t as real <= yHi * 1.05)
      && (forall t ::
            (t % interval == 0 && TickStart(yLo, interval) <= t <= TickStop(yHi, interval)
             && yLo * 0.95 <= t as real <= yHi * 1.05) ==> t in ticks)
  {
    AllCandidatesComplete(yLo, yHi);
    var ticks := InWindow(TickCandidates(yLo, yHi), yLo * 0.95, yHi * 1.05);
    (ticks, seq(|ticks|, k requires 0 <= k < |ticks| => paceString(ticks[k])))
  }

  /** The candidate ticks of `_pace_axis_ticks` before the window filter:
      ascending multiples of the interval from the first to the last candidate. */
  function TickCandidates(yLo: real, yHi: real): (c: seq<int>)
    ensures var interval := TickInterval(yHi - yLo);
      forall t :: t in c ==> t % interval == 0 && TickStart(yLo, interval) <= t <= TickStop(yHi, interval)
    ensures Ascending(c)
  {
    var interval := TickInterval(yHi - yLo);
    var a := (yLo / interval as real).Floor;
    RangeOfMultiples(a, TickStop(yHi, interval) + 1, interval);
    PyRange(TickStart(yLo, interval), TickStop(yHi, interval) + 1, interval)
  }

  lemma RangeOfMultiples(a: int, stop: int, interval: int)
    requires interval in {15, 30, 60, 120}
    ensures forall t :: t in PyRange(a * interval, stop, interval) ==> t % interval == 0
  {
    var r := PyRange(a * interval, stop, interval);
    forall t | t in r ensures t % interval == 0 {
      var k :| 0 <= k < |r| && r[k] == t;
      MultipleOfSum(a, k, interval);
    }
  }

  lemma CandidatesComplete(yLo: real, yHi: real, t: int)
    requires var interval := TickInterval(yHi - yLo);
      t % interval == 0 && TickStart(yLo, interval) <= t <= TickStop(yHi, interval)
    ensures t in TickCandidates(yLo, yHi)
  {
    var interval := TickInterval(yHi - yLo);
    var a := (yLo / interval as real).Floor;
    var i := IndexOfMultiple(t, a, interval);
    PyRangeComplete(TickStart(yLo, interval), TickStop(yHi, interval) + 1, interval, i);
  }

  lemma AllCandidatesComplete(yLo: real, yHi: real)
    ensures var interval := TickInterval(yHi - yLo);
      forall t :: t % interval == 0 && TickStart(yLo, interval) <= t <= TickStop(yHi, interval) ==>
        t in TickCandidates(yLo, yHi)
  {
    var interval := TickInterval(yHi - yLo);
    forall t | t % interval == 0 && TickStart(yLo, interval) <= t <= TickStop(yHi, interval)
      ensures t in TickCandidates(yLo, yHi)
    {
      CandidatesComplete(yLo, yHi, t);
    }
  }

  lemma MultipleOfSum(a: int, k: int, interval: int)
    requires interval in {15, 30, 60, 120}
    ensures (a * interval + k * interval) % interval == 0
  {
    assert a * interval + k * interval == (a + k) * interval;
    MultipleOfInterval(a + k, interval);
  }

  lemma MultipleOfInterval(q: int, interval: int)
    requires interval in {15, 30, 60, 120}
    ensures (q * interval) % interval == 0
  {
    if interval == 15 {
      assert (q * 15) % 15 == 0;
    } else if interval == 30 {
      assert (q * 30) % 30 == 0;
    } else if interval == 60 {
      assert (q * 60) % 60 == 0;
    }
  }

  /** The step count from a * interval to a multiple t of the interval at or above it. */
  lemma IndexOfMultiple(t: int, a: int, interval: int) returns (i: nat)
    requires interval in {15, 30, 60, 120}
    requires t % interval == 0 && a * interval <= t
    ensures t == a * interval + i * interval
  {
    if interval == 15 {
      i := t / 15 - a;
    } else if interval == 30 {
      i := t / 30 - a;
    } else if interval == 60 {
      i := t / 60 - a;
    } else {
      i := t / 120 - a;
    }
  }

  // ----- Duration and Speed of a running frame -----

  const SecondsPerHour: real := 3600.0

  /** Speed in miles per hour from a pace in seconds per mile; NaN unless
      the pace is a positive number. */
  function SpeedFromPace(pace: Float): (speed: Float)
    ensures speed.Fin? <==> pace.Fin? && pace.value > 0.0
    ensures speed.Fin? ==> speed.value > 0.0 && speed.value * pace.value == SecondsPerHour
  {
    if pace.Fin? && pace.value > 0.0 then Fin(SecondsPerHour / pace.value) else NaN
  }

  /** Duration in minutes of `distance` miles at `pace` seconds per mile. */
  function DurationFromPace(pace: Float, distance: Float): (minutes: Float)
    ensures minutes.Fin? <==> pace.Fin? && distance.Fin?
    ensures minutes.Fin? ==> minutes.value * 60.0 == pace.value * distance.value
  {
    if pace.Fin? && distance.Fin? then Fin(pace.value * distance.value / 60.0) else NaN
  }

  /** Duration in minutes of `distance` miles at `speed` miles per hour. */
  function DurationFromSpeed(distance: Float, speed: Float): (minutes: Float)
    ensures minutes.Fin? <==> distance.Fin? && speed.Fin? && speed.value != 0.0
    ensures minutes.Fin? ==> minutes.value * speed.value == distance.value * 60.0
  {
    if distance.Fin? && speed.Fin? && speed.value != 0.0 then Fin(distance.value / speed.value * 60.0)
    else NaN
  }

  /** A row of a running frame; `None` is a column the frame does not have. */
  datatype RunRow = RunRow(distance: Float, pace: Option<Float>, speed: Option<Float>, duration: Option<Float>)

  /** The Duration and Speed columns the running plots add when missing:
      Duration from Pace if there is a Pace column, else from Speed; Speed
      from Pace. Columns already present are kept. */
  function WithDerivedColumns(row: RunRow): (r: RunRow)
    ensures r.distance == row.distance && r.pace == row.pace
    ensures r.duration.Some? <==> row.duration.Some? || row.pace.Some? || row.speed.Some?
    ensures r.speed.Some? <==> row.speed.Some? || row.pace.Some?
    ensures row.duration.Some? ==> r.duration == row.duration
    ensures row.speed.Some? ==> r.speed == row.speed
    // Pace wins over Speed when both columns are there
    ensures row.duration.None? && row.pace.Some? ==>
      r.duration == Some(DurationFromPace(row.pace.value, row.distance))
    ensures row.duration.None? && row.pace.None? && row.speed.Some? ==>
      r.duration == Some(DurationFromSpeed(row.distance, row.speed.value))
    ensures row.speed.None? && row.pace.Some? ==> r.speed == Some(SpeedFromPace(row.pace.value))
  {
    var duration :=
      if row.duration.Some? then row.duration
      else if row.pace.Some? then Some(DurationFromPace(row.pace.value, row.distance))
      else if row.speed.Some? then Some(DurationFromSpeed(row.distance, row.speed.value))
      else None;
    var speed :=
      if row.speed.None? && row.pace.Some? then Some(SpeedFromPace(row.pace.value)) else row.speed;
    RunRow(row.distance, row.pace, speed, duration)
  }

  /** The two Duration formulas agree when Speed is the speed of the Pace. */
  lemma DurationFormulasAgree(pace: real, distance: real)
    requires pace > 0.0
    ensures DurationFromPace(Fin(pace), Fin(distance)) == DurationFromSpeed(Fin(distance), SpeedFromPace(Fin(pace)))
  {
    var speed := SecondsPerHour / pace;
    assert distance / speed == distance * pace / SecondsPerHour;
  }

  /** So a frame with only a Pace column and one with only the matching
      Speed column get the same Duration, and the first gets that Speed. */
  lemma DerivedColumnsConsistent(distance: real, pace: real)
    requires pace > 0.0
    ensures var fromPace := WithDerivedColumns(RunRow(Fin(distance), Some(Fin(pace)), None, None));
      var fromSpeed := WithDerivedColumns(RunRow(Fin(distance), None, Some(SpeedFromPace(Fin(pace))), None));
      fromPace.duration == fromSpeed.duration && fromPace.speed == fromSpeed.speed
  {
    DurationFormulasAgree(pace, distance);
  }
}
