/** The bookkeeping of `ChromatogramProcessor` (app/chromatogram/processing.py)
    around its two signal-processing library calls: turning the peak finder's
    candidates and the width finder's fractional bounds into peak records,
    summarising a trace with a ranked report, and the no-peaks short cut of
    the end-to-end entry point. */
module Processing {
  import opened Peaks
  import opened Reductions
  import opened Text

  /** numpy's `max` raises on an empty intensity array, which both
      `detect_peaks_and_areas` and `summarize_trace` call first. */
  datatype TraceError = EmptyTrace

  datatype Result<T> = Ok(value: T) | Err(error: TraceError)

  /** One peak reported by the peak finder, with its height and the
      fractional half-prominence bounds `left_ips`/`right_ips` the width
      finder gives it. Both finders are library code; their results enter
      the model as data. */
  datatype Candidate = Candidate(peakIdx: nat, height: real, leftIps: real, rightIps: real)

  // ---------------------------------------------------------------------
  // Boundary resolution
  // ---------------------------------------------------------------------

  /** `int(np.floor(x))`: the greatest integer not above `x`. */
  function Floor(x: real): (k: int)
    ensures k as real <= x < k as real + 1.0
  {
    x.Floor
  }

  /** `int(np.ceil(x))`: the least integer not below `x`. */
  function Ceil(x: real): (k: int)
    ensures k as real - 1.0 < x <= k as real
  {
    -((-x).Floor)
  }

  /** `max(0, min(n - 1, k))`. For a non-empty trace of length `n` this is
      a valid index, equal to `k` when `k` already is one and to the nearer
      end of the trace otherwise. */
  function Clamp(k: int, n: int): (r: int)
    ensures n >= 1 ==> 0 <= r < n
    ensures n >= 1 ==> (r == k <==> 0 <= k < n)
    ensures n >= 1 && k < 0 ==> r == 0
    ensures n >= 1 && k >= n ==> r == n - 1
  {
    var upper := if n - 1 < k then n - 1 else k;
    if 0 < upper then upper else 0
  }

  /** `start_idx`: the floor of the left bound, clamped into the trace. */
  function StartIndex(c: Candidate, n: int): int
  {
    Clamp(Floor(c.leftIps), n)
  }

  /** `end_idx`: the ceiling of the right bound, clamped into the trace. */
  function EndIndex(c: Candidate, n: int): int
  {
    Clamp(Ceil(c.rightIps), n)
  }

  /** The candidate passes both `continue` guards of the detection loop.
      Because of the clamp, the `end_idx >= len(time)` half of the second
      guard never decides anything: a candidate is kept exactly when its
      apex lies in the trace and its bounds do not collapse, and then the
      bounds are two distinct valid indices. */
  function Kept(c: Candidate, n: int): (keep: bool)
    ensures keep <==> c.peakIdx < n && StartIndex(c, n) < EndIndex(c, n)
    ensures keep ==> 0 <= StartIndex(c, n) < EndIndex(c, n) <= n - 1
  {
    if c.peakIdx >= n then false
    else !(StartIndex(c, n) >= EndIndex(c, n) || EndIndex(c, n) >= n)
  }

  /** If the width finder brackets the apex (`left_ips <= peak_idx <=
      right_ips`, as it does for the peaks it measures), the resolved bounds
      bracket it too. */
  lemma BoundsBracketApex(c: Candidate, n: int)
    requires c.peakIdx < n
    requires c.leftIps <= c.peakIdx as real <= c.rightIps
    ensures 0 <= StartIndex(c, n) <= c.peakIdx <= EndIndex(c, n) < n
  {
    var f, g := Floor(c.leftIps), Ceil(c.rightIps);
    assert f <= c.peakIdx && c.peakIdx <= g;
  }

  // ---------------------------------------------------------------------
  // Area
  // ---------------------------------------------------------------------

  /** Time does not decrease over the indices `[s, e]`. */
  ghost predicate NonDecreasingOn(time: seq<real>, s: nat, e: nat)
    requires e < |time|
  {
    forall i, j :: s <= i <= j <= e ==> time[i] <= time[j]
  }

  /** One trapezoid of the rule: the width of the step `[time[i], time[i+1]]`
      times the mean of the two intensities at its ends. */
  function Slice(time: seq<real>, intensity: seq<real>, i: nat): real
    requires i + 1 < |time| && |intensity| == |time|
  {
    (time[i + 1] - time[i]) * (intensity[i] + intensity[i + 1]) / 2.0
  }

  /** `np.trapezoid(intensity[s:e+1], time[s:e+1])`: the sum of the slices
      starting at the indices of `[s, e)`. */
  function Trapezoid(time: seq<real>, intensity: seq<real>, s: nat, e: nat): real
    requires s <= e < |time| && |intensity| == |time|
    decreases e - s
  {
    if s == e then 0.0
    else Slice(time, intensity, s) + Trapezoid(time, intensity, s + 1, e)
  }

  /** The integral is additive: integrating `[s, m]` and `[m, e]` and adding
      gives the integral over `[s, e]`. */
  lemma {:induction false} TrapezoidSplit(time: seq<real>, intensity: seq<real>, s: nat, m: nat, e: nat)
    requires s <= m <= e < |time| && |intensity| == |time|
    ensures Trapezoid(time, intensity, s, e)
         == Trapezoid(time, intensity, s, m) + Trapezoid(time, intensity, m, e)
    decreases m - s
  {
    if s < m {
      TrapezoidSplit(time, intensity, s + 1, m, e);
    }
  }

  /** When time does not decrease and the signal stays within `[lo, hi]`
      over the span, the area lies between `lo` and `hi` times the span's
      duration: the rule integrates a constant signal exactly. */
  lemma TrapezoidBetween(time: seq<real>, intensity: seq<real>, s: nat, e: nat, lo: real, hi: real)
    requires s <= e < |time| && |intensity| == |time|
    requires NonDecreasingOn(time, s, e)
    requires forall i :: s <= i <= e ==> lo <= intensity[i] <= hi
    ensures lo * (time[e] - time[s]) <= Trapezoid(time, intensity, s, e) <= hi * (time[e] - time[s])
  {
    TrapezoidAtLeast(time, intensity, s, e, lo);
    TrapezoidAtMost(time, intensity, s, e, hi);
  }

  /** The lower half of `TrapezoidBetween`. */
  lemma {:induction false} TrapezoidAtLeast(time: seq<real>, intensity: seq<real>, s: nat, e: nat, lo: real)
    requires s <= e < |time| && |intensity| == |time|
    requires NonDecreasingOn(time, s, e)
    requires forall i :: s <= i <= e ==> lo <= intensity[i]
    ensures lo * (time[e] - time[s]) <= Trapezoid(time, intensity, s, e)
    decreases e - s
  {
    if s < e {
      assert time[s] <= time[s + 1] && NonDecreasingOn(time, s + 1, e);
      TrapezoidAtLeast(time, intensity, s + 1, e, lo);
      AtLeastStep(time, intensity, s, e, lo);
    } else {
      EmptySpan(time, intensity, s, e, lo);
    }
  }

  /** The upper half of `TrapezoidBetween`. */
  lemma {:induction false} TrapezoidAtMost(time: seq<real>, intensity: seq<real>, s: nat, e: nat, hi: real)
    requires s <= e < |time| && |intensity| == |time|
    requires NonDecreasingOn(time, s, e)
    requires forall i :: s <= i <= e ==> intensity[i] <= hi
    ensures Trapezoid(time, intensity, s, e) <= hi * (time[e] - time[s])
    decreases e - s
  {
    if s < e {
      assert time[s] <= time[s + 1] && NonDecreasingOn(time, s + 1, e);
      TrapezoidAtMost(time, intensity, s + 1, e, hi);
      AtMostStep(time, intensity, s, e, hi);
    } else {
      EmptySpan(time, intensity, s, e, hi);
    }
  }

  /** An empty span has no area, and no rectangle over it either. */
  lemma EmptySpan(time: seq<real>, intensity: seq<real>, s: nat, e: nat, h: real)
    requires s == e < |time| && |intensity| == |time|
    ensures Trapezoid(time, intensity, s, e) == 0.0 == h * (time[e] - time[s])
  {
    ScaleZero(h, time[e] - time[s]);
  }

  /** One step of `TrapezoidAtLeast`: the slice at `s` adds at least the
      rectangle of height `lo` over its width. */
  lemma AtLeastStep(time: seq<real>, intensity: seq<real>, s: nat, e: nat, lo: real)
    requires s < e < |time| && |intensity| == |time|
    requires time[s] <= time[s + 1]
    requires lo <= intensity[s] && lo <= intensity[s + 1]
    requires lo * (time[e] - time[s + 1]) <= Trapezoid(time, intensity, s + 1, e)
    ensures lo * (time[e] - time[s]) <= Trapezoid(time, intensity, s, e)
  {
    var slice, rest := Slice(time, intensity, s), Trapezoid(time, intensity, s + 1, e);
    assert lo * (time[s + 1] - time[s]) <= slice by {
      var top := if intensity[s] <= intensity[s + 1] then intensity[s + 1] else intensity[s];
      SliceBetween(time, intensity, s, lo, top);
    }
    SpanSplit(lo, time[s], time[s + 1], time[e]);
    assert Trapezoid(time, intensity, s, e) == slice + rest;
    AddBelow(lo * (time[s + 1] - time[s]), slice, lo * (time[e] - time[s + 1]), rest,
             lo * (time[e] - time[s]), Trapezoid(time, intensity, s, e));
  }

  /** One step of `TrapezoidAtMost`: the slice at `s` adds at most the
      rectangle of height `hi` over its width. */
  lemma AtMostStep(time: seq<real>, intensity: seq<real>, s: nat, e: nat, hi: real)
    requires s < e < |time| && |intensity| == |time|
    requires time[s] <= time[s + 1]
    requires intensity[s] <= hi && intensity[s + 1] <= hi
    requires Trapezoid(time, intensity, s + 1, e) <= hi * (time[e] - time[s + 1])
    ensures Trapezoid(time, intensity, s, e) <= hi * (time[e] - time[s])
  {
    var slice, rest := Slice(time, intensity, s), Trapezoid(time, intensity, s + 1, e);
    assert slice <= hi * (time[s + 1] - time[s]) by {
      var bottom := if intensity[s] <= intensity[s + 1] then intensity[s] else intensity[s + 1];
      SliceBetween(time, intensity, s, bottom, hi);
    }
    SpanSplit(hi, time[s], time[s + 1], time[e]);
    assert Trapezoid(time, intensity, s, e) == slice + rest;
    AddBelow(slice, hi * (time[s + 1] - time[s]), rest, hi * (time[e] - time[s + 1]),
             Trapezoid(time, intensity, s, e), hi * (time[e] - time[s]));
  }

  /** Over a non-decreasing time axis a non-negative signal has a
      non-negative area. */
  lemma TrapezoidNonNegative(time: seq<real>, intensity: seq<real>, s: nat, e: nat)
    requires s <= e < |time| && |intensity| == |time|
    requires NonDecreasingOn(time, s, e)
    requires forall i :: s <= i <= e ==> 0.0 <= intensity[i]
    ensures 0.0 <= Trapezoid(time, intensity, s, e)
  {
    TrapezoidAtLeast(time, intensity, s, e, 0.0);
  }

  /** One slice lies between the rectangles of height `lo` and `hi`. */
  lemma SliceBetween(time: seq<real>, intensity: seq<real>, i: nat, lo: real, hi: real)
    requires i + 1 < |time| && |intensity| == |time|
    requires time[i] <= time[i + 1]
    requires lo <= intensity[i] <= hi && lo <= intensity[i + 1] <= hi
    ensures lo * (time[i + 1] - time[i]) <= Slice(time, intensity, i) <= hi * (time[i + 1] - time[i])
  {
    var mean := (intensity[i] + intensity[i + 1]) / 2.0;
    ScaleMonotone(time[i + 1] - time[i], lo, mean);
    ScaleMonotone(time[i + 1] - time[i], mean, hi);
  }

  lemma ScaleMonotone(d: real, a: real, b: real)
    requires 0.0 <= d && a <= b
    ensures d * a <= d * b
  {
  }

  /** Adding two inequalities: `x == a + c <= b + d == y`. */
  lemma AddBelow(a: real, b: real, c: real, d: real, x: real, y: real)
    requires a <= b && c <= d && x == a + c && y == b + d
    ensures x <= y
  {
  }

  lemma ScaleZero(x: real, d: real)
    requires d == 0.0
    ensures x * d == 0.0
  {
  }

  lemma SpanSplit(x: real, a: real, b: real, c: real)
    ensures x * (c - a) == x * (b - a) + x * (c - b)
  {
  }

  // ---------------------------------------------------------------------
  // Peak records
  // ---------------------------------------------------------------------

  /** The record the loop appends for a kept candidate (before rounding). */
  function PeakRecord(time: seq<real>, intensity: seq<real>, c: Candidate): Peak
    requires |intensity| == |time| && Kept(c, |time|)
  {
    var n := |time|;
    var s, e := StartIndex(c, n), EndIndex(c, n);
    Peak(c.peakIdx, c.height, time[c.peakIdx], Trapezoid(time, intensity, s, e), time[s], time[e])
  }

  /** What one record holds: the apex's index, the candidate's height and
      the apex time; start and end times at two distinct valid indices that
      bracket the apex whenever the width bounds do; and the trapezoid area
      over that span, which covers at least two samples. */
  lemma PeakRecordFields(time: seq<real>, intensity: seq<real>, c: Candidate)
    requires |intensity| == |time| && Kept(c, |time|)
    ensures var n, p := |time|, PeakRecord(time, intensity, c);
            var s, e := StartIndex(c, n), EndIndex(c, n);
            && 0 <= s < e <= n - 1
            && p.peakIndex == c.peakIdx && p.height == c.height
            && p.retentionTime == time[c.peakIdx]
            && p.startTime == time[s] && p.endTime == time[e]
            && p.area == Trapezoid(time, intensity, s, e)
            && (c.leftIps <= c.peakIdx as real <= c.rightIps ==> s <= c.peakIdx <= e)
  {
    if c.leftIps <= c.peakIdx as real <= c.rightIps {
      BoundsBracketApex(c, |time|);
    }
  }

  /** On a non-decreasing time axis, a bracketed apex's retention time lies
      between the record's start and end times. */
  lemma PeakRecordTimesOrdered(time: seq<real>, intensity: seq<real>, c: Candidate)
    requires |intensity| == |time| && Kept(c, |time|)
    requires NonDecreasingOn(time, 0, |time| - 1)
    requires c.leftIps <= c.peakIdx as real <= c.rightIps
    ensures var p := PeakRecord(time, intensity, c);
            p.startTime <= p.retentionTime <= p.endTime
  {
    BoundsBracketApex(c, |time|);
  }

  /** On a non-decreasing time axis and a non-negative signal bounded by
      `top` (the trace's maximum, say), a record's area is non-negative and
      at most `top` times the record's duration. */
  lemma PeakRecordAreaBounds(time: seq<real>, intensity: seq<real>, c: Candidate, top: real)
    requires |intensity| == |time| && Kept(c, |time|)
    requires NonDecreasingOn(time, 0, |time| - 1)
    requires forall i :: 0 <= i < |intensity| ==> 0.0 <= intensity[i] <= top
    ensures var p := PeakRecord(time, intensity, c);
            0.0 <= p.area <= top * (p.endTime - p.startTime)
  {
    var n := |time|;
    var s, e := StartIndex(c, n), EndIndex(c, n);
    assert NonDecreasingOn(time, s, e);
    TrapezoidNonNegative(time, intensity, s, e);
    TrapezoidBetween(time, intensity, s, e, 0.0, top);
  }

  /** The detection result over `candidates`, built as the loop builds it:
      candidate by candidate, appending the record of each kept one. It
      never has more records than there were candidates. */
  function DetectedPeaks(time: seq<real>, intensity: seq<real>, candidates: seq<Candidate>): (peaks: seq<Peak>)
    requires |intensity| == |time|
    ensures |peaks| <= |candidates|
    decreases |candidates|
  {
    if candidates == [] then []
    else
      var c := candidates[|candidates| - 1];
      var init := DetectedPeaks(time, intensity, candidates[..|candidates| - 1]);
      if Kept(c, |time|) then init + [PeakRecord(time, intensity, c)] else init
  }

  /** The positions of the kept candidates, in increasing order: every
      kept position appears, and nothing else. */
  function KeptPositions(candidates: seq<Candidate>, n: int): (ps: seq<nat>)
    ensures forall k :: 0 <= k < |ps| ==> ps[k] < |candidates|
    ensures forall k, l :: 0 <= k < l < |ps| ==> ps[k] < ps[l]
    ensures forall j :: 0 <= j < |candidates| ==> (j in ps <==> Kept(candidates[j], n))
    decreases |candidates|
  {
    if candidates == [] then []
    else
      var last := |candidates| - 1;
      var init := KeptPositions(candidates[..last], n);
      assert forall j :: 0 <= j < last ==> candidates[..last][j] == candidates[j];
      if Kept(candidates[last], n) then init + [last] else init
  }

  /** The `k`-th detected record is the record of the `k`-th kept
      candidate, for every `k`. */
  ghost predicate SelectsKept(time: seq<real>, intensity: seq<real>, candidates: seq<Candidate>)
    requires |intensity| == |time|
  {
    var peaks, ps := DetectedPeaks(time, intensity, candidates), KeptPositions(candidates, |time|);
    |peaks| == |ps|
    && (forall k :: 0 <= k < |ps| ==>
          Kept(candidates[ps[k]], |time|) && peaks[k] == PeakRecord(time, intensity, candidates[ps[k]]))
  }

  /** The detection result is the order-preserving selection of the kept
      candidates: its `k`-th record is the record of the `k`-th kept
      candidate. */
  lemma {:induction false} DetectedPeaksSelect(time: seq<real>, intensity: seq<real>, candidates: seq<Candidate>)
    requires |intensity| == |time|
    ensures var peaks, ps := DetectedPeaks(time, intensity, candidates), KeptPositions(candidates, |time|);
            |peaks| == |ps|
            && (forall k :: 0 <= k < |ps| ==>
                  Kept(candidates[ps[k]], |time|) && peaks[k] == PeakRecord(time, intensity, candidates[ps[k]]))
    decreases |candidates|
  {
    if candidates != [] {
      var last := |candidates| - 1;
      DetectedPeaksSelect(time, intensity, candidates[..last]);
      if Kept(candidates[last], |time|) {
        SelectKeptStep(time, intensity, candidates);
      } else {
        SelectSkippedStep(time, intensity, candidates);
      }
    }
    assert SelectsKept(time, intensity, candidates);
  }

  /** A kept last candidate adds its record at the end of the selection. */
  lemma SelectKeptStep(time: seq<real>, intensity: seq<real>, candidates: seq<Candidate>)
    requires |intensity| == |time| && candidates != []
    requires Kept(candidates[|candidates| - 1], |time|)
    requires SelectsKept(time, intensity, candidates[..|candidates| - 1])
    ensures SelectsKept(time, intensity, candidates)
  {
    var n, last := |time|, |candidates| - 1;
    var init, c := candidates[..last], candidates[last];
    var peaks0, ps0 := DetectedPeaks(time, intensity, init), KeptPositions(init, n);
    var peaks, ps := DetectedPeaks(time, intensity, candidates), KeptPositions(candidates, n);
    assert peaks == peaks0 + [PeakRecord(time, intensity, c)];
    assert ps == ps0 + [last];
    forall k | 0 <= k < |ps|
      ensures Kept(candidates[ps[k]], n) && peaks[k] == PeakRecord(time, intensity, candidates[ps[k]])
    {
      if k < |ps0| {
        assert ps[k] == ps0[k] && peaks[k] == peaks0[k] && init[ps0[k]] == candidates[ps0[k]];
      } else {
        assert ps[k] == last && peaks[k] == PeakRecord(time, intensity, c);
      }
    }
    assert |peaks| == |ps|;
  }

  /** A skipped last candidate leaves the selection as it was. */
  lemma SelectSkippedStep(time: seq<real>, intensity: seq<real>, candidates: seq<Candidate>)
    requires |intensity| == |time| && candidates != []
    requires !Kept(candidates[|candidates| - 1], |time|)
    requires SelectsKept(time, intensity, candidates[..|candidates| - 1])
    ensures SelectsKept(time, intensity, candidates)
  {
    var n, last := |time|, |candidates| - 1;
    var init := candidates[..last];
    var peaks0, ps0 := DetectedPeaks(time, intensity, init), KeptPositions(init, n);
    var peaks, ps := DetectedPeaks(time, intensity, candidates), KeptPositions(candidates, n);
    assert peaks == peaks0 && ps == ps0;
    forall k | 0 <= k < |ps0|
      ensures Kept(candidates[ps[k]], n) && peaks[k] == PeakRecord(time, intensity, candidates[ps[k]])
    {
      assert init[ps0[k]] == candidates[ps0[k]];
    }
  }

  /** No candidates, no records. */
  lemma NoCandidatesNoPeaks(time: seq<real>, intensity: seq<real>)
    requires |intensity| == |time|
    ensures DetectedPeaks(time, intensity, []) == []
  {
  }

  /** `detect_peaks_and_areas` after the peak finder has run: walks the
      candidates in order, skips those whose apex lies beyond the time
      array or whose clamped bounds collapse, integrates the rest and
      appends their records. */
  method DetectPeaksAndAreas(time: seq<real>, intensity: seq<real>, candidates: seq<Candidate>)
    returns (r: Result<seq<Peak>>)
    requires |intensity| == |time|
    ensures r.Err? <==> |intensity| == 0
    ensures r.Ok? ==> r.value == DetectedPeaks(time, intensity, candidates)
  {
    if |intensity| == 0 {
      return Err(EmptyTrace);
    }
    var results: seq<Peak> := [];
    for i := 0 to |candidates|
      invariant results == DetectedPeaks(time, intensity, candidates[..i])
    {
      assert candidates[..i + 1][..i] == candidates[..i];
      var c := candidates[i];
      if c.peakIdx >= |time| {
        continue;
      }
      var rt := time[c.peakIdx];
      var height := c.height;
      var left, right := c.leftIps, c.rightIps;
      var startIdx := Clamp(Floor(left), |time|);
      var endIdx := Clamp(Ceil(right), |time|);
      if startIdx >= endIdx || endIdx >= |time| {
        continue;
      }
      var area := Trapezoid(time, intensity, startIdx, endIdx);
      results := results + [Peak(c.peakIdx, height, rt, area, time[startIdx], time[endIdx])];
    }
    assert candidates[..|candidates|] == candidates;
    return Ok(results);
  }

  // ---------------------------------------------------------------------
  // Trace summary and report
  // ---------------------------------------------------------------------

  /** `zip(time, intensity)`: pairs up equal positions and stops at the
      end of the shorter sequence. */
  function Zip(a: seq<real>, b: seq<real>): (pairs: seq<(real, real)>)
    ensures |pairs| == if |a| <= |b| then |a| else |b|
    ensures forall i :: 0 <= i < |pairs| ==> pairs[i] == (a[i], b[i])
  {
    if a == [] || b == [] then []
    else [(a[0], b[0])] + Zip(a[1..], b[1..])
  }

  /** The JSON record `summarize_trace` writes (its `summary` part and the
      paired trace data). */
  datatype TraceSummary = TraceSummary(
    fileName: string,
    totalPeaks: nat,
    maxIntensity: real,
    baselineIntensity: real,
    peaks: seq<Peak>,
    traceData: seq<(real, real)>)

  /** One line of the natural-language report. Lines whose text is fixed are
      `FixedLine`; the others record which values they show, not the digits. */
  datatype ReportLine =
    | Title(fileName: string)                // Chromatogram Summary: <file name>
    | PeakCount(count: nat)                  // Total peaks detected: <count>
    | MaxIntensityLine(value: real)          // Max intensity: <value>
    | BaselineLine(value: real)              // Estimated baseline: <value>
    | FixedLine(text: string)
    | PeakAt(retentionTime: real, area: real, height: real)
                                             // - Peak at <rt>s | Area: <area> | Height: <height>

  const PeaksHeading: string := "All the peaks observed in the chromatograph"
  const NoPeaksFound: string := "No peaks found."

  /** The six lines that open every report. */
  function ReportHeader(fileName: string, count: nat, maxIntensity: real, baseline: real): seq<ReportLine>
  {
    [Title(fileName), PeakCount(count), MaxIntensityLine(maxIntensity), BaselineLine(baseline),
     FixedLine(""), FixedLine(PeaksHeading)]
  }

  /** The header's lines one by one. */
  lemma ReportHeaderLines(report: seq<ReportLine>, fileName: string, count: nat, maxIntensity: real, baseline: real)
    requires |report| >= 6 && report[..6] == ReportHeader(fileName, count, maxIntensity, baseline)
    ensures report[0] == Title(fileName) && report[1] == PeakCount(count)
    ensures report[2] == MaxIntensityLine(maxIntensity) && report[3] == BaselineLine(baseline)
    ensures report[4] == FixedLine("") && report[5] == FixedLine(PeaksHeading)
  {
    assert report[..6][0] == report[0] && report[..6][1] == report[1] && report[..6][2] == report[2];
    assert report[..6][3] == report[3] && report[..6][4] == report[4] && report[..6][5] == report[5];
  }

  function PeakLine(p: Peak): ReportLine
  {
    PeakAt(p.retentionTime, p.area, p.height)
  }

  /** What `summarize_trace` produces: the JSON record, the name of the JSON
      file it goes to, and the report. */
  datatype Summary = Summary(record: TraceSummary, jsonName: string, report: seq<ReportLine>)

  /** `filename.replace(".cdf", ".json")`. */
  function JsonName(fileName: string): string
  {
    ReplaceAll(fileName, ".cdf", ".json")
  }

  /** `summarize_trace` with the median baseline supplied by the caller:
      the record counts the peaks, holds the trace's maximum and the paired
      trace data; the report is the six-line header followed by one line per
      peak, ranked by `SortByHeight` (non-increasing height, stable, a
      permutation of `peaks`). */
  method SummarizeTrace(time: seq<real>, intensity: seq<real>, peaks: seq<Peak>, fileName: string, baseline: real)
    returns (r: Result<Summary>)
    ensures r.Err? <==> |intensity| == 0
    ensures r.Ok? ==>
      var rec := r.value.record;
      && rec.fileName == fileName && rec.totalPeaks == |peaks| && rec.peaks == peaks
      && IsMaximum(rec.maxIntensity, intensity) && rec.baselineIntensity == baseline
      && rec.traceData == Zip(time, intensity)
      && r.value.jsonName == JsonName(fileName)
    ensures r.Ok? ==>
      var report, ranked := r.value.report, SortByHeight(peaks);
      && |report| == 6 + |peaks|
      && report[..6] == ReportHeader(fileName, |peaks|, r.value.record.maxIntensity, baseline)
      && forall k :: 0 <= k < |peaks| ==> report[6 + k] == PeakLine(ranked[k])
  {
    if |intensity| == 0 {
      return Err(EmptyTrace);
    }
    var maxIntensity := MaxOf(intensity);
    var record := TraceSummary(fileName, |peaks|, maxIntensity, baseline, peaks, Zip(time, intensity));
    var jsonName := JsonName(fileName);
    var lines := ReportHeader(fileName, |peaks|, maxIntensity, baseline);
    var ranked := SortByHeight(peaks);
    for i := 0 to |ranked|
      invariant |lines| == 6 + i
      invariant lines[..6] == ReportHeader(fileName, |peaks|, maxIntensity, baseline)
      invariant forall k :: 0 <= k < i ==> lines[6 + k] == PeakLine(ranked[k])
    {
      lines := lines + [PeakLine(ranked[i])];
    }
    return Ok(Summary(record, jsonName, lines));
  }

  /** The part of `process_cdf_file` after loading: detect, answer exactly
      "No peaks found." when nothing was detected (in particular when the
      peak finder found no candidates), otherwise summarise under the file's
      base name and return the report. */
  method ProcessCdfFile(filePath: string, time: seq<real>, intensity: seq<real>,
                        candidates: seq<Candidate>, baseline: real)
    returns (r: Result<seq<ReportLine>>)
    requires |intensity| == |time|
    ensures r.Err? <==> |intensity| == 0
    ensures r.Ok? ==> (DetectedPeaks(time, intensity, candidates) == [] <==> r.value == [FixedLine(NoPeaksFound)])
    ensures r.Ok? ==>
      var peaks := DetectedPeaks(time, intensity, candidates);
      peaks != [] ==>
            && |r.value| == 6 + |peaks|
            && r.value[0] == Title(BaseName(filePath))
            && r.value[1] == PeakCount(|peaks|)
            && r.value[2].MaxIntensityLine? && IsMaximum(r.value[2].value, intensity)
            && r.value[3] == BaselineLine(baseline)
            && r.value[4] == FixedLine("") && r.value[5] == FixedLine(PeaksHeading)
            && forall k :: 0 <= k < |peaks| ==> r.value[6 + k] == PeakLine(SortByHeight(peaks)[k])
  {
    var detected := DetectPeaksAndAreas(time, intensity, candidates);
    if detected.Err? {
      return Err(detected.error);
    }
    var peaksInfo := detected.value;
    if peaksInfo == [] {
      return Ok([FixedLine(NoPeaksFound)]);
    }
    var fileName := BaseName(filePath);
    var summary := SummarizeTrace(time, intensity, peaksInfo, fileName, baseline);
    if summary.Err? {
      // The intensity array is non-empty here, so the summary succeeds.
      assert false;
    }
    var report := summary.value.report;
    ReportHeaderLines(report, fileName, |peaksInfo|, summary.value.record.maxIntensity, baseline);
    return Ok(report);
  }

  // ---------------------------------------------------------------------
  // JSON file name
  // ---------------------------------------------------------------------

  /** A file name ending in ".cdf", with no other ".cdf" in it, gets the
      extension ".json" instead. */
  lemma {:induction false} JsonNameOfCdf(stem: string)
    requires forall i :: !OccursAt(stem, ".cdf", i)
    ensures JsonName(stem + ".cdf") == stem + ".json"
  {
    var name := stem + ".cdf";
    if stem == [] {
      assert name == ".cdf";
      assert name[4..] == [];
    } else {
      assert name[..4] != ".cdf" by {
        if |stem| >= 4 {
          assert !OccursAt(stem, ".cdf", 0);
          assert name[..4] == stem[0..4];
        } else {
          assert name[|stem|] == '.';
          assert ".cdf"[|stem|] != '.';
        }
      }
      forall i ensures !OccursAt(stem[1..], ".cdf", i) {
        OccursInTail(stem, ".cdf", i);
      }
      JsonNameOfCdf(stem[1..]);
      assert name[1..] == stem[1..] + ".cdf";
      assert stem == [stem[0]] + stem[1..];
    }
  }

  /** When the JSON name does not start with '.', its first character comes
      straight from the input and the rest is the JSON name of the input's
      rest. */
  lemma JsonNameHead(t: string)
    requires |JsonName(t)| > 0 && JsonName(t)[0] != '.'
    ensures |t| > 0 && t[0] == JsonName(t)[0] && JsonName(t)[1..] == JsonName(t[1..])
  {
    if |t| < 4 {
      assert JsonName(t) == t;
      assert JsonName(t[1..]) == t[1..];
    } else if t[..4] != ".cdf" {
      assert JsonName(t) == [t[0]] + JsonName(t[1..]);
    }
  }

  /** Every occurrence is replaced: the JSON name never contains ".cdf". */
  lemma {:induction false} JsonNameHasNoCdf(s: string)
    ensures forall i :: !OccursAt(JsonName(s), ".cdf", i)
    decreases |s|
  {
    var r := JsonName(s);
    if |s| < 4 {
      assert r == s;
    } else if s[..4] == ".cdf" {
      var rest := JsonName(s[4..]);
      JsonNameHasNoCdf(s[4..]);
      assert r == ".json" + rest;
      forall i ensures !OccursAt(r, ".cdf", i) {
        CdfAt(r, i);
        if i >= 5 {
          OccursAfter(".json", rest, ".cdf", i);
        }
      }
    } else {
      var rest := JsonName(s[1..]);
      JsonNameHasNoCdf(s[1..]);
      assert r == [s[0]] + rest;
      NoCdfAtStart(s);
      forall i ensures !OccursAt(r, ".cdf", i) {
        if i >= 1 {
          OccursAfter([s[0]], rest, ".cdf", i);
        }
      }
    }
  }

  /** A name that does not start with ".cdf" has a JSON name that does not
      start with it either. */
  lemma NoCdfAtStart(s: string)
    requires |s| >= 4 && s[..4] != ".cdf"
    ensures !OccursAt(JsonName(s), ".cdf", 0)
  {
    var r := JsonName(s);
    CdfAt(r, 0);
    assert r == [s[0]] + JsonName(s[1..]);
    JsonNameFirst(s[1..]);
    if s[1] == 'c' {
      JsonNameCons(s[1..]);
      JsonNameFirst(s[2..]);
      if s[2] == 'd' {
        JsonNameCons(s[2..]);
        JsonNameFirst(s[3..]);
        assert s[..4] == [s[0], s[1], s[2], s[3]];
      }
    }
  }

  /** The JSON name starts with the name's first character. */
  lemma JsonNameFirst(t: string)
    requires |t| > 0
    ensures |JsonName(t)| > 0 && JsonName(t)[0] == t[0]
  {
    if |t| >= 4 && t[..4] == ".cdf" {
      assert t[0] == t[..4][0];
    }
  }

  /** A name that does not start with '.' keeps its first character and
      rewrites the rest. */
  lemma JsonNameCons(t: string)
    requires |t| > 0 && t[0] != '.'
    ensures JsonName(t) == [t[0]] + JsonName(t[1..])
  {
    if |t| < 4 {
      assert JsonName(t[1..]) == t[1..];
      assert t == [t[0]] + t[1..];
    } else {
      assert t[..4][0] == t[0];
    }
  }

  /** ".cdf" occurs at `i` exactly when its four characters are there. */
  lemma CdfAt(r: string, i: int)
    ensures OccursAt(r, ".cdf", i) <==>
      0 <= i && i + 4 <= |r| && r[i] == '.' && r[i + 1] == 'c' && r[i + 2] == 'd' && r[i + 3] == 'f'
  {
    if 0 <= i && i + 4 <= |r| {
      assert r[i..i + 4] == [r[i], r[i + 1], r[i + 2], r[i + 3]];
    }
  }
}
