/** The stand-alone helpers of app/chromatogram/utils.py: the file check
    done before loading, the statistics over a list of peak records and the
    short ranked summary of the highest peaks. */
module Utils {
  import opened Peaks
  import opened Reductions
  import opened Text

  // ---------------------------------------------------------------------
  // File check
  // ---------------------------------------------------------------------

  /** `validate_cdf_file`, with the file system's answer to "does the path
      exist?" passed in as `pathExists`. A path is accepted exactly when it
      exists and ends in ".cdf" in any mix of upper and lower case. */
  function ValidateCdfFile(filePath: string, pathExists: bool): (valid: bool)
    ensures valid <==>
      && pathExists
      && |filePath| >= 4
      && filePath[|filePath| - 4] == '.'
      && (filePath[|filePath| - 3] == 'c' || filePath[|filePath| - 3] == 'C')
      && (filePath[|filePath| - 2] == 'd' || filePath[|filePath| - 2] == 'D')
      && (filePath[|filePath| - 1] == 'f' || filePath[|filePath| - 1] == 'F')
  {
    LowerSuffix(filePath, ToLower(filePath));
    if !pathExists then false
    else if !EndsWith(ToLower(filePath), ".cdf") then false
    else true
  }

  /** A lower-cased string `lower` of `s` ends in ".cdf" exactly when the
      last four characters of `s` are '.', then 'c', 'd', 'f' in either
      case. */
  lemma LowerSuffix(s: string, lower: string)
    requires |lower| == |s| && forall i :: 0 <= i < |s| ==> lower[i] == LowerChar(s[i])
    ensures EndsWith(lower, ".cdf") <==>
      && |s| >= 4
      && s[|s| - 4] == '.'
      && (s[|s| - 3] == 'c' || s[|s| - 3] == 'C')
      && (s[|s| - 2] == 'd' || s[|s| - 2] == 'D')
      && (s[|s| - 1] == 'f' || s[|s| - 1] == 'F')
  {
    if |s| >= 4 {
      var n := |s|;
      var tail := [lower[n - 4], lower[n - 3], lower[n - 2], lower[n - 1]];
      assert lower[n - 4..] == tail;
      LowerCharIs(s[n - 4], '.');
      LowerCharIs(s[n - 3], 'c');
      LowerCharIs(s[n - 2], 'd');
      LowerCharIs(s[n - 1], 'f');
    }
  }

  // ---------------------------------------------------------------------
  // Statistics
  // ---------------------------------------------------------------------

  /** `[p['height'] for p in peaks_info]`, and likewise for the areas and the
      retention times. */
  function Heights(peaks: seq<Peak>): seq<real>
  {
    seq(|peaks|, i requires 0 <= i < |peaks| => peaks[i].height)
  }

  function Areas(peaks: seq<Peak>): seq<real>
  {
    seq(|peaks|, i requires 0 <= i < |peaks| => peaks[i].area)
  }

  function RetentionTimes(peaks: seq<Peak>): seq<real>
  {
    seq(|peaks|, i requires 0 <= i < |peaks| => peaks[i].retentionTime)
  }

  /** The nine keys of a non-empty statistics dictionary. */
  datatype Statistic =
    | TotalPeaks | MaxHeight | MinHeight | AvgHeight
    | MaxArea | MinArea | AvgArea | MaxRetentionTime | MinRetentionTime

  /** The dictionary key under which each statistic is stored. */
  function KeyName(k: Statistic): string
  {
    match k
    case TotalPeaks => "total_peaks"
    case MaxHeight => "max_height"
    case MinHeight => "min_height"
    case AvgHeight => "avg_height"
    case MaxArea => "max_area"
    case MinArea => "min_area"
    case AvgArea => "avg_area"
    case MaxRetentionTime => "max_retention_time"
    case MinRetentionTime => "min_retention_time"
  }

  /** Distinct statistics are stored under distinct keys, so a dictionary
      keyed by `Statistic` is one keyed by the key strings. */
  lemma KeyNameInjective(a: Statistic, b: Statistic)
    ensures KeyName(a) == KeyName(b) ==> a == b
  {
    if KeyName(a) == KeyName(b) {
      var ka := KeyName(a);
      assert |ka| == |KeyName(b)| && ka[1] == KeyName(b)[1] && ka[4] == KeyName(b)[4];
    }
  }

  /** `get_peak_statistics`: the empty dictionary for no peaks; otherwise
      every statistic is present: the count, the largest, smallest and mean
      height, the largest, smallest and mean area, and the latest and
      earliest retention time. */
  function GetPeakStatistics(peaks: seq<Peak>): (stats: map<Statistic, real>)
    ensures peaks == [] <==> stats == map[]
    ensures peaks != [] ==>
      && stats.Keys == {TotalPeaks, MaxHeight, MinHeight, AvgHeight, MaxArea, MinArea, AvgArea,
                        MaxRetentionTime, MinRetentionTime}
      && stats[TotalPeaks] == |peaks| as real
      && IsMaximum(stats[MaxHeight], Heights(peaks))
      && IsMinimum(stats[MinHeight], Heights(peaks))
      && stats[AvgHeight] == Mean(Heights(peaks))
      && stats[MinHeight] <= stats[AvgHeight] <= stats[MaxHeight]
      && IsMaximum(stats[MaxArea], Areas(peaks))
      && IsMinimum(stats[MinArea], Areas(peaks))
      && stats[AvgArea] == Mean(Areas(peaks))
      && stats[MinArea] <= stats[AvgArea] <= stats[MaxArea]
      && IsMaximum(stats[MaxRetentionTime], RetentionTimes(peaks))
      && IsMinimum(stats[MinRetentionTime], RetentionTimes(peaks))
  {
    if peaks == [] then map[]
    else
      var heights, areas, times := Heights(peaks), Areas(peaks), RetentionTimes(peaks);
      var stats := map[
        TotalPeaks := |peaks| as real,
        MaxHeight := MaxOf(heights),
        MinHeight := MinOf(heights),
        AvgHeight := Mean(heights),
        MaxArea := MaxOf(areas),
        MinArea := MinOf(areas),
        AvgArea := Mean(areas),
        MaxRetentionTime := MaxOf(times),
        MinRetentionTime := MinOf(times)];
      assert TotalPeaks in stats;
      stats
  }

  // ---------------------------------------------------------------------
  // Ranked summary
  // ---------------------------------------------------------------------

  /** One line of the text `format_peak_summary` joins with newlines. The
      value lines record which values they show, not the digits. */
  datatype SummaryLine =
    | Message(text: string)                  // the whole summary when there are no peaks
    | TopHeader(count: nat)                  // Top <count> peaks:
    | RankedPeak(rank: nat, retentionTime: real, height: real, area: real)
                                             // <rank>. RT: <rt>s | Height: <h> | Area: <a>

  const NoPeaksDetected: string := "No peaks detected."

  /** The length of Python's slice `xs[:m]` of a list of length `n`: a
      negative `m` counts from the end. */
  function SliceEnd(n: nat, m: int): (k: nat)
    ensures k <= n
  {
    if m >= 0 then (if m <= n then m else n)
    else if n + m >= 0 then n + m
    else 0
  }

  /** `sorted(peaks_info, key=height, reverse=True)[:max_peaks]`. */
  function TopPeaks(peaks: seq<Peak>, maxPeaks: int): seq<Peak>
  {
    SortByHeight(peaks)[..SliceEnd(|peaks|, maxPeaks)]
  }

  /** The listed peaks are a prefix of the ranking: for a non-negative
      `maxPeaks` the first `maxPeaks` ranked peaks (all when there are fewer),
      for a negative one all but the `-maxPeaks` lowest-ranked (none when
      there are fewer). They are ranked by non-increasing height, and
      together with the unlisted ones they make up exactly the input peaks. */
  lemma {:induction false} TopPeaksRanked(peaks: seq<Peak>, maxPeaks: int)
    ensures var top := TopPeaks(peaks, maxPeaks);
            var rest := SortByHeight(peaks)[|top|..];
            && top == SortByHeight(peaks)[..|top|]
            && (maxPeaks >= 0 ==> |top| == if maxPeaks <= |peaks| then maxPeaks else |peaks|)
            && (maxPeaks < 0 ==> |rest| == if -maxPeaks <= |peaks| then -maxPeaks else |peaks|)
            && NonIncreasing(top)
            && multiset(top) + multiset(rest) == multiset(peaks)
  {
    var ranked := SortByHeight(peaks);
    var k := SliceEnd(|peaks|, maxPeaks);
    var top := ranked[..k];
    assert ranked == top + ranked[k..];
    forall i, j | 0 <= i < j < |top| ensures top[i].height >= top[j].height {
      assert top[i] == ranked[i] && top[j] == ranked[j];
    }
  }

  /** No unlisted peak is higher than a listed one. */
  lemma {:induction false} TopPeaksHighest(peaks: seq<Peak>, maxPeaks: int)
    ensures var top := TopPeaks(peaks, maxPeaks);
            var rest := SortByHeight(peaks)[|top|..];
            forall i, j :: 0 <= i < |top| && 0 <= j < |rest| ==> rest[j].height <= top[i].height
  {
    var ranked := SortByHeight(peaks);
    var k := SliceEnd(|peaks|, maxPeaks);
    var top, rest := ranked[..k], ranked[k..];
    forall i, j | 0 <= i < |top| && 0 <= j < |rest| ensures rest[j].height <= top[i].height {
      assert top[i] == ranked[i] && rest[j] == ranked[k + j];
    }
  }

  /** Among peaks of equal height the listed ones come first in input order,
      the unlisted ones after them. */
  lemma {:induction false} TopPeaksStable(peaks: seq<Peak>, maxPeaks: int)
    ensures var top := TopPeaks(peaks, maxPeaks);
            var rest := SortByHeight(peaks)[|top|..];
            forall h :: WithHeight(peaks, h) == WithHeight(top, h) + WithHeight(rest, h)
  {
    var ranked := SortByHeight(peaks);
    var k := SliceEnd(|peaks|, maxPeaks);
    var top, rest := ranked[..k], ranked[k..];
    assert ranked == top + rest;
    SortByHeightStable(peaks);
    forall h ensures WithHeight(peaks, h) == WithHeight(top, h) + WithHeight(rest, h) {
      WithHeightAppend(top, rest, h);
    }
  }

  /** `format_peak_summary` up to the final newline join: "No peaks
      detected." for no peaks, otherwise a header with the number of listed
      peaks followed by the listed peaks, numbered from 1, in rank order.
      At most ten peaks are listed unless the caller says otherwise. */
  method FormatPeakSummary(peaks: seq<Peak>, maxPeaks: int := 10) returns (lines: seq<SummaryLine>)
    ensures peaks == [] ==> lines == [Message(NoPeaksDetected)]
    ensures peaks != [] ==>
      var top := TopPeaks(peaks, maxPeaks);
      && |lines| == |top| + 1
      && lines[0] == TopHeader(|top|)
      && forall i :: 0 <= i < |top| ==>
           lines[i + 1] == RankedPeak(i + 1, top[i].retentionTime, top[i].height, top[i].area)
  {
    if peaks == [] {
      return [Message(NoPeaksDetected)];
    }
    var top := TopPeaks(peaks, maxPeaks);
    var ranked := NumberPeaks(top);
    lines := [TopHeader(|top|)] + ranked;
  }

  /** The `enumerate(top_peaks, 1)` loop: one line per listed peak, numbered
      from 1 in list order. */
  method NumberPeaks(top: seq<Peak>) returns (lines: seq<SummaryLine>)
    ensures |lines| == |top|
    ensures forall i :: 0 <= i < |top| ==>
      lines[i] == RankedPeak(i + 1, top[i].retentionTime, top[i].height, top[i].area)
  {
    lines := [];
    for i := 0 to |top|
      invariant |lines| == i
      invariant forall k :: 0 <= k < i ==>
        lines[k] == RankedPeak(k + 1, top[k].retentionTime, top[k].height, top[k].area)
    {
      var peak := top[i];
      lines := lines + [RankedPeak(i + 1, peak.retentionTime, peak.height, peak.area)];
    }
  }
}
