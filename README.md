# Peak bookkeeping of the GC chromatogram analyzer

This project models the deterministic part of the chromatogram pipeline of
gc_graph_analyzer in Dafny. That part covers:

- turning the peak finder's candidates into peak records (index
  resolution, filtering, trapezoid area);
- summarising a trace into a JSON record and a ranked text report;
- the `.cdf` → `.json` output-name rewrite;
- the "No peaks found." short cut of the end-to-end entry point;
- the helpers of `app/chromatogram/utils.py`: the `.cdf` file check, the
  peak statistics and the top-k peak summary.

Times, intensities, heights and areas are exact `real`s. The peak finder and
the width finder (scipy) are library code: their output enters the model as
a sequence of `Candidate`s (apex index, height, fractional left and right
bounds). The median baseline, the file system's "does the path exist?"
answer and the loaded trace are parameters.

Files:

- `peaks.dfy` (module `Peaks`): the peak record and the one ranking rule
  both reports use, a stable sort by descending height.
- `reductions.dfy` (module `Reductions`): `max`, `min`, `sum` and mean over
  reals.
- `text.dfy` (module `Text`): ASCII `lower`, `endswith`, `str.replace` and
  POSIX `basename`.
- `processing.dfy` (module `Processing`): `ChromatogramProcessor`'s
  detection loop, trace summary and file-processing short cut.
- `utils.dfy` (module `Utils`): `validate_cdf_file`,
  `get_peak_statistics` and `format_peak_summary`.

Operations that work step by step in the source are methods with loops,
proved against specification functions:

- `DetectPeaksAndAreas`: a `for` loop with two `continue` guards;
- `SummarizeTrace` and `NumberPeaks`: one appended line per peak.

The pure parts are functions with lemmas: the clamp, the trapezoid
integral, the sort, `replace`, the statistics and the slice.
`ChromatogramProcessor` is not a class here. Its only field,
`json_output_dir`, is never updated and only names the directory the JSON
file is written to.

Errors: numpy's `max` raises on an empty intensity array. Both
`detect_peaks_and_areas` (processing.py:55) and `summarize_trace`
(processing.py:125) call it, so for an empty trace the model returns
`Err(EmptyTrace)`. It does not exclude empty traces by a precondition.

Case mismatch in the output name: `validate_cdf_file` accepts `.CDF` in any
case, but the JSON name rewrite is case-sensitive. By
`Text.ReplaceAllAbsent`, a name ending in `.CDF`, with no lower-case `.cdf`
elsewhere in it, keeps that name for its JSON file.

## Model

| member | source | states |
|---|---|---|
| Processing.Floor | app/chromatogram/processing.py:85 | `int(np.floor(x))` is the greatest integer not above `x` |
| Processing.Ceil | app/chromatogram/processing.py:86 | `int(np.ceil(x))` is the least integer not below `x` |
| Processing.Clamp | app/chromatogram/processing.py:85-86 | for `n >= 1`, `max(0, min(n-1, k))` is a valid index. It equals `k` exactly when `k` is already valid, and is the nearer end of the trace otherwise |
| Processing.Kept | app/chromatogram/processing.py:72-89 | a candidate survives both `continue` guards iff its apex is inside the trace and `start_idx < end_idx`. The `end_idx >= len(time)` half of the guard never decides anything. A kept candidate has `0 <= start_idx < end_idx <= N-1` |
| Processing.BoundsBracketApex | app/chromatogram/processing.py:80-86 | if the width bounds bracket the apex (`left_ips <= peak_idx <= right_ips`), then `start_idx <= peak_idx <= end_idx` |
| Processing.TrapezoidSplit | app/chromatogram/processing.py:91 | the trapezoid integral over `[s, e]` is the sum of the integrals over `[s, m]` and `[m, e]` |
| Processing.TrapezoidBetween | app/chromatogram/processing.py:91 | on a non-decreasing time axis, with the signal within `[lo, hi]`, the area lies between `lo` and `hi` times the span's duration |
| Processing.TrapezoidNonNegative | app/chromatogram/processing.py:88-91 | on a non-decreasing time axis a non-negative signal has a non-negative area |
| Processing.SliceBetween | app/chromatogram/processing.py:91 | one trapezoid of the rule lies between the rectangles of height `lo` and `hi` over its step |
| Processing.PeakRecordFields | app/chromatogram/processing.py:76-100 | a record holds the candidate's apex index and height and `time[peak_idx]`. Its start and end times are those at two distinct valid indices, which bracket the apex when the width bounds do. Its area is the trapezoid integral between them |
| Processing.PeakRecordTimesOrdered | app/chromatogram/processing.py:76-100 | on a non-decreasing time axis a bracketed apex has `start_time <= retention_time <= end_time` |
| Processing.PeakRecordAreaBounds | app/chromatogram/processing.py:88-100 | on a non-decreasing time axis, with a non-negative signal bounded by `top`, `0 <= area <= top * (end_time - start_time)` |
| Processing.DetectedPeaks | app/chromatogram/processing.py:71-102 | the loop's result over a candidate list never has more records than there are candidates |
| Processing.KeptPositions | app/chromatogram/processing.py:72-89 | the positions of the kept candidates, strictly increasing. A position is listed iff its candidate is kept |
| Processing.DetectedPeaksSelect | app/chromatogram/processing.py:71-102 | the result is the order-preserving selection of the kept candidates: its `k`-th record is the record of the `k`-th kept candidate |
| Processing.NoCandidatesNoPeaks | app/chromatogram/processing.py:71-102 | no candidates give no records |
| Processing.DetectPeaksAndAreas | app/chromatogram/processing.py:44-102 | an empty trace is an error (numpy `max` raises). Otherwise the loop with its two `continue` guards returns exactly the detection result `DetectedPeaks` |
| Processing.Zip | app/chromatogram/processing.py:129 | `zip` pairs equal positions and stops at the end of the shorter sequence |
| Processing.ReportHeaderLines | app/chromatogram/processing.py:141-148 | the six header lines, one by one: title, peak count, maximum, baseline, blank line, heading |
| Processing.SummarizeTrace | app/chromatogram/processing.py:104-156 | an empty trace is an error. Otherwise the record holds the file name, `total_peaks = len(peaks)`, the trace's maximum, the baseline, the peaks and the zipped trace data, and the JSON name is the `.cdf`→`.json` rewrite. The report is the 6-line header followed by one line per peak, in the order of `SortByHeight` |
| Processing.ProcessCdfFile | app/chromatogram/processing.py:170-176 | for a loaded trace: an empty trace is an error. The answer is exactly "No peaks found." iff nothing was detected. Otherwise it is the report under the path's base name, with 6 + n lines and one ranked line per detected peak |
| Processing.JsonNameOfCdf | app/chromatogram/processing.py:132 | a name `stem + ".cdf"` with no other `.cdf` in it becomes `stem + ".json"` |
| Processing.JsonNameHasNoCdf | app/chromatogram/processing.py:132 | every occurrence is replaced: the JSON name never contains `.cdf` |
| Processing.JsonNameHead | app/chromatogram/processing.py:132 | when the JSON name does not start with `.`, its first character is the input's and the rest is the rewrite of the input's rest |
| Text.ReplaceAllAbsent | app/chromatogram/processing.py:132 | a name without `.cdf` is returned unchanged by `replace` |
| Text.BaseName | app/chromatogram/processing.py:175 | `os.path.basename` is the suffix of the path after its last `/`: it contains no `/`, and the character before it, if any, is `/` |
| Peaks.SortByHeight | app/chromatogram/processing.py:150 | `sorted(..., key=height, reverse=True)` has the input's length, is a permutation of it (same multiset) and has non-increasing heights |
| Peaks.SortByHeightStable | app/chromatogram/processing.py:150 | the sort is stable: for every height, the peaks of that height appear in their input order |
| Peaks.SortByHeightUnique | app/chromatogram/processing.py:150 | any non-increasing arrangement of the peaks that keeps every height class in input order is `SortByHeight` itself: the ranking is fully determined |
| Peaks.InsertByHeightSorted | app/chromatogram/processing.py:150 | inserting a peak in front of the first peak that is not higher keeps a ranking non-increasing |
| Peaks.InsertByHeightWithHeight | app/chromatogram/processing.py:150 | that insertion puts the peak at the front of its own height class and leaves the other classes unchanged |
| Peaks.SortedStableUnique | app/chromatogram/processing.py:150 | two non-increasing sequences with the same height classes are equal |
| Peaks.WithHeightAppend | app/chromatogram/utils.py:73 | the height class of a concatenation is the concatenation of the height classes |
| Reductions.MaxOf | app/chromatogram/processing.py:125 | the maximum is at least every element and is one of them |
| Reductions.MinOf | app/chromatogram/utils.py:49 | the minimum is at most every element and is one of them |
| Reductions.Mean | app/chromatogram/utils.py:50 | `sum(s) / len(s)` lies between the minimum and the maximum |
| Reductions.MeanBounds | app/chromatogram/utils.py:50 | if every element lies in `[lo, hi]`, so does the mean |
| Reductions.SumBetween | app/chromatogram/utils.py:50 | a sum of `n` terms in `[lo, hi]` lies in `[n * lo, n * hi]` |
| Text.ToLower | app/chromatogram/utils.py:23 | `lower()` keeps the length and lower-cases each character |
| Utils.ValidateCdfFile | app/chromatogram/utils.py:9-27 | the path is accepted iff it exists and its last four characters are `.` then `c`, `d`, `f`, each letter in either case |
| Utils.LowerSuffix | app/chromatogram/utils.py:23 | a lower-cased path ends in `.cdf` iff the original ends in `.cdf` up to the case of the letters |
| Utils.KeyNameInjective | app/chromatogram/utils.py:46-56 | the nine statistics are stored under nine distinct keys |
| Utils.GetPeakStatistics | app/chromatogram/utils.py:29-56 | no peaks give the empty dictionary, and only then. Otherwise all nine keys are present. `total_peaks` is the count. Each `max_*` is at least every value and is one of them, and each `min_*` is at most every value and is one of them. Each average is the mean and lies between its minimum and maximum |
| Utils.TopPeaksRanked | app/chromatogram/utils.py:73 | the listed peaks are a prefix of the ranking. With `max_peaks >= 0` they are the first `max_peaks` ranked peaks, or all of them when there are fewer. With a negative `max_peaks`, exactly the `-max_peaks` lowest-ranked peaks are left out, or all of them when there are fewer. The listed heights do not increase, and the listed and unlisted peaks together make up exactly the input |
| Utils.TopPeaksHighest | app/chromatogram/utils.py:73 | no unlisted peak is higher than a listed one |
| Utils.TopPeaksStable | app/chromatogram/utils.py:73 | within each height, the listed peaks come first, in input order, and the unlisted ones follow |
| Utils.FormatPeakSummary | app/chromatogram/utils.py:58-83 | `max_peaks` defaults to 10. No peaks give exactly "No peaks detected.". Otherwise the output is the header "Top k peaks:" with `k` the number of listed peaks, then the `k` listed peaks in rank order, numbered 1..k |
| Utils.NumberPeaks | app/chromatogram/utils.py:75-81 | one line per listed peak, numbered consecutively from 1 in list order, showing its retention time, height and area |

## Left out

- scipy `find_peaks` and `peak_widths` (processing.py:59-67, 80): library code. Their results are the `Candidate` input. The width finder's bracketing `left_ips <= peak_idx <= right_ips` is a precondition of the lemmas that need it. Prominence, distance and height filtering are not modelled.
- numpy `percentile` and `median` (processing.py:56-60, 118): the thresholds only feed the peak finder. The median baseline is a parameter of `SummarizeTrace` and `ProcessCdfFile`.
- `round(..., 2)` in the records and the `:,.2f` formatting in the report: values are modelled before rounding, and report lines record which value they show, not its digits. The source ranks the rounded heights, so two peaks whose heights differ below 0.01 may tie there but not in the model.
- `"\n".join(...)` of the report and summary lines: the model returns the list of lines.
- netCDF loading (`load_cdf_data`), the JSON write, `os.makedirs`, `os.path.join` and logging: file I/O. The loaded arrays are parameters of `ProcessCdfFile`. A load error re-raised by `process_cdf_file` is not modelled.
- `os.path.exists` in `validate_cdf_file`: a boolean parameter.
- `lower()`: only ASCII letters are lower-cased. Python's full Unicode case mapping is not modelled.
- Processing.DetectPeaksAndAreas: requires `time` and `intensity` to have the same length. The source does not check this; it reads both arrays from one file.
- Processing.PeakRecordAreaBounds: bounds the area by any `top` that bounds the signal, not by the trace maximum by name. The trace maximum (`Reductions.MaxOf`) is one such bound.
- Utils.GetPeakStatistics: the dictionary is keyed by the `Statistic` enumeration. `KeyName` gives each one's key string. `total_peaks` is stored as a real.
- Floating point: all arithmetic is exact. NaN, infinities and rounding of the trapezoid sum are not modelled.
- The `json_output_dir` field and its directory: only used for the file write.
