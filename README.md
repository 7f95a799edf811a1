# 24-hour upwind cloud-vertical-fraction (24hrUCVF) model

`24hrUCVF.py` follows a set of back-trajectories and, for each one, adds up how
long the air parcel spent inside a cloud (mixing) layer. It does this in two steps:

- Each trajectory point is looked up, one hour further back per point, in a per-day satellite
  cloud grid (cloud base height, cloud top height, cloud fraction).
- The per-point scores are summed, up to a transit-time limit taken from a table keyed by the
  release time.

The result is one `(dateUTC, hours, limit)` record per trajectory, for every trajectory file in
turn.

This project is a Dafny model of that pipeline once the file reads and writes are removed. It
has these modules:

- `Wrappers` (`wrappers.dfy`): `Option`, `Result`, and `Fault`, which has one case for every
  condition that makes the program raise on the modelled path.
- `Text` (`text.dfy`): `str.split`, `os.path.basename`, decimal digits and zero padding
  (`{n:02d}`, `%Y`, `%m`, `%d`).
- `Calendar` (`calendar.dfy`): proleptic Gregorian dates, as Python's `datetime` handles them.
  It covers `strftime('%Y%m%d')`, `strftime('%Y-%m-%d')`, `strptime` on those forms and on
  `'%Y-%m-%d %H:%M'`, and `- timedelta(hours=k)`, including the roll-back across midnight,
  month and year ends, and the underflow below year 1.
- `GridSampler` (`grid_sampler.dfy`): `get_base_height`, `get_top_height` and
  `get_cloud_fraction`.
  - The time index is the first `argmin` of `|time_offset - hour*3600|`.
  - The cell is `29 - round((lat-28.5)/0.5)`, `round((lon+130)/0.5)`, with half-to-even rounding.
  - The level is 1, and the value is scaled by 1000.
  - Python index semantics: negative indices wrap, and an `IndexError` or a `KeyError` reads
    as NaN. NaN is `None`.
- `Mixing` (`mixing.dfy`): the classifier of `is_point_in_mixing`, and the day's grid-file key
  `YYYYMMDD.000000`. The open grid files are a map from that key to a dataset.
- `TransitLimits` (`transit.dfy`): the lookup `transit_time_limit[np.where(matchingUTC == key)[0][0]]`.
- `CloudHours` (`walk.dfy`): `count_hours_in_cloud` and the top-level loop over the files.

The functional core (sampling, classification, labels, transit lookup) is modelled as pure
functions. The loops of `count_hours_in_cloud` and the top level are modelled as methods with
`while`/`for` loops.

Each loop method is proved against a specification function:

- `WalkResult` and `SumUpTo` for the inner walk;
- `Collect` and `Extend` for the loop over trajectories;
- `Concat` for the loop over files.

Those functions take the per-element results (point scores, trajectory outcomes, file
results) as a sequence. The specification builds that sequence with `Scores`, `Outcomes` and
`FileResults`. Each loop takes it as a ghost parameter, tied to the real computation by the
predicates `ScoresMatch`, `OutcomesMatch` and `ResultsMatch`. Each `...MatchExactly` lemma
proves that exactly one sequence satisfies its predicate. The public methods
`CountHoursInCloud` and `ProcessFiles` are therefore stated directly against `FileRecords` and
`FileResults`.

Some consequences of the code that a reader might not expect:

- Latitudes from 21.0 to 28.5 N fall in rows 44 down to 29 (`IndexRanges`).
- With a base at or above ground, a score lies in (0, 1] when the classifier fires, and a
  point below the cloud base still scores (`ScoreBounds`, `ClassifierExamples`).
- Half a degree further north lowers the row by exactly 1 off a cell boundary (`LatRowStep`),
  but on a boundary, where `round` sends ties to even, it moves the row by 0 or 2
  (`LatRowTie`, with concrete values in `LatRowBoundaries`); the same holds for columns
  (`LonColStep`, `LonColTie`).

Every fatal error becomes an `Err(Fault)`:

- a missing grid file;
- an empty `time_offset`;
- division by a zero cloud top;
- a file name whose third `.`-part is not a `YYYYMMDD` date;
- a release time missing from the transit table;
- a record label that cannot be re-read because the hour is outside 0..23;
- a step back before 0001-01-01;
- the first trajectory of a file leaving `hours_CBL` unassigned (`UnboundLocalError`).

## Model

| member | source | states |
|---|---|---|
| GridSampler.Round | 24hrUCVF.py:13-14 | Python `round`: within 0.5 of x, and on a tie the even neighbour |
| GridSampler.RoundUnique | 24hrUCVF.py:13-14 | those two properties determine the rounding, so `Round` is exactly half-to-even |
| GridSampler.LatRowOnGrid | 24hrUCVF.py:13 | latitude 28.5 + k/2 is row 29 - k (28.5 N is row 29) |
| GridSampler.LonColOnGrid | 24hrUCVF.py:14 | longitude -130 + k/2 is column k (130 W is column 0) |
| GridSampler.RoundShift | 24hrUCVF.py:13-14 | off a tie, rounding x + 1 gives one more than rounding x |
| GridSampler.LatRowStep | 24hrUCVF.py:13 | off a cell boundary, +0.5 degree of latitude lowers the row by exactly 1 |
| GridSampler.LonColStep | 24hrUCVF.py:14 | off a cell boundary, +0.5 degree of longitude raises the column by exactly 1 |
| GridSampler.LatRowTie | 24hrUCVF.py:13 | on a cell boundary +0.5 degree of latitude moves the row by 0 or by 2, never by 1 |
| GridSampler.LonColTie | 24hrUCVF.py:14 | on a cell boundary +0.5 degree of longitude moves the column by 0 or by +2, never by 1 |
| GridSampler.LatRowBoundaries | 24hrUCVF.py:13 | on boundaries half-to-even makes a half-degree step move two rows or none (28.75 -> 29, 29.25 -> 27, 29.75 -> 27) |
| GridSampler.IndexRanges | 24hrUCVF.py:13-14 | latitudes 21..28.5 give rows 29..44, longitudes -130..-115.5 give columns 0..29 |
| GridSampler.NearestIndex | 24hrUCVF.py:10-11 | `np.argmin` of the distances to the target: an index of minimal distance, and every earlier index is strictly farther |
| GridSampler.NearestIndexUnique | 24hrUCVF.py:10-11 | any index with both of those properties is the one chosen (first-minimum tie-break) |
| GridSampler.At | 24hrUCVF.py:16-20 | Python indexing: defined exactly for -n <= i < n, and then it is element i mod n (negative indices wrap) |
| GridSampler.Index4 | 24hrUCVF.py:17 | `g[t, i, j, l]`: None as soon as one index is out of range on its axis, else the wrapped element (None when NaN) |
| GridSampler.Sample | 24hrUCVF.py:8-20 | fails exactly on an empty time axis; a missing variable reads None; otherwise 1000 times the value at the nearest time index, grid cell and level 1, with None for NaN or an index out of range (the same for 22-34 and 36-48) |
| Mixing.Classify | 24hrUCVF.py:59-62 | `1 - base/top` when top > base, alt < top and fraction > 20, with NaN comparisons false; 0 otherwise; a fault exactly when the layer is entered with top == 0 |
| Mixing.MissingScoresZero | 24hrUCVF.py:59-62 | a missing (NaN) base, top or fraction scores 0 |
| Mixing.ScoreBounds | 24hrUCVF.py:59-60 | with a base at or above ground the score never fails, lies in [0, 1], and is positive exactly when the point is in the layer |
| Mixing.ClassifierExamples | 24hrUCVF.py:59-62 | a point below the base still scores 0.75 (no `alt >= base` test); a fraction of 10 or a point above the top scores 0 |
| Mixing.GridKeyShape | 24hrUCVF.py:52 | the grid key is the fifteen characters `YYYYMMDD.000000`, whose first eight read back as the day |
| Mixing.GridKeyInjective | 24hrUCVF.py:52 | different days read different grid files |
| Mixing.IsPointInMixing | 24hrUCVF.py:50-62 | a day without a grid file and an empty time axis stop the program |
| Mixing.MissingVariableScoresZero | 24hrUCVF.py:16-20 | a grid file that lacks one of the three variables scores 0 (KeyError becomes NaN) |
| TransitLimits.FirstMatch | 24hrUCVF.py:82 | `np.where(...)[0][0]`: the first row whose start time equals the key, or none when no row does |
| TransitLimits.TransitLimit | 24hrUCVF.py:82-83 | fails exactly when no start time equals the key; otherwise the limit of the first matching row |
| TransitLimits.LaterRowsIgnored | 24hrUCVF.py:82-83 | rows after the first match do not change the limit |
| Text.Split | 24hrUCVF.py:67 | `split` yields at least one piece, none containing the separator |
| Text.JoinSplit | 24hrUCVF.py:67 | joining the pieces with the separator gives back the string |
| Text.SplitJoin | 24hrUCVF.py:67 | splitting a join of separator-free pieces gives back the pieces |
| Text.Basename | 24hrUCVF.py:66 | the base name contains no '/' |
| Text.BasenameSuffix | 24hrUCVF.py:66 | the base name is the suffix of the path after its last '/' (the whole path when there is none) |
| Text.ZeroPadValue | 24hrUCVF.py:80-81 | `{n:0wd}` is all digits, denotes n, and has exactly w characters when n fits in w digits |
| Text.Format02Shape | 24hrUCVF.py:80-81 | `{n:02d}` is two digits denoting n for 0..99, starts with '-' for negative hours, and is longer than two from 100 on |
| Text.ParsedDigitsRebuild | 24hrUCVF.py:68 | a field that parses as digits fits its width and pads back to the same text |
| Text.ParseZeroPad | 24hrUCVF.py:68 | a padded number parses back to itself |
| Text.DigitsValueInjective | 24hrUCVF.py:68 | equal-length digit strings denoting the same number are equal |
| Calendar.PrevDay | 24hrUCVF.py:92 | there is a day before every valid date except 0001-01-01, and it is valid |
| Calendar.PrevDayCount | 24hrUCVF.py:92 | the day before is one day number earlier (month, year and leap-day roll-back) |
| Calendar.HoursBack | 24hrUCVF.py:92 | `- timedelta(hours=k)` lands on a valid date and hour |
| Calendar.HoursBackCount | 24hrUCVF.py:92 | it succeeds exactly when k hours remain before 0001-01-01 00:00, and lands exactly k hours earlier |
| Calendar.HoursBackUnique | 24hrUCVF.py:92 | it lands on the one valid date and hour that lies k hours earlier |
| Calendar.DayNumberInjective | 24hrUCVF.py:92 | different dates have different day numbers |
| Calendar.FormatCompactShape | 24hrUCVF.py:52 | `%Y%m%d` is eight digits, with year, month and day at fixed offsets |
| Calendar.FormatIsoShape | 24hrUCVF.py:69 | `%Y-%m-%d` is ten characters, with year, month and day between dashes |
| Calendar.ParseCompact | 24hrUCVF.py:68 | `strptime(_, '%Y%m%d')` yields only valid dates |
| Calendar.ParseCompactRebuild | 24hrUCVF.py:68 | what parses is exactly the eight-digit form of the date it yields |
| Calendar.ParseFormatCompact | 24hrUCVF.py:68 | `%Y%m%d` of a date parses back to the date |
| Calendar.ParseIsoMinutes | 24hrUCVF.py:92 | `strptime(_, '%Y-%m-%d %H:%M')` yields only valid dates and hours |
| Calendar.ParseIsoMinutesRebuild | 24hrUCVF.py:92 | what parses has sixteen characters and is exactly the formatted form of the datetime it yields |
| Calendar.ParseFormatIsoMinutes | 24hrUCVF.py:92 | formatting a datetime as `%Y-%m-%d %H:%M` and parsing it gives it back |
| CloudHours.Trunc | 24hrUCVF.py:79-80 | `int()` of a float truncates toward zero |
| CloudHours.LabelFormat | 24hrUCVF.py:80-81 | for an hour in 0..23 the label is the sixteen characters `YYYY-MM-DD HH:00` and the key is the label plus `:00` |
| CloudHours.LabelParses | 24hrUCVF.py:92 | re-reading the label gives the release date and hour exactly when the hour is 0..23; otherwise it fails |
| CloudHours.FileDate | 24hrUCVF.py:66-68 | the file's date is valid, or the file name is reported as bad |
| CloudHours.FileDateRebuild | 24hrUCVF.py:66-68 | the date read is exactly the one whose eight-digit form is the third `.`-part of the base name |
| CloudHours.FileDateRewrites | 24hrUCVF.py:66-69 | a third part equal to a date's `YYYYMMDD` yields that date, and the date text is those digits rewritten as `YYYY-MM-DD` |
| CloudHours.StepTimeOfLabel | 24hrUCVF.py:92 | point k is queried exactly k hours before the release, rolling back over midnight; it fails only past 0001-01-01 00:00, or for a release hour outside 0..23 |
| CloudHours.SumFaultSticks | 24hrUCVF.py:93 | a fault during the walk is the outcome of every longer walk |
| CloudHours.SumUpToPrefix | 24hrUCVF.py:85-95 | hr_in_CBL after m points depends on the first m scores only |
| CloudHours.WalkUsesEvaluatedScores | 24hrUCVF.py:85-95 | only the scores of the min(n, T) classified points decide the walk; for T <= 0 no score does |
| CloudHours.CollectFaultSticks | 24hrUCVF.py:76-97 | a fault on one trajectory is the outcome of the whole file |
| CloudHours.CollectFailsAt | 24hrUCVF.py:76-97 | any trajectory that fails makes the file fail |
| CloudHours.ConcatFaultSticks | 24hrUCVF.py:113-116 | a fault in one file is the outcome of the whole run |
| CloudHours.ExtendAppends | 24hrUCVF.py:97 | each trajectory appends exactly one record and keeps the earlier ones |
| CloudHours.CollectPrefix | 24hrUCVF.py:76-97 | a file yields exactly one record per trajectory, and a prefix of the trajectories yields the same prefix of the records |
| CloudHours.CollectEntry | 24hrUCVF.py:86-97 | record i is trajectory i's record when its walk assigned one, otherwise it repeats record i-1 (so there must be one); trajectory i did not fail |
| CloudHours.RecordOfTrajectory | 24hrUCVF.py:79-97 | the transit limit was found; with points and T = 0 the record is (dateUTC, 0, 0); with T > 0 it is (dateUTC, sum of the first min(n, T) scores, T); with no points or T < 0 it repeats the previous record |
| CloudHours.MissingStartTimeFails | 24hrUCVF.py:82-83 | a release time missing from the transit table makes the whole file fail |
| CloudHours.PointScoreBounds | 24hrUCVF.py:59-60 | where every grid base is at or above ground, every point score lies in [0, 1] |
| CloudHours.SumBounded | 24hrUCVF.py:93 | scores in [0, 1] give a running total that never decreases and never exceeds the number of points added |
| CloudHours.PartialSumMonotone | 24hrUCVF.py:93 | where every grid base is at or above ground, hr_in_CBL never decreases along the walk and is at most the number of points scored |
| CloudHours.ScorePoint | 24hrUCVF.py:92-93 | one step scores point k exactly as the specification's k-th score |
| CloudHours.WalkPoints | 24hrUCVF.py:85-95 | the inner loop leaves in hours_CBL exactly `WalkResult`: None for no points or T < 0, (dateUTC, 0, 0) for T = 0, else the running sum of the first min(n, T) scores, or the first fault; a walk that does not fail classifies exactly `Evaluations(n, T)` points: none for T <= 0, else min(n, T) |
| CloudHours.WalkTrajectory | 24hrUCVF.py:79-95 | one trajectory's label, key, transit lookup and walk give exactly that trajectory's outcome |
| CloudHours.CollectTrajectories | 24hrUCVF.py:76-97 | the loop over trajectories returns exactly `Collect` of their outcomes, with the stale hours_CBL carried over |
| CloudHours.CountHoursInCloud | 24hrUCVF.py:64-99 | count_hours_in_cloud returns exactly `FileRecords` of the file |
| CloudHours.CountFile | 24hrUCVF.py:115 | one pass of the top loop returns that file's result |
| CloudHours.ExtendFiles | 24hrUCVF.py:113-116 | the top loop returns the records of every file concatenated in file order, or the first fault |
| CloudHours.ProcessFiles | 24hrUCVF.py:113-116 | the whole run returns exactly `Concat` of `FileResults` |

## Left out

- Reading files is not modelled: `xr.open_dataset`, `nc.Dataset`, the hard-coded grid path
  (line 53) and the transit CSV (lines 101-105). The grid files are a map from the `YYYYMMDD.000000`
  key, the trajectory files are values (path, trajectories), and the table is a sequence of
  rows.
- The directory listing, `.nc` filter and sort (lines 108-109) are not modelled: `ProcessFiles`
  takes the already sorted list of files.
- The CSV output (lines 118-121) is I/O and is left out.
- `height_to_pblh_ratio` and the `ratio` parameter are left out: they are read but never used.
- IEEE floating point is modelled as exact reals. NaN is `None` where the code can produce it
  (grid values, missing variables, out-of-range indices). A masked or NaN latitude, longitude,
  altitude, `time` or transit limit is not modelled.
- Transit limits are integers; a fractional limit in the CSV is not modelled.
- `strptime` leniency is not modelled. Only the canonical zero-padded forms parse; Python also
  accepts, for example, one-digit months in `%Y%m%d`.
- Years below 1000 are formatted with four digits by `%Y`. CPython's output there depends on
  the platform.
- Only ASCII digits count as digits. Python's `int`/`strptime` also accept other Unicode digits.
- Grid variables are modelled as four-dimensional. A variable with another number of
  dimensions (another error path of numpy) is not modelled.
- A NaN in `time_offset` (which `np.argmin` would pick first) is not modelled, and neither is a
  dataset without `time_offset`.
- `trajectories` pairs each trajectory's `time` value with its points. The four point arrays
  are zipped (line 85), so a trajectory has as many points as the shortest of them.
- Mixing.IsPointInMixing: its contract states only the two fault cases; its value (the
  classifier applied to the three samples) is stated by the lemmas about `Sample` and
  `Classify` that it composes.
- Text.Basename: its contract states only that the name has no '/'; the suffix property is the
  lemma `BasenameSuffix`.
