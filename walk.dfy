/** count_hours_in_cloud and the loop over trajectory files: for every back-trajectory, walk its
    points backward hour by hour up to the transit limit and add up the mixing scores. */
module CloudHours {
  import opened Wrappers
  import opened Text
  import opened Calendar
  import opened GridSampler
  import opened Mixing
  import opened TransitLimits

  /** One point of a trajectory; the k-th point lies k hours before the release. */
  datatype Point = Point(lat: real, lon: real, alt: real)

  /** A back-trajectory: its `time` value (seconds since the file's day start) and its points. */
  datatype Trajectory = Trajectory(time: real, points: seq<Point>)

  /** A trajectory file: its path and its trajectories in `time` index order. */
  datatype TrajectoryFile = TrajectoryFile(path: string, trajectories: seq<Trajectory>)

  /** One output row: `(dateUTC, hr_in_CBL, transit_time)`. */
  datatype Record = Record(dateUTC: string, hoursInCBL: real, transitLimit: int)

  function Min(a: int, b: int): int { if a <= b then a else b }

  /** Python's `int()` of a float: truncation toward zero. */
  function Trunc(x: real): (r: int)
    ensures 0.0 <= x ==> r as real <= x < r as real + 1.0
    ensures x < 0.0 ==> r as real - 1.0 < x <= r as real
  {
    if x >= 0.0 then x.Floor else -((-x).Floor)
  }

  /** The release hour of a trajectory, `int(time / 3600)`. */
  function ReleaseHour(time: real): int
  {
    Trunc(time / 3600.0)
  }

  /** `f'{date_time} {hour:02d}:00'`, the record's dateUTC. */
  function DateLabel(dateText: string, hour: int): string
  {
    dateText + " " + Format02(hour) + ":00"
  }

  /** `f'{date_time} {hour:02d}:00:00'`, the key looked up in the transit table. */
  function MatchKey(dateText: string, hour: int): string
  {
    DateLabel(dateText, hour) + ":00"
  }

  /** For an hour of the day the label reads "YYYY-MM-DD HH:00" and the key "YYYY-MM-DD HH:00:00". */
  lemma LabelFormat(d: Date, hour: int)
    requires ValidDate(d) && 0 <= hour < 24
    ensures DateLabel(FormatIso(d), hour) == FormatIsoMinutes(d, hour, 0)
    ensures |DateLabel(FormatIso(d), hour)| == 16
    ensures MatchKey(FormatIso(d), hour) == FormatIsoMinutes(d, hour, 0) + ":00"
  {
    ZeroPadZero();
    FormatIsoShape(d);
    ZeroPadValue(hour, 2);
    assert Format02(hour) == ZeroPad(hour, 2);
    LabelText(FormatIso(d), ZeroPad(hour, 2));
  }

  /** The label text, `date + " " + hh + ":00"`, read as the concatenation `%H:%M` builds. */
  lemma LabelText(date: string, hh: string)
    ensures date + " " + hh + ":" + "00" == date + " " + hh + ":00"
    ensures |date + " " + hh + ":00"| == |date| + |hh| + 4
  {
    assert ":" + "00" == ":00";
  }

  /** Re-reading the label with `strptime(dateUTC, '%Y-%m-%d %H:%M')` gives back the release
      date and hour exactly when the hour is 0..23; otherwise it fails. */
  lemma LabelParses(d: Date, hour: int)
    requires ValidDate(d)
    ensures ParseIsoMinutes(DateLabel(FormatIso(d), hour)) ==
            if 0 <= hour < 24 then Some(DateHour(d, hour)) else None
  {
    var s := DateLabel(FormatIso(d), hour);
    var h2 := Format02(hour);
    if 0 <= hour < 24 {
      LabelFormat(d, hour);
      ParseFormatIsoMinutes(d, hour, 0);
    } else {
      FormatIsoShape(d);
      Format02Shape(hour);
      if |s| == 16 {
        assert |h2| == 2;
        assert s[11..13] == h2;
        if hour < 0 {
          assert !IsDigit(s[11]);
        } else {
          assert ParseDigits(s[11..13]) == Some(hour);
        }
      }
    }
  }

  /** The date of a trajectory file: the third '.'-separated part of its name, YYYYMMDD. */
  function FileDate(path: string): (r: Result<Date, Fault>)
    ensures r.Ok? ==> ValidDate(r.value)
    ensures r.Err? ==> r.error == BadFileName(Basename(path))
  {
    var name := Basename(path);
    var parts := Split(name, '.');
    if |parts| < 3 then Err(BadFileName(name))
    else
      match ParseCompact(parts[2])
      case None => Err(BadFileName(name))
      case Some(d) => Ok(d)
  }

  /** The file date is read from the third part of the name, and it is exactly the date whose
      eight-digit form that part is. */
  lemma FileDateRebuild(path: string)
    requires FileDate(path).Ok?
    ensures var parts := Split(Basename(path), '.');
      |parts| >= 3 && FormatCompact(FileDate(path).value) == parts[2]
  {
    ParseCompactRebuild(Split(Basename(path), '.')[2]);
  }

  /** A file name whose third part is the eight-digit form of a date yields that date, and its
      date text is those digits rewritten as YYYY-MM-DD. */
  lemma FileDateRewrites(path: string, d: Date)
    requires ValidDate(d)
    requires var parts := Split(Basename(path), '.'); |parts| >= 3 && parts[2] == FormatCompact(d)
    ensures FileDate(path) == Ok(d)
    ensures var seg := FormatCompact(d); FormatIso(d) == seg[..4] + "-" + seg[4..6] + "-" + seg[6..]
  {
    ParseFormatCompact(d);
    FormatCompactShape(d);
  }

  /** `strptime(dateUTC, '%Y-%m-%d %H:%M') - timedelta(hours=k)`. */
  function StepTime(dateUTC: string, k: nat): (r: Result<DateHour, Fault>)
    ensures r.Ok? ==> ValidDateHour(r.value)
  {
    match ParseIsoMinutes(dateUTC)
    case None => Err(BadReleaseLabel(dateUTC))
    case Some(t) =>
      match HoursBack(t, k)
      case None => Err(DateOutOfRange)
      case Some(u) => Ok(u)
  }

  /** Point k of a release at (d, hour) is queried exactly k hours earlier, rolling back over
      midnight; the label of a release hour outside 0..23 does not parse. */
  lemma StepTimeOfLabel(d: Date, hour: int, k: nat)
    requires ValidDate(d)
    ensures !(0 <= hour < 24) ==> StepTime(DateLabel(FormatIso(d), hour), k) == Err(BadReleaseLabel(DateLabel(FormatIso(d), hour)))
    ensures 0 <= hour < 24 ==>
      var release := DateHour(d, hour);
      (StepTime(DateLabel(FormatIso(d), hour), k).Ok? <==> k <= HourNumber(release)) &&
      (StepTime(DateLabel(FormatIso(d), hour), k).Err? ==> StepTime(DateLabel(FormatIso(d), hour), k) == Err(DateOutOfRange)) &&
      (StepTime(DateLabel(FormatIso(d), hour), k).Ok? ==>
        HourNumber(StepTime(DateLabel(FormatIso(d), hour), k).value) + k == HourNumber(release))
  {
    LabelParses(d, hour);
    if 0 <= hour < 24 {
      HoursBackCount(DateHour(d, hour), k);
    }
  }

  /** The score of point k of the trajectory labelled dateUTC. */
  function PointScore(grids: map<string, Dataset>, dateUTC: string, k: nat, p: Point): Result<real, Fault>
  {
    match StepTime(dateUTC, k)
    case Err(e) => Err(e)
    case Ok(when) => IsPointInMixing(grids, p.lat, p.lon, when, p.alt)
  }

  /** The score (or fault) of every point of a trajectory, point k queried k hours back. */
  function Scores(grids: map<string, Dataset>, dateUTC: string, pts: seq<Point>): (s: seq<Result<real, Fault>>)
    ensures |s| == |pts|
  {
    seq(|pts|, k requires 0 <= k < |pts| => PointScore(grids, dateUTC, k, pts[k]))
  }

  /** `scores` holds the score of every point of pts. The walk is proved against any such
      sequence; Scores is the one.
      The loop methods below take the per-element results as ghost sequences tied to the
      computation by such predicates (and the per-element methods ScorePoint, WalkTrajectory
      and CountFile return one element each), so that no loop's proof unfolds the scoring,
      the calendar or the file-name parsing; that keeps every proof obligation small. */
  predicate ScoresMatch(grids: map<string, Dataset>, dateUTC: string, pts: seq<Point>,
                        scores: seq<Result<real, Fault>>)
  {
    |scores| == |pts| &&
    forall k {:trigger PointScore(grids, dateUTC, k, pts[k])} :: 0 <= k < |pts| ==>
      scores[k] == PointScore(grids, dateUTC, k, pts[k])
  }

  /** Scores is the only sequence that matches the points. */
  lemma ScoresMatchExactly(grids: map<string, Dataset>, dateUTC: string, pts: seq<Point>,
                           scores: seq<Result<real, Fault>>)
    ensures ScoresMatch(grids, dateUTC, pts, scores) <==> scores == Scores(grids, dateUTC, pts)
  {
    var s := Scores(grids, dateUTC, pts);
    if ScoresMatch(grids, dateUTC, pts, scores) {
      forall k | 0 <= k < |pts| ensures scores[k] == s[k] {
        assert scores[k] == PointScore(grids, dateUTC, k, pts[k]);
      }
    } else if scores == s {
      assert false;
    }
  }

  /** hr_in_CBL after the first m scores: added in point order, or the first fault among them. */
  function SumUpTo(scores: seq<Result<real, Fault>>, m: nat): Result<real, Fault>
    requires m <= |scores|
  {
    if m == 0 then Ok(0.0)
    else
      match SumUpTo(scores, m - 1)
      case Err(e) => Err(e)
      case Ok(acc) =>
        match scores[m - 1]
        case Err(e) => Err(e)
        case Ok(s) => Ok(acc + s)
  }

  /** What the walk over a trajectory with these point scores leaves in hours_CBL: None when it
      assigns nothing (no points, or a negative limit); the record with score 0 for a limit of 0;
      otherwise the sum of the scores of the first min(n, limit) points. */
  function WalkResult(dateUTC: string, scores: seq<Result<real, Fault>>, limit: int)
    : Result<Option<Record>, Fault>
  {
    if |scores| == 0 || limit < 0 then Ok(None)
    else if limit == 0 then Ok(Some(Record(dateUTC, 0.0, 0)))
    else
      match SumUpTo(scores, Min(|scores|, limit))
      case Err(e) => Err(e)
      case Ok(sum) => Ok(Some(Record(dateUTC, sum, limit)))
  }

  /** One trajectory of a file dated dateText: its transit limit is looked up, then its points
      are walked. */
  function TrajectoryOutcome(dateText: string, traj: Trajectory, table: seq<TransitRow>,
                             grids: map<string, Dataset>): Result<Option<Record>, Fault>
  {
    var hour := ReleaseHour(traj.time);
    var dateUTC := DateLabel(dateText, hour);
    match TransitLimit(table, MatchKey(dateText, hour))
    case Err(e) => Err(e)
    case Ok(limit) => WalkResult(dateUTC, Scores(grids, dateUTC, traj.points), limit)
  }

  /** The outcome of every trajectory of a file, in trajectory order. */
  function Outcomes(dateText: string, trajs: seq<Trajectory>, table: seq<TransitRow>,
                    grids: map<string, Dataset>): (s: seq<Result<Option<Record>, Fault>>)
    ensures |s| == |trajs|
  {
    seq(|trajs|, i requires 0 <= i < |trajs| => TrajectoryOutcome(dateText, trajs[i], table, grids))
  }

  /** `outs` holds the outcome of every trajectory. */
  predicate OutcomesMatch(dateText: string, trajs: seq<Trajectory>, table: seq<TransitRow>,
                          grids: map<string, Dataset>, outs: seq<Result<Option<Record>, Fault>>)
  {
    |outs| == |trajs| &&
    forall i {:trigger TrajectoryOutcome(dateText, trajs[i], table, grids)} :: 0 <= i < |trajs| ==>
      outs[i] == TrajectoryOutcome(dateText, trajs[i], table, grids)
  }

  /** Outcomes is the only sequence that matches the trajectories. */
  lemma OutcomesMatchExactly(dateText: string, trajs: seq<Trajectory>, table: seq<TransitRow>,
                             grids: map<string, Dataset>, outs: seq<Result<Option<Record>, Fault>>)
    ensures OutcomesMatch(dateText, trajs, table, grids, outs) <==> outs == Outcomes(dateText, trajs, table, grids)
  {
    var s := Outcomes(dateText, trajs, table, grids);
    if OutcomesMatch(dateText, trajs, table, grids, outs) {
      forall i | 0 <= i < |trajs| ensures outs[i] == s[i] {
        assert outs[i] == TrajectoryOutcome(dateText, trajs[i], table, grids);
      }
    } else if outs == s {
      assert false;
    }
  }

  /** The records after one more trajectory: its record appended, or, when its walk assigned
      nothing, the previous record appended again; with no previous record, UnboundLocalError. */
  function Extend(records: seq<Record>, out: Result<Option<Record>, Fault>): Result<seq<Record>, Fault>
  {
    match out
    case Err(e) => Err(e)
    case Ok(None) => if |records| == 0 then Err(UnboundRecord) else Ok(records + [records[|records| - 1]])
    case Ok(Some(x)) => Ok(records + [x])
  }

  /** total_hours_CBL_LA after the first m trajectories. */
  function Collect(outs: seq<Result<Option<Record>, Fault>>, m: nat): Result<seq<Record>, Fault>
    requires m <= |outs|
  {
    if m == 0 then Ok([])
    else
      match Collect(outs, m - 1)
      case Err(e) => Err(e)
      case Ok(rs) => Extend(rs, outs[m - 1])
  }

  /** What count_hours_in_cloud returns for one file. */
  function FileRecords(file: TrajectoryFile, table: seq<TransitRow>, grids: map<string, Dataset>)
    : Result<seq<Record>, Fault>
  {
    match FileDate(file.path)
    case Err(e) => Err(e)
    case Ok(d) =>
      var trajs := file.trajectories;
      Collect(Outcomes(FormatIso(d), trajs, table, grids), |trajs|)
  }

  /** The result of count_hours_in_cloud for every file, in file order. */
  function FileResults(files: seq<TrajectoryFile>, table: seq<TransitRow>, grids: map<string, Dataset>)
    : (s: seq<Result<seq<Record>, Fault>>)
    ensures |s| == |files|
  {
    seq(|files|, i requires 0 <= i < |files| => FileRecords(files[i], table, grids))
  }

  /** `results` holds the result of every file. */
  predicate ResultsMatch(files: seq<TrajectoryFile>, table: seq<TransitRow>, grids: map<string, Dataset>,
                         results: seq<Result<seq<Record>, Fault>>)
  {
    |results| == |files| &&
    forall i {:trigger FileRecords(files[i], table, grids)} :: 0 <= i < |files| ==>
      results[i] == FileRecords(files[i], table, grids)
  }

  /** FileResults is the only sequence that matches the files. */
  lemma ResultsMatchExactly(files: seq<TrajectoryFile>, table: seq<TransitRow>, grids: map<string, Dataset>,
                            results: seq<Result<seq<Record>, Fault>>)
    ensures ResultsMatch(files, table, grids, results) <==> results == FileResults(files, table, grids)
  {
    var s := FileResults(files, table, grids);
    if ResultsMatch(files, table, grids, results) {
      forall i | 0 <= i < |files| ensures results[i] == s[i] {
        assert results[i] == FileRecords(files[i], table, grids);
      }
    } else if results == s {
      assert false;
    }
  }

  /** all_cloud_hours_LA after the first m files: their records concatenated, or the first fault. */
  function Concat(results: seq<Result<seq<Record>, Fault>>, m: nat): Result<seq<Record>, Fault>
    requires m <= |results|
  {
    if m == 0 then Ok([])
    else
      match Concat(results, m - 1)
      case Err(e) => Err(e)
      case Ok(rs) =>
        match results[m - 1]
        case Err(e) => Err(e)
        case Ok(more) => Ok(rs + more)
  }

  /** One more score: added to the running total, or its fault becomes the result. */
  lemma SumStep(scores: seq<Result<real, Fault>>, k: nat)
    requires k < |scores| && SumUpTo(scores, k).Ok?
    ensures SumUpTo(scores, k + 1) ==
      if scores[k].Ok? then Ok(SumUpTo(scores, k).value + scores[k].value) else Err(scores[k].error)
  {
  }

  /** A fault stops the walk: every longer walk ends with the same fault. */
  lemma {:induction false} SumFaultSticks(scores: seq<Result<real, Fault>>, m1: nat, m2: nat)
    requires m1 <= m2 <= |scores| && SumUpTo(scores, m1).Err?
    ensures SumUpTo(scores, m2) == SumUpTo(scores, m1)
    decreases m2
  {
    if m2 > m1 {
      SumFaultSticks(scores, m1, m2 - 1);
    }
  }

  /** The number of points the walk classifies: none for a limit of 0 or below, otherwise the
      first min(n, limit). */
  function Evaluations(n: nat, limit: int): (e: nat)
    ensures e <= n
    ensures limit <= 0 ==> e == 0
    ensures limit > 0 ==> e == Min(n, limit)
  {
    if limit <= 0 then 0 else Min(n, limit)
  }

  /** The running total after m points depends on the first m scores only. */
  lemma {:induction false} SumUpToPrefix(s1: seq<Result<real, Fault>>, s2: seq<Result<real, Fault>>, m: nat)
    requires m <= |s1| && m <= |s2| && s1[..m] == s2[..m]
    ensures SumUpTo(s1, m) == SumUpTo(s2, m)
  {
    if m > 0 {
      assert s1[..m - 1] == s1[..m][..m - 1];
      assert s2[..m - 1] == s2[..m][..m - 1];
      assert s1[m - 1] == s1[..m][m - 1];
      SumUpToPrefix(s1, s2, m - 1);
    }
  }

  /** Exactly the scores of the classified points decide the walk: scores past the limit, and every
      score when the limit is 0 or below, are never looked at. */
  lemma WalkUsesEvaluatedScores(dateUTC: string, s1: seq<Result<real, Fault>>, s2: seq<Result<real, Fault>>,
                                limit: int)
    requires |s1| == |s2| && s1[..Evaluations(|s1|, limit)] == s2[..Evaluations(|s2|, limit)]
    ensures WalkResult(dateUTC, s1, limit) == WalkResult(dateUTC, s2, limit)
  {
    if |s1| > 0 && limit > 0 {
      SumUpToPrefix(s1, s2, Min(|s1|, limit));
    }
  }

  /** A fault on one trajectory is the result for the whole file. */
  lemma {:induction false} CollectFaultSticks(outs: seq<Result<Option<Record>, Fault>>, m1: nat, m2: nat)
    requires m1 <= m2 <= |outs| && Collect(outs, m1).Err?
    ensures Collect(outs, m2) == Collect(outs, m1)
    decreases m2
  {
    if m2 > m1 {
      CollectFaultSticks(outs, m1, m2 - 1);
    }
  }

  /** A trajectory that fails makes the whole loop fail. */
  lemma CollectFailsAt(outs: seq<Result<Option<Record>, Fault>>, m: nat, i: nat)
    requires i < m <= |outs| && outs[i].Err?
    ensures Collect(outs, m).Err?
  {
    CollectFaultSticks(outs, i + 1, m);
  }

  /** A fault in one file is the result of the whole run. */
  lemma {:induction false} ConcatFaultSticks(results: seq<Result<seq<Record>, Fault>>, m1: nat, m2: nat)
    requires m1 <= m2 <= |results| && Concat(results, m1).Err?
    ensures Concat(results, m2) == Concat(results, m1)
    decreases m2
  {
    if m2 > m1 {
      ConcatFaultSticks(results, m1, m2 - 1);
    }
  }

  /** Extending adds exactly one record and keeps the ones before it. */
  lemma ExtendAppends(records: seq<Record>, out: Result<Option<Record>, Fault>)
    requires Extend(records, out).Ok?
    ensures var rs := Extend(records, out).value; |rs| == |records| + 1 && rs[..|records|] == records
  {
  }

  /** Exactly one record per trajectory, and the records of a prefix of the trajectories are the
      same prefix of the records. */
  lemma {:induction false} CollectPrefix(outs: seq<Result<Option<Record>, Fault>>, m: nat, j: nat)
    requires j <= m <= |outs| && Collect(outs, m).Ok?
    ensures |Collect(outs, m).value| == m
    ensures Collect(outs, j) == Ok(Collect(outs, m).value[..j])
    decreases m
  {
    if m > 0 {
      CollectPrefix(outs, m - 1, m - 1);
      var prev := Collect(outs, m - 1).value;
      var rs := Collect(outs, m).value;
      assert Collect(outs, m) == Extend(prev, outs[m - 1]);
      ExtendAppends(prev, outs[m - 1]);
      if j < m {
        CollectPrefix(outs, m - 1, j);
        assert prev[..j] == rs[..m - 1][..j] == rs[..j];
      } else {
        assert rs[..j] == rs;
      }
    }
  }
  /** Record i is the record of trajectory i when its walk assigned one, and repeats record i-1
      otherwise (which needs an i-1); trajectory i did not fail. */
  lemma CollectEntry(outs: seq<Result<Option<Record>, Fault>>, m: nat, i: nat)
    requires i < m <= |outs| && Collect(outs, m).Ok?
    ensures |Collect(outs, m).value| == m && outs[i].Ok?
    ensures outs[i].value.Some? ==> Collect(outs, m).value[i] == outs[i].value.value
    ensures outs[i].value.None? ==> 0 < i && Collect(outs, m).value[i] == Collect(outs, m).value[i - 1]
  {
    CollectPrefix(outs, m, i + 1);
    CollectPrefix(outs, m, i);
    var rs := Collect(outs, m).value;
    assert rs[..i + 1][i] == rs[i];
  }

  /** The records of trajectory i, spelled out: its transit limit was found; with at least one
      point and a limit of 0 it is (dateUTC, 0, 0); with a positive limit it is (dateUTC, sum of
      the scores of the first min(n, limit) points, limit); with no points or a negative limit it
      repeats the record before it. */
  lemma RecordOfTrajectory(dateText: string, trajs: seq<Trajectory>, table: seq<TransitRow>,
                           grids: map<string, Dataset>, i: nat)
    requires i < |trajs| && Collect(Outcomes(dateText, trajs, table, grids), |trajs|).Ok?
    ensures var rs := Collect(Outcomes(dateText, trajs, table, grids), |trajs|).value;
      var hour := ReleaseHour(trajs[i].time);
      var dateUTC := DateLabel(dateText, hour);
      var pts := trajs[i].points;
      var found := TransitLimit(table, MatchKey(dateText, hour));
      |rs| == |trajs| && found.Ok? &&
      (|pts| >= 1 && found.value == 0 ==> rs[i] == Record(dateUTC, 0.0, 0)) &&
      (|pts| >= 1 && found.value > 0 ==>
         SumUpTo(Scores(grids, dateUTC, pts), Min(|pts|, found.value)).Ok? &&
         rs[i] == Record(dateUTC, SumUpTo(Scores(grids, dateUTC, pts), Min(|pts|, found.value)).value, found.value)) &&
      (|pts| == 0 || found.value < 0 ==> 0 < i && rs[i] == rs[i - 1])
  {
    var outs := Outcomes(dateText, trajs, table, grids);
    CollectEntry(outs, |trajs|, i);
    assert outs[i] == TrajectoryOutcome(dateText, trajs[i], table, grids);
  }

  /** A release time missing from the transit table makes the whole file fail. */
  lemma MissingStartTimeFails(file: TrajectoryFile, table: seq<TransitRow>, grids: map<string, Dataset>, i: nat)
    requires i < |file.trajectories| && FileDate(file.path).Ok?
    requires var key := MatchKey(FormatIso(FileDate(file.path).value), ReleaseHour(file.trajectories[i].time));
      forall j :: 0 <= j < |table| ==> table[j].startTime != key
    ensures FileRecords(file, table, grids).Err?
  {
    var dateText := FormatIso(FileDate(file.path).value);
    var trajs := file.trajectories;
    var outs := Outcomes(dateText, trajs, table, grids);
    assert outs[i] == TrajectoryOutcome(dateText, trajs[i], table, grids);
    CollectFailsAt(outs, |trajs|, i);
  }

  /** Cloud bases at or above ground everywhere in the base-height variable. */
  predicate NonNegativeBase(ds: Dataset)
  {
    BaseHeightVar in ds.variables ==>
      var g: Grid4 := ds.variables[BaseHeightVar];
      forall t: int, i: int, j: int, l: int ::
        0 <= t < |g| && 0 <= i < |g[t]| && 0 <= j < |g[t][i]| && 0 <= l < |g[t][i][j]| && g[t][i][j][l].Some?
        ==> g[t][i][j][l].value >= 0.0
  }

  predicate NonNegativeBases(grids: map<string, Dataset>)
  {
    forall key :: key in grids ==> NonNegativeBase(grids[key])
  }

  /** Where every base is at or above ground, every point scores between 0 and 1. */
  lemma PointScoreBounds(grids: map<string, Dataset>, dateUTC: string, k: nat, p: Point)
    requires NonNegativeBases(grids) && PointScore(grids, dateUTC, k, p).Ok?
    ensures 0.0 <= PointScore(grids, dateUTC, k, p).value <= 1.0
  {
    var when := StepTime(dateUTC, k).value;
    var key := GridKey(when.date);
    var ds := grids[key];
    assert NonNegativeBase(ds);
    var base := Sample(ds, BaseHeightVar, when.hour, p.lat, p.lon).value;
    if base.Some? {
      var g := ds.variables[BaseHeightVar];
      var t := NearestIndex(ds.timeOffset, (when.hour * 3600) as real);
      assert base.value == ValueScale * Index4(g, t, LatRow(p.lat), LonCol(p.lon), LevelIndex).value;
    }
    ScoreBounds(p.alt, base, Sample(ds, TopHeightVar, when.hour, p.lat, p.lon).value,
                Sample(ds, CloudFractionVar, when.hour, p.lat, p.lon).value);
  }

  /** Scores that are all between 0 and 1 add up to a running total that never decreases and
      never exceeds the number of points added. */
  lemma {:induction false} SumBounded(scores: seq<Result<real, Fault>>, m1: nat, m2: nat)
    requires m1 <= m2 <= |scores| && SumUpTo(scores, m2).Ok?
    requires forall k :: 0 <= k < m2 && scores[k].Ok? ==> 0.0 <= scores[k].value <= 1.0
    ensures SumUpTo(scores, m1).Ok?
    ensures 0.0 <= SumUpTo(scores, m1).value <= SumUpTo(scores, m2).value <= m2 as real
    decreases m2
  {
    if m2 > 0 {
      if m1 < m2 {
        SumBounded(scores, m1, m2 - 1);
      } else {
        SumBounded(scores, m1 - 1, m2 - 1);
      }
    }
  }

  /** Where every base is at or above ground, hr_in_CBL never decreases along the walk and never
      exceeds the number of points scored. */
  lemma PartialSumMonotone(grids: map<string, Dataset>, dateUTC: string, pts: seq<Point>, m1: nat, m2: nat)
    requires m1 <= m2 <= |pts| && NonNegativeBases(grids) && SumUpTo(Scores(grids, dateUTC, pts), m2).Ok?
    ensures SumUpTo(Scores(grids, dateUTC, pts), m1).Ok?
    ensures 0.0 <= SumUpTo(Scores(grids, dateUTC, pts), m1).value <= SumUpTo(Scores(grids, dateUTC, pts), m2).value
    ensures SumUpTo(Scores(grids, dateUTC, pts), m2).value <= m2 as real
  {
    var scores := Scores(grids, dateUTC, pts);
    forall k | 0 <= k < m2 && scores[k].Ok?
      ensures 0.0 <= scores[k].value <= 1.0
    {
      PointScoreBounds(grids, dateUTC, k, pts[k]);
    }
    SumBounded(scores, m1, m2);
  }


  /** One step of the inner loop of count_hours_in_cloud: point k is queried k hours before the
      release label (strptime, then timedelta) and classified. */
  method ScorePoint(grids: map<string, Dataset>, dateUTC: string, pts: seq<Point>, k: nat,
                    ghost scores: seq<Result<real, Fault>>)
    returns (r: Result<real, Fault>)
    requires k < |pts| && ScoresMatch(grids, dateUTC, pts, scores)
    ensures r == scores[k]
  {
    var p := pts[k];
    var when := StepTime(dateUTC, k);
    if when.Err? {
      r := Err(when.error);
    } else {
      r := IsPointInMixing(grids, p.lat, p.lon, when.value, p.alt);
    }
    assert r == PointScore(grids, dateUTC, k, pts[k]);
  }

  /** The inner loop of count_hours_in_cloud over one trajectory's points: what it leaves in
      hours_CBL for this trajectory (None when it assigns nothing). */
  method WalkPoints(grids: map<string, Dataset>, dateUTC: string, pts: seq<Point>, transitTime: int,
                    ghost scores: seq<Result<real, Fault>>)
    returns (r: Result<Option<Record>, Fault>, ghost evaluated: nat)
    requires ScoresMatch(grids, dateUTC, pts, scores)
    ensures r == WalkResult(dateUTC, scores, transitTime)
    ensures r.Ok? ==> evaluated == Evaluations(|pts|, transitTime)
  {
    var hoursCBL: Option<Record> := None;
    var hrInCBL: real := 0.0;
    var iterationCount: nat := 0;
    evaluated := 0;
    while iterationCount < |pts|
      invariant iterationCount <= |pts| && evaluated == iterationCount
      invariant iterationCount > 0 ==> 0 < transitTime && iterationCount <= transitTime
      invariant SumUpTo(scores, iterationCount) == Ok(hrInCBL)
      invariant hoursCBL == if iterationCount == 0 then None else Some(Record(dateUTC, hrInCBL, transitTime))
    {
      if transitTime == 0 {
        hrInCBL := 0.0;
        hoursCBL := Some(Record(dateUTC, hrInCBL, transitTime));
      }
      if iterationCount >= transitTime {
        break;
      }
      var score := ScorePoint(grids, dateUTC, pts, iterationCount, scores);
      evaluated := evaluated + 1;
      SumStep(scores, iterationCount);
      if score.Err? {
        SumFaultSticks(scores, iterationCount + 1, Min(|pts|, transitTime));
        r := Err(score.error);
        return;
      }
      hrInCBL := hrInCBL + score.value;
      hoursCBL := Some(Record(dateUTC, hrInCBL, transitTime));
      iterationCount := iterationCount + 1;
    }
    r := Ok(hoursCBL);
  }

  /** One pass of the loop over the trajectories of a file dated dateText: the release label and
      key of trajectory i, its transit limit, and the walk over its points. */
  method WalkTrajectory(dateText: string, trajs: seq<Trajectory>, i: nat, table: seq<TransitRow>,
                        grids: map<string, Dataset>, ghost outs: seq<Result<Option<Record>, Fault>>)
    returns (r: Result<Option<Record>, Fault>)
    requires i < |trajs| && OutcomesMatch(dateText, trajs, table, grids, outs)
    ensures r == outs[i]
  {
    var traj := trajs[i];
    var hour := ReleaseHour(traj.time);
    var dateUTC := DateLabel(dateText, hour);
    var found := TransitLimit(table, MatchKey(dateText, hour));
    if found.Err? {
      r := Err(found.error);
    } else {
      ghost var scores := Scores(grids, dateUTC, traj.points);
      ScoresMatchExactly(grids, dateUTC, traj.points, scores);
      ghost var evaluated;
      r, evaluated := WalkPoints(grids, dateUTC, traj.points, found.value, scores);
    }
    assert r == TrajectoryOutcome(dateText, trajs[i], table, grids);
  }

  /** The loop over the trajectories of a file dated dateText: append each trajectory's record, or
      the previous one again when its walk assigned none. */
  method CollectTrajectories(dateText: string, trajs: seq<Trajectory>, table: seq<TransitRow>,
                             grids: map<string, Dataset>, ghost outs: seq<Result<Option<Record>, Fault>>)
    returns (r: Result<seq<Record>, Fault>)
    requires OutcomesMatch(dateText, trajs, table, grids, outs)
    ensures r == Collect(outs, |trajs|)
  {
    var total: seq<Record> := [];
    var hoursCBL: Option<Record> := None;
    for tIdx := 0 to |trajs|
      invariant Collect(outs, tIdx) == Ok(total)
      invariant hoursCBL == if |total| == 0 then None else Some(total[|total| - 1])
    {
      var walked := WalkTrajectory(dateText, trajs, tIdx, table, grids, outs);
      if walked.Err? {
        CollectFaultSticks(outs, tIdx + 1, |trajs|);
        return Err(walked.error);
      }
      if walked.value.Some? {
        hoursCBL := walked.value;
      }
      if hoursCBL.None? {
        CollectFaultSticks(outs, tIdx + 1, |trajs|);
        return Err(UnboundRecord);
      }
      total := total + [hoursCBL.value];
    }
    return Ok(total);
  }

  /** count_hours_in_cloud: the date of the file from its name, then the records of its
      trajectories, in trajectory order. */
  method CountHoursInCloud(file: TrajectoryFile, table: seq<TransitRow>, grids: map<string, Dataset>)
    returns (r: Result<seq<Record>, Fault>)
    ensures r == FileRecords(file, table, grids)
  {
    var date := FileDate(file.path);
    if date.Err? {
      return Err(date.error);
    }
    var dateText := FormatIso(date.value);
    var trajs := file.trajectories;
    ghost var outs := Outcomes(dateText, trajs, table, grids);
    OutcomesMatchExactly(dateText, trajs, table, grids, outs);
    r := CollectTrajectories(dateText, trajs, table, grids, outs);
  }

  /** One pass of the loop over the files: count_hours_in_cloud on file i. */
  method CountFile(files: seq<TrajectoryFile>, i: nat, table: seq<TransitRow>, grids: map<string, Dataset>,
                   ghost results: seq<Result<seq<Record>, Fault>>)
    returns (r: Result<seq<Record>, Fault>)
    requires i < |files| && ResultsMatch(files, table, grids, results)
    ensures r == results[i]
  {
    r := CountHoursInCloud(files[i], table, grids);
  }

  /** The loop over the files: extend the result with each file's records, in file order. */
  method ExtendFiles(files: seq<TrajectoryFile>, table: seq<TransitRow>, grids: map<string, Dataset>,
                     ghost results: seq<Result<seq<Record>, Fault>>)
    returns (r: Result<seq<Record>, Fault>)
    requires ResultsMatch(files, table, grids, results)
    ensures r == Concat(results, |files|)
  {
    var all: seq<Record> := [];
    for i := 0 to |files|
      invariant Concat(results, i) == Ok(all)
    {
      var records := CountFile(files, i, table, grids, results);
      if records.Err? {
        ConcatFaultSticks(results, i + 1, |files|);
        return Err(records.error);
      }
      all := all + records.value;
    }
    return Ok(all);
  }

  /** The top level over the (already listed and sorted) trajectory files: all_cloud_hours_LA. */
  method ProcessFiles(files: seq<TrajectoryFile>, table: seq<TransitRow>, grids: map<string, Dataset>)
    returns (r: Result<seq<Record>, Fault>)
    ensures r == Concat(FileResults(files, table, grids), |files|)
  {
    ghost var results := FileResults(files, table, grids);
    ResultsMatchExactly(files, table, grids, results);
    r := ExtendFiles(files, table, grids, results);
  }
}
