/** The mixing classifier (is_point_in_mixing): is a trajectory point inside the cloud layer,
    and by how much. */
module Mixing {
  import opened Wrappers
  import opened Calendar
  import opened GridSampler

  /** A (scaled) cloud fraction must exceed this. */
  const FractionThreshold: real := 20.0

  /** Python's `a > b` on floats where None is NaN: false when either side is NaN. */
  predicate Above(a: Raw, b: Raw) { a.Some? && b.Some? && a.value > b.value }

  /** `top_height > base_height and alt < top_height and cloud_fraction > 20`.
      Altitude is not compared with the base. */
  predicate InCloud(alt: real, base: Raw, top: Raw, fraction: Raw)
  {
    Above(top, base) && Above(top, Some(alt)) && Above(fraction, Some(FractionThreshold))
  }

  /** The score of one point: the depth ratio `1 - base/top` inside the cloud layer, 0 outside.
      A top of exactly 0.0 above a negative base divides by zero (ZeroDivisionError). */
  function Classify(alt: real, base: Raw, top: Raw, fraction: Raw): (r: Result<real, Fault>)
    ensures r.Err? <==> InCloud(alt, base, top, fraction) && top.value == 0.0
    ensures r.Err? ==> r.error == ZeroCloudTop
    ensures !InCloud(alt, base, top, fraction) ==> r == Ok(0.0)
    ensures InCloud(alt, base, top, fraction) && r.Ok? ==>
      r.value * top.value == top.value - base.value
  {
    if InCloud(alt, base, top, fraction) then
      if top.value == 0.0 then Err(ZeroCloudTop) else Ok(1.0 - base.value / top.value)
    else Ok(0.0)
  }

  /** A missing (NaN) base, top or fraction scores 0. */
  lemma MissingScoresZero(alt: real, base: Raw, top: Raw, fraction: Raw)
    requires base.None? || top.None? || fraction.None?
    ensures Classify(alt, base, top, fraction) == Ok(0.0)
  {
  }

  /** With a base at or above ground the score is 0 or lies in (0, 1]. */
  lemma ScoreBounds(alt: real, base: Raw, top: Raw, fraction: Raw)
    requires base.Some? ==> base.value >= 0.0
    ensures Classify(alt, base, top, fraction).Ok?
    ensures var s := Classify(alt, base, top, fraction).value;
      0.0 <= s <= 1.0 && (InCloud(alt, base, top, fraction) <==> s > 0.0)
  {
    if InCloud(alt, base, top, fraction) {
      var b, t := base.value, top.value;
      assert 0.0 <= b < t;
      assert b / t < 1.0;
    }
  }

  /** A point below the cloud base still scores (no `alt >= base` test); a thin fraction does not. */
  lemma ClassifierExamples()
    ensures Classify(500.0, Some(200.0), Some(800.0), Some(50.0)) == Ok(0.75)
    ensures Classify(100.0, Some(200.0), Some(800.0), Some(50.0)) == Ok(0.75)
    ensures Classify(500.0, Some(200.0), Some(800.0), Some(10.0)) == Ok(0.0)
    ensures Classify(900.0, Some(200.0), Some(800.0), Some(50.0)) == Ok(0.0)
  {
  }

  /** The name of the cloud grid file for a day, without directory: `YYYYMMDD.000000`. */
  function GridKey(d: Date): string
    requires ValidDate(d)
  {
    FormatCompact(d) + ".000000"
  }

  /** The grid file name is fifteen characters: the day as `%Y%m%d`, which reads back as that
      day, then `.000000`. */
  lemma GridKeyShape(d: Date)
    requires ValidDate(d)
    ensures var key := GridKey(d); |key| == 15 && ParseCompact(key[..8]) == Some(d) && key[8..] == ".000000"
  {
    FormatCompactShape(d);
    ParseFormatCompact(d);
    assert GridKey(d)[..8] == FormatCompact(d);
  }

  /** Different days read different grid files. */
  lemma GridKeyInjective(d1: Date, d2: Date)
    requires ValidDate(d1) && ValidDate(d2) && GridKey(d1) == GridKey(d2)
    ensures d1 == d2
  {
    GridKeyShape(d1);
    GridKeyShape(d2);
    assert GridKey(d1)[..8] == GridKey(d2)[..8];
  }

  /** is_point_in_mixing: sample the base, top and fraction of the day's grid at the hour and
      cell of the point, then classify. The grid files are the map `grids`, keyed by GridKey. */
  function IsPointInMixing(grids: map<string, Dataset>, lat: real, lon: real, when: DateHour, alt: real)
    : (r: Result<real, Fault>)
    requires ValidDateHour(when)
    ensures GridKey(when.date) !in grids ==> r == Err(MissingGridFile(GridKey(when.date)))
    ensures GridKey(when.date) in grids && |grids[GridKey(when.date)].timeOffset| == 0 ==> r == Err(EmptyTimeAxis)
  {
    var key := GridKey(when.date);
    if key !in grids then Err(MissingGridFile(key))
    else
      var ds := grids[key];
      match Sample(ds, BaseHeightVar, when.hour, lat, lon)
      case Err(e) => Err(e)
      case Ok(base) =>
        match Sample(ds, TopHeightVar, when.hour, lat, lon)
        case Err(e) => Err(e)
        case Ok(top) =>
          match Sample(ds, CloudFractionVar, when.hour, lat, lon)
          case Err(e) => Err(e)
          case Ok(fraction) => Classify(alt, base, top, fraction)
  }

  /** A grid file that lacks one of the three variables reads NaN for it, so the point scores 0. */
  lemma MissingVariableScoresZero(grids: map<string, Dataset>, lat: real, lon: real, when: DateHour, alt: real)
    requires ValidDateHour(when) && GridKey(when.date) in grids
    requires var ds := grids[GridKey(when.date)];
      |ds.timeOffset| > 0 &&
      (BaseHeightVar !in ds.variables || TopHeightVar !in ds.variables || CloudFractionVar !in ds.variables)
    ensures IsPointInMixing(grids, lat, lon, when, alt) == Ok(0.0)
  {
    var ds := grids[GridKey(when.date)];
    MissingScoresZero(alt, Sample(ds, BaseHeightVar, when.hour, lat, lon).value,
                      Sample(ds, TopHeightVar, when.hour, lat, lon).value,
                      Sample(ds, CloudFractionVar, when.hour, lat, lon).value);
  }
}
