/** Sampling the per-day cloud grid (get_base_height, get_top_height, get_cloud_fraction):
    nearest time step, fixed 0.5-degree cell, level 1, value times 1000, NaN as None. */
module GridSampler {
  import opened Wrappers

  /** A raw grid value; None is NaN. */
  type Raw = Option<real>

  /** A variable of the grid, indexed [time, latitude row, longitude column, level]. */
  type Grid4 = seq<seq<seq<seq<Raw>>>>

  /** One day's cloud dataset: the `time_offset` coordinate (seconds since the day's start)
      and the variables by name. */
  datatype Dataset = Dataset(timeOffset: seq<real>, variables: map<string, Grid4>)

  const BaseHeightVar: string := "cloud_height_base_level"
  const TopHeightVar: string := "cloud_height_top_level"
  const CloudFractionVar: string := "cloud_percentage_level"

  /** The vertical level every sample is read from. */
  const LevelIndex: int := 1

  /** Every raw value is multiplied by this before it is returned. */
  const ValueScale: real := 1000.0

  function Abs(x: real): (r: real)
    ensures r >= 0.0 && (r == x || r == -x)
  {
    if x < 0.0 then -x else x
  }

  /** Python's built-in `round` with no digits: the nearest integer, ties to the even one. */
  function Round(x: real): (r: int)
    ensures Abs(x - r as real) <= 0.5
    ensures Abs(x - r as real) == 0.5 ==> r % 2 == 0
  {
    var f := x.Floor;
    var frac := x - f as real;
    if frac < 0.5 then f
    else if frac > 0.5 then f + 1
    else if f % 2 == 0 then f else f + 1
  }

  /** The two properties of Round determine it. */
  lemma RoundUnique(x: real, n: int)
    requires Abs(x - n as real) < 0.5 || (Abs(x - n as real) == 0.5 && n % 2 == 0)
    ensures Round(x) == n
  {
  }

  /** Row of the 0.5-degree grid for a latitude: row 29 at 28.5 N, rows counting northward down. */
  function LatRow(lat: real): int
  {
    29 - Round((lat - 28.5) / 0.5)
  }

  /** Column of the 0.5-degree grid for a longitude: column 0 at 130 W. */
  function LonCol(lon: real): int
  {
    Round((lon + 130.0) / 0.5)
  }

  /** A latitude on the grid, 28.5 + k/2, falls in row 29 - k. */
  lemma LatRowOnGrid(k: int)
    ensures LatRow(28.5 + 0.5 * k as real) == 29 - k
  {
    assert (28.5 + 0.5 * k as real - 28.5) / 0.5 == k as real;
    RoundUnique(k as real, k);
  }

  /** A longitude on the grid, -130 + k/2, falls in column k. */
  lemma LonColOnGrid(k: int)
    ensures LonCol(-130.0 + 0.5 * k as real) == k
  {
    assert (-130.0 + 0.5 * k as real + 130.0) / 0.5 == k as real;
    RoundUnique(k as real, k);
  }

  /** Adding one to a number that is not halfway between integers adds one to its rounding. */
  lemma RoundShift(x: real)
    requires Abs(x - Round(x) as real) != 0.5
    ensures Round(x + 1.0) == Round(x) + 1
  {
    RoundUnique(x + 1.0, Round(x) + 1);
  }

  /** Half a degree further north is one row lower, except on a cell boundary. */
  lemma LatRowStep(lat: real)
    requires Abs((lat - 28.5) / 0.5 - Round((lat - 28.5) / 0.5) as real) != 0.5
    ensures LatRow(lat + 0.5) == LatRow(lat) - 1
  {
    assert (lat + 0.5 - 28.5) / 0.5 == (lat - 28.5) / 0.5 + 1.0;
    RoundShift((lat - 28.5) / 0.5);
  }

  /** Half a degree further east is one column higher, except on a cell boundary. */
  lemma LonColStep(lon: real)
    requires Abs((lon + 130.0) / 0.5 - Round((lon + 130.0) / 0.5) as real) != 0.5
    ensures LonCol(lon + 0.5) == LonCol(lon) + 1
  {
    assert (lon + 0.5 + 130.0) / 0.5 == (lon + 130.0) / 0.5 + 1.0;
    RoundShift((lon + 130.0) / 0.5);
  }

  /** On a cell boundary half a degree further north moves the row by 0 or by 2, never by 1. */
  lemma LatRowTie(lat: real)
    requires Abs((lat - 28.5) / 0.5 - Round((lat - 28.5) / 0.5) as real) == 0.5
    ensures LatRow(lat + 0.5) == LatRow(lat) || LatRow(lat + 0.5) == LatRow(lat) - 2
  {
    var x := (lat - 28.5) / 0.5;
    assert (lat + 0.5 - 28.5) / 0.5 == x + 1.0;
    if x - Round(x) as real == 0.5 {
      RoundUnique(x + 1.0, Round(x) + 2);
    } else {
      RoundUnique(x + 1.0, Round(x));
    }
  }

  /** On a cell boundary half a degree further east moves the column by 0 or by 2, never by 1. */
  lemma LonColTie(lon: real)
    requires Abs((lon + 130.0) / 0.5 - Round((lon + 130.0) / 0.5) as real) == 0.5
    ensures LonCol(lon + 0.5) == LonCol(lon) || LonCol(lon + 0.5) == LonCol(lon) + 2
  {
    var x := (lon + 130.0) / 0.5;
    assert (lon + 0.5 + 130.0) / 0.5 == x + 1.0;
    if x - Round(x) as real == 0.5 {
      RoundUnique(x + 1.0, Round(x) + 2);
    } else {
      RoundUnique(x + 1.0, Round(x));
    }
  }

  /** On cell boundaries ties go to the even number, so half a degree can move two rows or none. */
  lemma LatRowBoundaries()
    ensures LatRow(28.75) == 29 && LatRow(29.25) == 27 && LatRow(29.75) == 27
  {
    RoundUnique(0.5, 0);
    RoundUnique(1.5, 2);
    RoundUnique(2.5, 2);
  }

  /** Latitudes 21.0 to 28.5 N map to rows 44 down to 29, longitudes 130 W to 115.5 W to
      columns 0 to 29. */
  lemma IndexRanges(lat: real, lon: real)
    requires 21.0 <= lat <= 28.5 && -130.0 <= lon <= -115.5
    ensures 29 <= LatRow(lat) <= 44 && 0 <= LonCol(lon) <= 29
  {
  }

  /** `np.argmin(np.abs(offsets - target))`: the first index of an offset nearest to target. */
  function NearestIndex(offsets: seq<real>, target: real): (k: nat)
    requires |offsets| > 0
    ensures k < |offsets|
    ensures forall j :: 0 <= j < |offsets| ==> Abs(offsets[k] - target) <= Abs(offsets[j] - target)
    ensures forall j :: 0 <= j < k ==> Abs(offsets[j] - target) > Abs(offsets[k] - target)
  {
    var n := |offsets|;
    if n == 1 then 0
    else
      var k := NearestIndex(offsets[..n - 1], target);
      assert forall j :: 0 <= j < n - 1 ==> offsets[..n - 1][j] == offsets[j];
      if Abs(offsets[n - 1] - target) < Abs(offsets[k] - target) then n - 1 else k
  }

  /** The index NearestIndex returns is the only one with both of its properties. */
  lemma NearestIndexUnique(offsets: seq<real>, target: real, k: nat)
    requires k < |offsets|
    requires forall j :: 0 <= j < |offsets| ==> Abs(offsets[k] - target) <= Abs(offsets[j] - target)
    requires forall j :: 0 <= j < k ==> Abs(offsets[j] - target) > Abs(offsets[k] - target)
    ensures NearestIndex(offsets, target) == k
  {
  }

  predicate InRange(i: int, n: nat) { -(n as int) <= i < n }

  /** Python's `s[i]`: negative indices count from the end, None where IndexError is raised. */
  function At<T>(s: seq<T>, i: int): (r: Option<T>)
    ensures r.Some? <==> InRange(i, |s|)
    ensures r.Some? ==> r.value == s[i % |s|]
  {
    if 0 <= i < |s| then Some(s[i])
    else if -|s| <= i < 0 then Some(s[i + |s|])
    else None
  }

  /** `g[t, i, j, l]` on a 4-D array: None for IndexError on any axis or for a NaN value. */
  function Index4(g: Grid4, t: int, i: int, j: int, l: int): (r: Raw)
    ensures r == (
      if !InRange(t, |g|) then None else
      var g1: seq<seq<seq<Raw>>> := g[t % |g|];
      if !InRange(i, |g1|) then None else
      var g2: seq<seq<Raw>> := g1[i % |g1|];
      if !InRange(j, |g2|) then None else
      var g3: seq<Raw> := g2[j % |g2|];
      if !InRange(l, |g3|) then None else g3[l % |g3|])
  {
    match At(g, t)
    case None => None
    case Some(g1) =>
      match At(g1, i)
      case None => None
      case Some(g2) =>
        match At(g2, j)
        case None => None
        case Some(g3) =>
          match At(g3, l)
          case None => None
          case Some(v) => v
  }

  /** A raw value times 1000; NaN stays NaN. */
  function Scale(v: Raw): (r: Raw)
    ensures r.Some? <==> v.Some?
    ensures r.Some? ==> r.value == ValueScale * v.value
  {
    match v
    case None => None
    case Some(x) => Some(ValueScale * x)
  }

  /** The value of `variable` nearest to `hour` at the grid cell of (lat, lon), level 1, times
      1000. None for a missing variable (KeyError), an index out of range (IndexError) or NaN.
      An empty time axis stops the program (np.argmin raises). */
  function Sample(ds: Dataset, variable: string, hour: int, lat: real, lon: real): (r: Result<Raw, Fault>)
    ensures r.Err? <==> |ds.timeOffset| == 0
    ensures r.Err? ==> r.error == EmptyTimeAxis
    ensures r.Ok? && variable !in ds.variables ==> r.value == None
    ensures r.Ok? && variable in ds.variables ==>
      var t := NearestIndex(ds.timeOffset, (hour * 3600) as real);
      var raw := Index4(ds.variables[variable], t, LatRow(lat), LonCol(lon), LevelIndex);
      (r.value.Some? <==> raw.Some?) && (r.value.Some? ==> r.value.value == ValueScale * raw.value)
  {
    if |ds.timeOffset| == 0 then Err(EmptyTimeAxis)
    else
      var t := NearestIndex(ds.timeOffset, (hour * 3600) as real);
      if variable !in ds.variables then Ok(None)
      else Ok(Scale(Index4(ds.variables[variable], t, LatRow(lat), LonCol(lon), LevelIndex)))
  }
}
