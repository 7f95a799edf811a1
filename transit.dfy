/** The transit-time table: start times ("YYYY-MM-DD HH:MM:SS") with their 24-hour limits. */
module TransitLimits {
  import opened Wrappers

  datatype TransitRow = TransitRow(startTime: string, limit: int)

  /** `np.where(start_times == key)[0][0]`: the first row whose start time equals key. */
  function FirstMatch(table: seq<TransitRow>, key: string): (r: Option<nat>)
    ensures r.Some? ==> r.value < |table| && table[r.value].startTime == key
    ensures r.Some? ==> forall j :: 0 <= j < r.value ==> table[j].startTime != key
    ensures r.None? ==> forall j :: 0 <= j < |table| ==> table[j].startTime != key
  {
    if |table| == 0 then None
    else if table[0].startTime == key then Some(0)
    else
      match FirstMatch(table[1..], key)
      case None => None
      case Some(i) => Some(i + 1)
  }

  /** The transit limit of a release time, by exact string equality; no match stops the program
      (`index[0]` raises IndexError). */
  function TransitLimit(table: seq<TransitRow>, key: string): (r: Result<int, Fault>)
    ensures r.Err? <==> forall j :: 0 <= j < |table| ==> table[j].startTime != key
    ensures r.Err? ==> r.error == NoTransitMatch(key)
    ensures r.Ok? ==> exists i :: 0 <= i < |table| && table[i].startTime == key && r.value == table[i].limit
                                && forall j :: 0 <= j < i ==> table[j].startTime != key
  {
    match FirstMatch(table, key)
    case None => Err(NoTransitMatch(key))
    case Some(i) => Ok(table[i].limit)
  }

  /** Rows after the first match do not change the limit. */
  lemma LaterRowsIgnored(table: seq<TransitRow>, key: string, extra: seq<TransitRow>)
    requires TransitLimit(table, key).Ok?
    ensures TransitLimit(table + extra, key) == TransitLimit(table, key)
  {
    var i := FirstMatch(table, key).value;
    var both := table + extra;
    assert both[i] == table[i];
    assert forall j :: 0 <= j < i ==> both[j] == table[j];
  }
}
