/** The station report `station_stats` (bikeshare.py:172-191): the most common
    start station, end station and start-end combination of the filtered
    table. A "most common" value is any value of maximal count; which one the
    library picks among equals is not modelled. */
module Stations {
  import opened Wrappers
  import opened Loader

  /** How many times `x` occurs in `s`. */
  function Count(s: seq<string>, x: string): nat {
    multiset(s)[x]
  }

  /** `m` is a most common value of `s`. */
  ghost predicate IsMode(s: seq<string>, m: string) {
    m in s && forall x :: Count(s, x) <= Count(s, m)
  }

  /** A candidate of maximal count in `s`, the first such one in `candidates`. */
  function MostCommonOf(s: seq<string>, candidates: seq<string>): (m: string)
    requires |candidates| > 0
    ensures m in candidates
    ensures forall k :: 0 <= k < |candidates| ==> Count(s, candidates[k]) <= Count(s, m)
  {
    if |candidates| == 1 then candidates[0]
    else
      var m := MostCommonOf(s, candidates[1..]);
      assert forall k :: 1 <= k < |candidates| ==> candidates[k] == candidates[1..][k - 1];
      if Count(s, candidates[0]) >= Count(s, m) then candidates[0] else m
  }

  /** `series.mode()[0]` of a non-empty column. */
  function Mode(s: seq<string>): (m: string)
    requires |s| > 0
    ensures IsMode(s, m)
  {
    var m := MostCommonOf(s, s);
    assert forall x :: Count(s, x) <= Count(s, m) by {
      forall x ensures Count(s, x) <= Count(s, m) {
        if x in s {
          var k :| 0 <= k < |s| && s[k] == x;
        }
      }
    }
    m
  }

  /** The key of a trip's combination: `start_station + ' - ' + end_station`. */
  function PairKey(start: string, end: string): (key: string)
    ensures |key| == |start| + 3 + |end|
    ensures key[..|start|] == start && key[|start| + 3..] == end
    ensures key[|start|..|start| + 3] == " - "
  {
    start + " - " + end
  }

  /** The key does not tell the stations apart when a name holds " - ". */
  lemma PairKeyAmbiguous()
    ensures PairKey("a - b", "c") == PairKey("a", "b - c")
  {
  }

  function StartStations(rows: seq<Trip>): seq<string> {
    seq(|rows|, k requires 0 <= k < |rows| => rows[k].startStation)
  }

  function EndStations(rows: seq<Trip>): seq<string> {
    seq(|rows|, k requires 0 <= k < |rows| => rows[k].endStation)
  }

  function PairKeys(rows: seq<Trip>): (keys: seq<string>)
    ensures |keys| == |rows|
  {
    seq(|rows|, k requires 0 <= k < |rows| => PairKey(rows[k].startStation, rows[k].endStation))
  }

  /** The three values the report prints. */
  datatype StationReport = StationReport(start: string, end: string, trip: string)

  /** `mode()[0]` of an empty column has no element 0. */
  datatype ReportError = EmptyTable

  /** The report as bikeshare.py:179-188 computes it: the end-station line takes
      the mode of the start stations. */
  function StationStatsAsWritten(rows: seq<Trip>): (r: Result<StationReport, ReportError>)
    ensures r.Ok? <==> rows != []
  {
    if rows == [] then Err(EmptyTable)
    else
      var start := Mode(StartStations(rows));
      Ok(StationReport(start, start, Mode(PairKeys(rows))))
  }

  /** The end station the source reports is always the start station. */
  lemma AsWrittenEndIsStart(rows: seq<Trip>)
    requires rows != []
    ensures StationStatsAsWritten(rows).value.end == StationStatsAsWritten(rows).value.start
    ensures IsMode(StartStations(rows), StationStatsAsWritten(rows).value.end)
  {
  }

  /** Two trips from "A" to "B": the reported end station "A" is not where any
      trip ended, and "B" ends more trips. */
  lemma AsWrittenEndNotMostCommon()
    ensures var rows := [Trip("t0", "t1", 60, "A", "B", "Subscriber", None, None, "January", "Monday", 8),
                         Trip("t2", "t3", 60, "A", "B", "Subscriber", None, None, "January", "Monday", 9)];
            var report := StationStatsAsWritten(rows);
            && report.Ok? && report.value.end == "A"
            && Count(EndStations(rows), "A") < Count(EndStations(rows), "B")
            && !IsMode(EndStations(rows), report.value.end)
  {
    var rows := [Trip("t0", "t1", 60, "A", "B", "Subscriber", None, None, "January", "Monday", 8),
                 Trip("t2", "t3", 60, "A", "B", "Subscriber", None, None, "January", "Monday", 9)];
    assert StartStations(rows) == ["A", "A"];
    assert EndStations(rows) == ["B", "B"];
    assert Count(StartStations(rows), "A") == 2;
    assert Count(EndStations(rows), "B") == 2;
    assert Count(EndStations(rows), "A") == 0;
  }

  /** The report with the end-station line taking the mode of the end stations. */
  function StationStats(rows: seq<Trip>): (r: Result<StationReport, ReportError>)
    ensures r.Ok? <==> rows != []
  {
    if rows == [] then Err(EmptyTable)
    else Ok(StationReport(Mode(StartStations(rows)), Mode(EndStations(rows)), Mode(PairKeys(rows))))
  }

  /** Each line of the corrected report is a most common value of its column,
      the combination is that of an actual trip, and the start and combination
      lines agree with the source's. */
  lemma StationStatsSound(rows: seq<Trip>)
    requires rows != []
    ensures var r := StationStats(rows).value;
            && IsMode(StartStations(rows), r.start)
            && IsMode(EndStations(rows), r.end)
            && IsMode(PairKeys(rows), r.trip)
            && (exists k :: 0 <= k < |rows| && r.trip == PairKey(rows[k].startStation, rows[k].endStation))
    ensures StationStats(rows).value.start == StationStatsAsWritten(rows).value.start
    ensures StationStats(rows).value.trip == StationStatsAsWritten(rows).value.trip
  {
    var r := StationStats(rows).value;
    var k :| 0 <= k < |rows| && PairKeys(rows)[k] == r.trip;
  }
}
