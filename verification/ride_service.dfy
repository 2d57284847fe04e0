/** Which ride a bus position is serving at a given time.

    The timetable is grouped by position; each group is sorted by departure
    and its rides are inserted, in that order, into an interval map keyed by
    the half-open window [loading, arrival). A later insert overwrites the
    part of any earlier window it overlaps, so a point query answers with the
    last inserted ride whose window holds the time. */
module RideService {
  import opened Wrappers
  import opened Formats
  import opened Terminals
  import opened Schedules
  import opened Rides
  import opened Sorting

  predicate Covers(ride: Ride, t: Time) {
    ride.loading <= t < ride.arrival
  }

  /** The position of the last window holding `t`, or -1 when none does. */
  function LastCovering(windows: seq<Ride>, t: Time): (r: int)
    ensures -1 <= r < |windows|
    ensures r >= 0 ==> Covers(windows[r], t)
    ensures forall j :: r < j < |windows| ==> !Covers(windows[j], t)
    decreases |windows|
  {
    if |windows| == 0 then -1
    else if Covers(windows[|windows| - 1], t) then |windows| - 1
    else LastCovering(windows[..|windows| - 1], t)
  }

  /** `RangeMap::get` over the windows in insertion order: a later insert
      overwrites what it overlaps, so the last window holding `t` answers. */
  function PointQuery(windows: seq<Ride>, t: Time): (r: Option<Ride>)
    ensures r.None? <==> forall i :: 0 <= i < |windows| ==> !Covers(windows[i], t)
    ensures r.Some? ==> r == Some(windows[LastCovering(windows, t)])
  {
    var i := LastCovering(windows, t);
    if i < 0 then None else Some(windows[i])
  }

  /** The key the timetable is sorted by. */
  function Departure(s: Schedule): int {
    s.departure
  }

  /** The timetable rows of one position, in input order (`into_group_map_by`). */
  function ForPosition(schedules: seq<Schedule>, pos: string): (r: seq<Schedule>)
    ensures forall i :: 0 <= i < |r| ==> r[i].position == pos && r[i] in schedules
    ensures forall s :: s in schedules && s.position == pos ==> s in r
  {
    if |schedules| == 0 then []
    else
      var rest := ForPosition(schedules[1..], pos);
      if schedules[0].position == pos then [schedules[0]] + rest else rest
  }

  /** One window per timetable row, in the rows' order. */
  function ToRides(rows: seq<Schedule>): (r: seq<Ride>)
    ensures |r| == |rows|
    ensures forall i :: 0 <= i < |rows| ==> r[i] == FromSchedule(rows[i])
  {
    seq(|rows|, i requires 0 <= i < |rows| => FromSchedule(rows[i]))
  }

  /** The windows of one position in insertion order: its rows sorted by departure. */
  function Windows(schedules: seq<Schedule>, pos: string): seq<Ride> {
    ToRides(SortBy(ForPosition(schedules, pos), Departure))
  }

  /** rangemap refuses an empty window: every row must close its window after opening it. */
  predicate WindowsNonEmpty(schedules: seq<Schedule>) {
    forall i :: 0 <= i < |schedules| ==> schedules[i].colorChanged < schedules[i].arrival
  }

  function Positions(schedules: seq<Schedule>): set<string> {
    set s | s in schedules :: s.position
  }

  datatype Index = Index(rides: map<string, seq<Ride>>)

  /** `RideService::new` (and the older `Rides::new`): one interval map per position. */
  function Build(schedules: seq<Schedule>): (r: Index)
    requires WindowsNonEmpty(schedules)
    ensures r.rides.Keys == Positions(schedules)
    ensures forall pos :: pos in r.rides ==> r.rides[pos] == Windows(schedules, pos)
  {
    Index(map pos | pos in Positions(schedules) :: Windows(schedules, pos))
  }

  /** `RideService::get`: the ride a position is serving at time `t`, if any. */
  function Get(index: Index, pos: string, t: Time): (r: Option<Ride>)
    ensures pos !in index.rides ==> r.None?
    ensures pos in index.rides ==> r == PointQuery(index.rides[pos], t)
  {
    if pos in index.rides then PointQuery(index.rides[pos], t) else None
  }

  // ---------------------------------------------------------------------------
  // Properties of the built index

  /** A position with no timetable row has no ride. */
  lemma UnknownPosition(schedules: seq<Schedule>, pos: string, t: Time)
    requires WindowsNonEmpty(schedules)
    requires forall i :: 0 <= i < |schedules| ==> schedules[i].position != pos
    ensures Get(Build(schedules), pos, t).None?
  {
  }

  /** A ride found for `pos` at `t` belongs to `pos`, comes from a timetable row
      and its window [loading, arrival) holds `t`. */
  lemma GetSound(schedules: seq<Schedule>, pos: string, t: Time)
    requires WindowsNonEmpty(schedules)
    ensures var r := Get(Build(schedules), pos, t);
            r.Some? ==> && r.value.name == pos
                        && r.value.loading <= t < r.value.arrival
                        && exists s :: s in schedules && FromSchedule(s) == r.value
  {
    var r := Get(Build(schedules), pos, t);
    if r.Some? {
      var rows := ForPosition(schedules, pos);
      var sorted := SortBy(rows, Departure);
      SortByCorrect(rows, Departure);
      var i := LastCovering(Windows(schedules, pos), t);
      assert sorted[i] in multiset(rows);
      assert sorted[i] in rows;
    }
  }

  /** Whenever some row of `pos` has a window holding `t`, a ride is found. */
  lemma GetComplete(schedules: seq<Schedule>, pos: string, t: Time, s: Schedule)
    requires WindowsNonEmpty(schedules)
    requires s in schedules && s.position == pos
    requires s.colorChanged <= t < s.arrival
    ensures Get(Build(schedules), pos, t).Some?
  {
    var rows := ForPosition(schedules, pos);
    var sorted := SortBy(rows, Departure);
    SortByCorrect(rows, Departure);
    assert s in multiset(rows);
    assert s in multiset(sorted);
    var i :| 0 <= i < |sorted| && sorted[i] == s;
    assert Covers(Windows(schedules, pos)[i], t);
  }

  /** Of the rides whose window holds `t`, the one found departs last; among
      equal departures it is the one latest in the timetable, since the sort
      keeps input order. */
  lemma GetLatestDeparture(schedules: seq<Schedule>, pos: string, t: Time, s: Schedule)
    requires WindowsNonEmpty(schedules)
    requires s in schedules && s.position == pos
    requires s.colorChanged <= t < s.arrival
    ensures Get(Build(schedules), pos, t).Some?
    ensures Get(Build(schedules), pos, t).value.departure >= s.departure
  {
    var rows := ForPosition(schedules, pos);
    var sorted := SortBy(rows, Departure);
    SortByCorrect(rows, Departure);
    assert s in multiset(sorted) by {
      assert s in rows;
    }
    var k :| 0 <= k < |sorted| && sorted[k] == s;
    var idx :| 0 <= idx < |schedules| && schedules[idx] == s;
    GetBuilt(schedules, pos, t, idx);
    LatestWindow(sorted, k, t);
  }

  /** In windows made from rows sorted by departure, the window found departs
      no earlier than any other window holding `t`. */
  lemma LatestWindow(sorted: seq<Schedule>, k: nat, t: Time)
    requires SortedBy(sorted, Departure)
    requires k < |sorted| && Covers(FromSchedule(sorted[k]), t)
    ensures PointQuery(ToRides(sorted), t).Some?
    ensures PointQuery(ToRides(sorted), t).value.departure >= sorted[k].departure
  {
    var w := ToRides(sorted);
    assert Covers(w[k], t);
    var i := LastCovering(w, t);
    assert k <= i;
    assert Departure(sorted[k]) <= Departure(sorted[i]);
  }

  /** The order of insertion: departures never decrease, and rows that depart
      together keep their timetable order. */
  lemma InsertionOrder(schedules: seq<Schedule>, pos: string, k: int)
    ensures SortedBy(SortBy(ForPosition(schedules, pos), Departure), Departure)
    ensures WithKey(SortBy(ForPosition(schedules, pos), Departure), Departure, k)
            == WithKey(ForPosition(schedules, pos), Departure, k)
  {
    SortByCorrect(ForPosition(schedules, pos), Departure);
    SortByStable(ForPosition(schedules, pos), Departure, k);
  }

  /** When every row belongs to `pos`, the group is the whole timetable. */
  lemma {:induction false} ForPositionAll(schedules: seq<Schedule>, pos: string)
    requires forall i :: 0 <= i < |schedules| ==> schedules[i].position == pos
    ensures ForPosition(schedules, pos) == schedules
    decreases |schedules|
  {
    if |schedules| > 0 {
      ForPositionAll(schedules[1..], pos);
      assert schedules == [schedules[0]] + schedules[1..];
    }
  }

  /** A two-window map answers with the second window first. */
  lemma PointQueryPair(a: Ride, b: Ride, t: Time)
    ensures PointQuery([a, b], t)
            == if Covers(b, t) then Some(b) else if Covers(a, t) then Some(a) else None
  {
    assert [a, b][..1] == [a];
    assert [a][..0] == [];
    assert LastCovering([a], t) == if Covers(a, t) then 0 else -1;
  }

  /** A position with rows is answered from its own windows. */
  lemma GetBuilt(schedules: seq<Schedule>, pos: string, t: Time, i: nat)
    requires WindowsNonEmpty(schedules)
    requires i < |schedules| && schedules[i].position == pos
    ensures Get(Build(schedules), pos, t) == PointQuery(Windows(schedules, pos), t)
  {
    assert schedules[i] in schedules;
  }

  // ---------------------------------------------------------------------------
  // Examples

  function Trip(pos: string, loading: Time, departure: Time, arrival: Time): Schedule {
    Schedule(pos, Rawai, departure, loading, arrival, Airport, Airport, "")
  }

  /** 08:00-08:30 then 08:30-09:00, both run by Bus1. */
  function Morning(): seq<Schedule> {
    [Trip("Bus1", 28800, 28800, 30600), Trip("Bus1", 30600, 30600, 32400)]
  }

  /** Both morning trips are Bus1's, already in departure order. */
  lemma MorningWindows()
    ensures Windows(Morning(), "Bus1") == [FromSchedule(Morning()[0]), FromSchedule(Morning()[1])]
  {
    ForPositionAll(Morning(), "Bus1");
    SortBySorted(Morning(), Departure);
  }

  /** Back-to-back trips: at the moment one window closes the next one's has
      opened, and the later trip is found; at the last window's end nothing is. */
  lemma BackToBack()
    ensures WindowsNonEmpty(Morning())
    ensures Get(Build(Morning()), "Bus1", 30599) == Some(FromSchedule(Morning()[0]))
    ensures Get(Build(Morning()), "Bus1", 30600) == Some(FromSchedule(Morning()[1]))
    ensures Get(Build(Morning()), "Bus1", 32400).None?
  {
    var rows := Morning();
    var a := FromSchedule(rows[0]);
    var b := FromSchedule(rows[1]);
    MorningWindows();
    GetBuilt(rows, "Bus1", 30599, 0);
    GetBuilt(rows, "Bus1", 30600, 0);
    GetBuilt(rows, "Bus1", 32400, 0);
    PointQueryPair(a, b, 30599);
    PointQueryPair(a, b, 30600);
    PointQueryPair(a, b, 32400);
  }

  /** Bus6 boards at 13:50 for 14:00-15:00; Bus3's only trip ended at 11:10. */
  function Afternoon(): seq<Schedule> {
    [Trip("Bus6", 49800, 50400, 54000), Trip("Bus3", 36000, 36600, 40200)]
  }

  lemma ForPositionPair(x: Schedule, y: Schedule, pos: string)
    ensures ForPosition([x, y], pos)
            == (if x.position == pos then [x] else []) + (if y.position == pos then [y] else [])
  {
    assert [x, y][1..] == [y];
    assert [y][1..] == [];
    assert ForPosition([y], pos) == (if y.position == pos then [y] else []);
  }

  /** Each position of the afternoon timetable has its one trip as its only window. */
  lemma AfternoonWindows()
    ensures Windows(Afternoon(), "Bus6") == [FromSchedule(Afternoon()[0])]
    ensures Windows(Afternoon(), "Bus3") == [FromSchedule(Afternoon()[1])]
  {
    var bus6 := Afternoon()[0];
    var bus3 := Afternoon()[1];
    ForPositionPair(bus6, bus3, "Bus6");
    ForPositionPair(bus6, bus3, "Bus3");
    SortBySorted([bus6], Departure);
    SortBySorted([bus3], Departure);
  }

  /** At 14:00 Bus6 is on a trip and Bus3 is on none. */
  lemma AfternoonLookup()
    ensures WindowsNonEmpty(Afternoon())
    ensures Get(Build(Afternoon()), "Bus6", 50400).Some?
    ensures Get(Build(Afternoon()), "Bus6", 50400).value.name == "Bus6"
    ensures Get(Build(Afternoon()), "Bus3", 50400).None?
  {
    var rows := Afternoon();
    AfternoonWindows();
    GetBuilt(rows, "Bus6", 50400, 0);
    GetBuilt(rows, "Bus3", 50400, 1);
  }
}
