/** A ride: one scheduled trip of a bus position, with the window in which a
    bus at that position is considered to be serving it. */
module Rides {
  import opened Wrappers
  import opened Formats
  import opened Terminals
  import opened Directions
  import opened Schedules

  datatype Ride = Ride(
    name: string,        // the position running the trip, e.g. "Bus6"
    start: Terminal,
    stop: Terminal,
    loading: Time,       // boarding opens: the start of the ride's window
    departure: Time,
    arrival: Time)       // the end of the window, exclusive

  /** `From<Schedule>`: the window opens when the timetable's colour changes,
      not at departure. */
  function FromSchedule(s: Schedule): (r: Ride)
    ensures r.name == s.position
    ensures r.start == s.start && r.stop == s.destination
    ensures r.loading == s.colorChanged
    ensures r.departure == s.departure && r.arrival == s.arrival
  {
    Ride(s.position, s.start, s.destination, s.colorChanged, s.departure, s.arrival)
  }

  /** The ride's direction of travel, from its two terminals. */
  function Direction(ride: Ride): (r: RouteDirection)
    requires Routable(ride.start, ride.stop)
    ensures r == FromPair(ride.start, ride.stop)
    ensures r == South <==> ride.start == Airport || ride.stop == Rawai
  {
    FromPair(ride.start, ride.stop)
  }

  // ---------------------------------------------------------------------------
  // Ordering

  /** Lexicographic order of strings by character (UTF-8 byte order agrees
      with code-point order, so this is `String::cmp`). */
  function CompareStrings(a: string, b: string): (r: Ordering)
    ensures r == Equal <==> a == b
  {
    if |a| == 0 && |b| == 0 then Equal
    else if |a| == 0 then Less
    else if |b| == 0 then Greater
    else if a[0] < b[0] then Less
    else if a[0] > b[0] then Greater
    else
      var r := CompareStrings(a[1..], b[1..]);
      assert r == Equal ==> a == [a[0]] + a[1..] == [b[0]] + b[1..] == b;
      assert a == b ==> a[1..] == b[1..];
      r
  }

  function CompareTimes(a: Time, b: Time): (r: Ordering)
    ensures r == Less <==> a < b
    ensures r == Equal <==> a == b
  {
    if a < b then Less else if a == b then Equal else Greater
  }

  /** `Ord for Ride`: by name, then by departure; nothing else takes part. */
  function Compare(x: Ride, y: Ride): (r: Ordering)
    ensures r == Equal <==> x.name == y.name && x.departure == y.departure
    ensures x.name == y.name ==> r == CompareTimes(x.departure, y.departure)
    ensures x.name != y.name ==> r == CompareStrings(x.name, y.name)
  {
    var byName := CompareStrings(x.name, y.name);
    if byName == Equal then CompareTimes(x.departure, y.departure) else byName
  }

  /** `PartialOrd for Ride`: the total order, always defined. */
  function PartialCompare(x: Ride, y: Ride): (r: Option<Ordering>)
    ensures r.Some? && r.value == Compare(x, y)
  {
    Some(Compare(x, y))
  }

  lemma {:induction false} CompareStringsReverse(a: string, b: string)
    ensures CompareStrings(b, a) == CompareStrings(a, b).Reverse()
    decreases |a|
  {
    if |a| > 0 && |b| > 0 && a[0] == b[0] {
      CompareStringsReverse(a[1..], b[1..]);
    }
  }

  lemma {:induction false} CompareStringsTransitive(a: string, b: string, c: string)
    requires CompareStrings(a, b) == Less && CompareStrings(b, c) == Less
    ensures CompareStrings(a, c) == Less
    decreases |a|
  {
    if |a| > 0 && |b| > 0 && |c| > 0 && a[0] == b[0] == c[0] {
      CompareStringsTransitive(a[1..], b[1..], c[1..]);
    }
  }

  /** Every ride compares equal to itself. */
  lemma CompareReflexive(x: Ride)
    ensures Compare(x, x) == Equal
  {
  }

  /** Swapping the arguments reverses the answer. */
  lemma CompareAntisymmetric(x: Ride, y: Ride)
    ensures Compare(y, x) == Compare(x, y).Reverse()
  {
    CompareStringsReverse(x.name, y.name);
  }

  /** `Less` chains, and `Equal` is an equivalence that `Less` respects. */
  lemma CompareTransitive(x: Ride, y: Ride, z: Ride)
    ensures Compare(x, y) == Less && Compare(y, z) == Less ==> Compare(x, z) == Less
    ensures Compare(x, y) == Equal && Compare(y, z) == Equal ==> Compare(x, z) == Equal
    ensures Compare(x, y) == Equal ==> Compare(x, z) == Compare(y, z)
  {
    if Compare(x, y) == Less && Compare(y, z) == Less {
      if x.name != y.name && y.name != z.name {
        CompareStringsTransitive(x.name, y.name, z.name);
      }
    }
  }

  /** Start, stop, loading and arrival never influence the order. */
  lemma CompareIgnoresOtherFields(x: Ride, y: Ride, x': Ride, y': Ride)
    requires x.name == x'.name && x.departure == x'.departure
    requires y.name == y'.name && y.departure == y'.departure
    ensures Compare(x, y) == Compare(x', y')
  {
  }

  /** So two different rides can compare `Equal`. */
  lemma EqualWithoutIdentity()
    ensures var x := Ride("Bus6", Rawai, Airport, 100, 200, 300);
            var y := Ride("Bus6", Airport, Rawai, 150, 200, 400);
            x != y && Compare(x, y) == Equal
  {
  }
}
