/** Which two stops of a route a bus is between.

    Each direction keeps its stops in an ordered map keyed by latitude. The
    north map holds the stops heading for the airport, sorted by their order
    on the route and followed by the airport's own stop; the south map does the
    same for Rawai. A map is modelled as its entries in ascending key order,
    one entry per key. */
module RouteService {
  import opened Wrappers
  import opened Terminals
  import opened Directions
  import opened Stops
  import opened Sorting
  import opened TerminalStops

  /** The key a stop is filed under. */
  function Lat(s: Stop): int {
    s.coordinates.latitude
  }

  /** The key a route is sorted by. */
  function Order(s: Stop): int {
    s.order
  }

  /** Entries in strictly ascending key order: the shape of a `BTreeMap`. */
  predicate Ascending(m: seq<Stop>) {
    forall i, j :: 0 <= i < j < |m| ==> Lat(m[i]) < Lat(m[j])
  }

  /** `BTreeMap::get`: the entry filed under `k`. */
  function Lookup(m: seq<Stop>, k: int): (r: Option<Stop>)
    ensures r.Some? ==> r.value in m && Lat(r.value) == k
    ensures r.None? <==> forall i :: 0 <= i < |m| ==> Lat(m[i]) != k
  {
    if |m| == 0 then None
    else if Lat(m[0]) == k then Some(m[0])
    else
      var r := Lookup(m[1..], k);
      assert forall i :: 1 <= i < |m| ==> m[1..][i - 1] == m[i];
      r
  }

  /** `BTreeMap::insert`: files `s` under its latitude, replacing whatever was
      filed there. */
  function Put(m: seq<Stop>, s: Stop): seq<Stop>
    decreases |m|
  {
    if |m| == 0 then [s]
    else if Lat(s) < Lat(m[0]) then [s] + m
    else if Lat(s) == Lat(m[0]) then [s] + m[1..]
    else [m[0]] + Put(m[1..], s)
  }

  /** `collect` into a map: the entries inserted in order. */
  function FromList(entries: seq<Stop>): seq<Stop>
    decreases |entries|
  {
    if |entries| == 0 then []
    else Put(FromList(entries[..|entries| - 1]), entries[|entries| - 1])
  }

  /** The reference answer for a collected map: the last entry with key `k`. */
  function LastWithKey(entries: seq<Stop>, k: int): (r: Option<Stop>)
    ensures r.Some? ==> r.value in entries && Lat(r.value) == k
    ensures r.None? <==> forall i :: 0 <= i < |entries| ==> Lat(entries[i]) != k
    ensures r.Some? ==> exists i :: 0 <= i < |entries| && entries[i] == r.value
                          && forall j :: i < j < |entries| ==> Lat(entries[j]) != k
    decreases |entries|
  {
    if |entries| == 0 then None
    else if Lat(entries[|entries| - 1]) == k then Some(entries[|entries| - 1])
    else
      var r := LastWithKey(entries[..|entries| - 1], k);
      assert forall i :: 0 <= i < |entries| - 1 ==> entries[..|entries| - 1][i] == entries[i];
      r
  }

  // ---------------------------------------------------------------------------
  // Map insertion

  /** After an insert the new entry answers for its key and every other key
      answers as before. */
  lemma {:induction false} PutLookup(m: seq<Stop>, s: Stop, k: int)
    ensures Lookup(Put(m, s), k) == if k == Lat(s) then Some(s) else Lookup(m, k)
    decreases |m|
  {
    if |m| > 0 && Lat(s) > Lat(m[0]) {
      PutLookup(m[1..], s, k);
      assert ([m[0]] + Put(m[1..], s))[1..] == Put(m[1..], s);
    } else if |m| > 0 && Lat(s) == Lat(m[0]) {
      assert ([s] + m[1..])[1..] == m[1..];
    } else if |m| > 0 {
      assert ([s] + m)[1..] == m;
    }
  }

  /** Every entry after an insert is the new one or was there before. */
  lemma {:induction false} PutEntries(m: seq<Stop>, s: Stop)
    ensures forall x :: x in Put(m, s) ==> x == s || x in m
    decreases |m|
  {
    if |m| > 0 && Lat(s) > Lat(m[0]) {
      PutEntries(m[1..], s);
    }
  }

  /** An insert keeps the keys ascending. */
  lemma {:induction false} PutAscending(m: seq<Stop>, s: Stop)
    requires Ascending(m)
    ensures Ascending(Put(m, s))
    decreases |m|
  {
    if |m| > 0 && Lat(s) > Lat(m[0]) {
      var tail := m[1..];
      assert Ascending(tail);
      PutAscending(tail, s);
      PutEntries(tail, s);
      var r := Put(tail, s);
      forall x | x in r ensures Lat(m[0]) < Lat(x) {
        if x != s {
          var i :| 0 <= i < |tail| && tail[i] == x;
          assert tail[i] == m[i + 1];
        }
      }
      AscendingCons(m[0], r);
    } else if |m| > 0 && Lat(s) == Lat(m[0]) {
      assert forall i :: 0 <= i < |m| - 1 ==> m[1..][i] == m[i + 1];
      AscendingCons(s, m[1..]);
    } else if |m| > 0 {
      AscendingCons(s, m);
    }
  }

  lemma AscendingCons(x: Stop, m: seq<Stop>)
    requires Ascending(m)
    requires forall y :: y in m ==> Lat(x) < Lat(y)
    ensures Ascending([x] + m)
  {
    var r := [x] + m;
    forall i, j | 0 <= i < j < |r| ensures Lat(r[i]) < Lat(r[j]) {
      assert r[j] == m[j - 1];
      if i > 0 {
        assert r[i] == m[i - 1];
      }
    }
  }

  /** A collected map is ascending. */
  lemma {:induction false} FromListAscending(entries: seq<Stop>)
    ensures Ascending(FromList(entries))
    decreases |entries|
  {
    if |entries| > 0 {
      var init := entries[..|entries| - 1];
      FromListAscending(init);
      PutAscending(FromList(init), entries[|entries| - 1]);
    }
  }

  /** Of the entries filed under the same key, the later one is kept. */
  lemma {:induction false} FromListLookup(entries: seq<Stop>, k: int)
    ensures Lookup(FromList(entries), k) == LastWithKey(entries, k)
    decreases |entries|
  {
    if |entries| > 0 {
      var init := entries[..|entries| - 1];
      FromListLookup(init, k);
      PutLookup(FromList(init), entries[|entries| - 1], k);
    }
  }

  /** A collected map holds nothing but its entries. */
  lemma {:induction false} FromListEntries(entries: seq<Stop>)
    ensures forall x :: x in FromList(entries) ==> x in entries
    decreases |entries|
  {
    if |entries| > 0 {
      var init := entries[..|entries| - 1];
      FromListEntries(init);
      PutEntries(FromList(init), entries[|entries| - 1]);
    }
  }

  // ---------------------------------------------------------------------------
  // Building the two maps

  /** The stops tagged for terminal `t`, in list order. */
  function Tagged(stops: seq<Stop>, t: Terminal): seq<Stop>
    decreases |stops|
  {
    if |stops| == 0 then []
    else (if stops[0].routeDirection == t then [stops[0]] else []) + Tagged(stops[1..], t)
  }

  /** Exactly the stops tagged `t` are kept. */
  lemma {:induction false} TaggedMembers(stops: seq<Stop>, t: Terminal)
    ensures forall x :: x in Tagged(stops, t) <==> x in stops && x.routeDirection == t
    decreases |stops|
  {
    if |stops| > 0 {
      TaggedMembers(stops[1..], t);
      assert stops == [stops[0]] + stops[1..];
    }
  }

  /** The entries in the order they are inserted: the tagged stops by route
      order, then the terminal's own stop. */
  function Route(stops: seq<Stop>, t: Terminal): seq<Stop>
    requires HasStop(t, stops)
  {
    SortBy(Tagged(stops, t), Order) + [FindStop(t, stops)]
  }

  /** The `build` closure of `RouteService::new`. */
  function Build(stops: seq<Stop>, t: Terminal): seq<Stop>
    requires HasStop(t, stops)
  {
    FromList(Route(stops, t))
  }

  datatype Service = Service(north: seq<Stop>, south: seq<Stop>)

  /** `RouteService::new`: the north map is built for the airport and the south
      map for Rawai; each needs its terminal's stop in the list. */
  function New(stops: seq<Stop>): (r: Service)
    requires HasStop(Airport, stops) && HasStop(Rawai, stops)
    ensures Ascending(r.north) && Ascending(r.south)
  {
    FromListAscending(Route(stops, Airport));
    FromListAscending(Route(stops, Rawai));
    Service(Build(stops, Airport), Build(stops, Rawai))
  }

  /** Each map answers a latitude with the last stop inserted under it. */
  lemma NewLookup(stops: seq<Stop>, k: int)
    requires HasStop(Airport, stops) && HasStop(Rawai, stops)
    ensures Lookup(New(stops).north, k) == LastWithKey(Route(stops, Airport), k)
    ensures Lookup(New(stops).south, k) == LastWithKey(Route(stops, Rawai), k)
  {
    FromListLookup(Route(stops, Airport), k);
    FromListLookup(Route(stops, Rawai), k);
  }

  /** The terminal's stop is inserted last, so it is always found at its own
      latitude. */
  lemma TerminalStopPresent(stops: seq<Stop>, t: Terminal)
    requires HasStop(t, stops)
    ensures Lookup(Build(stops, t), Lat(FindStop(t, stops))) == Some(FindStop(t, stops))
  {
    FromListLookup(Route(stops, t), Lat(FindStop(t, stops)));
  }

  /** Every stop in the map for `t` is tagged `t` or is the terminal's stop;
      a stop tagged for another terminal gets in only as that stop. */
  lemma BuildEntries(stops: seq<Stop>, t: Terminal)
    requires HasStop(t, stops)
    ensures forall x :: x in Build(stops, t) ==> x in stops
    ensures forall x :: x in Build(stops, t) ==> x.routeDirection == t || x == FindStop(t, stops)
  {
    var tagged := Tagged(stops, t);
    TaggedMembers(stops, t);
    FromListEntries(Route(stops, t));
    SortByCorrect(tagged, Order);
    forall x | x in Route(stops, t) ensures x in stops && (x.routeDirection == t || x == FindStop(t, stops)) {
      if x != FindStop(t, stops) {
        assert x in SortBy(tagged, Order);
        assert x in multiset(SortBy(tagged, Order));
        assert x in tagged;
      }
    }
  }

  // ---------------------------------------------------------------------------
  // Locating a position

  /** The entries of the direction's map. */
  function RouteOf(svc: Service, dir: RouteDirection): seq<Stop> {
    if dir == North then svc.north else svc.south
  }

  /** How many leading entries lie strictly below `q`. */
  function CountBelow(m: seq<Stop>, q: int): (r: nat)
    ensures r <= |m|
    ensures forall i :: 0 <= i < r ==> Lat(m[i]) < q
    ensures r < |m| ==> Lat(m[r]) >= q
  {
    if |m| == 0 || Lat(m[0]) >= q then 0
    else
      var r := CountBelow(m[1..], q);
      assert forall i :: 1 <= i < |m| ==> m[1..][i - 1] == m[i];
      1 + r
  }

  /** `Option::zip`. */
  function Zip(a: Option<Stop>, b: Option<Stop>): (r: Option<(Stop, Stop)>)
    ensures r.Some? <==> a.Some? && b.Some?
    ensures r.Some? ==> r.value.0 == a.value && r.value.1 == b.value
  {
    if a.Some? && b.Some? then Some((a.value, b.value)) else None
  }

  /** `RouteService::locate`: the entry with the greatest latitude below the
      position and the one with the least latitude at or above it, in that
      order for the north route and swapped for the south route. */
  function Locate(svc: Service, dir: RouteDirection, q: int): Option<(Stop, Stop)> {
    var m := RouteOf(svc, dir);
    var p := CountBelow(m, q);
    var previous := if p == 0 then None else Some(m[p - 1]);
    var next := if p == |m| then None else Some(m[p]);
    if dir == South then Zip(next, previous) else Zip(previous, next)
  }

  /** There is no answer exactly when no stop lies below the position or none
      lies at or above it (an empty map included). */
  lemma LocateNone(svc: Service, dir: RouteDirection, q: int)
    requires Ascending(RouteOf(svc, dir))
    ensures var m := RouteOf(svc, dir);
            Locate(svc, dir, q).None? <==> (forall i :: 0 <= i < |m| ==> Lat(m[i]) >= q)
                                           || (forall i :: 0 <= i < |m| ==> Lat(m[i]) < q)
  {
    var m := RouteOf(svc, dir);
    var p := CountBelow(m, q);
    if 0 < p < |m| {
      assert Lat(m[0]) < q <= Lat(m[p]);
    } else if p == |m| {
      assert forall i :: 0 <= i < |m| ==> Lat(m[i]) < q;
    } else {
      assert forall i :: 0 <= i < |m| ==> Lat(m[i]) >= q by {
        forall i | 0 <= i < |m| ensures Lat(m[i]) >= q {
          if i > 0 { assert Lat(m[0]) < Lat(m[i]); }
        }
      }
    }
  }

  /** The answer brackets the position: the lower stop is the nearest one
      below it, the upper stop the nearest one at or above it, so the two
      always lie at different latitudes. */
  lemma LocateBracket(svc: Service, dir: RouteDirection, q: int)
    requires Ascending(RouteOf(svc, dir))
    requires Locate(svc, dir, q).Some?
    ensures var m := RouteOf(svc, dir);
            var r := Locate(svc, dir, q).value;
            var (lo, hi) := if dir == North then r else (r.1, r.0);
            && lo in m && hi in m
            && Lat(lo) < q <= Lat(hi)
            && (forall x :: x in m && Lat(x) < q ==> Lat(x) <= Lat(lo))
            && (forall x :: x in m && Lat(x) >= q ==> Lat(hi) <= Lat(x))
  {
    Bracket(RouteOf(svc, dir), q);
  }

  /** In an ascending map, the entries either side of the first key at or
      above `q` are the nearest below `q` and the nearest at or above it. */
  lemma Bracket(m: seq<Stop>, q: int)
    requires Ascending(m)
    requires 0 < CountBelow(m, q) < |m|
    ensures var p := CountBelow(m, q);
            && Lat(m[p - 1]) < q <= Lat(m[p])
            && (forall x :: x in m && Lat(x) < q ==> Lat(x) <= Lat(m[p - 1]))
            && (forall x :: x in m && Lat(x) >= q ==> Lat(m[p]) <= Lat(x))
  {
    var p := CountBelow(m, q);
    assert forall i :: p <= i < |m| ==> Lat(m[i]) >= q by {
      forall i | p <= i < |m| ensures Lat(m[i]) >= q {
        if i != p { assert Lat(m[p]) < Lat(m[i]); }
      }
    }
    forall x | x in m && Lat(x) < q ensures Lat(x) <= Lat(m[p - 1]) {
      var i :| 0 <= i < |m| && m[i] == x;
      if i != p - 1 { assert Lat(m[i]) < Lat(m[p - 1]); }
    }
    forall x | x in m && Lat(x) >= q ensures Lat(m[p]) <= Lat(x) {
      var i :| 0 <= i < |m| && m[i] == x;
      if i != p { assert Lat(m[p]) < Lat(m[i]); }
    }
  }

  /** A position exactly at a stop's latitude has that stop as the upper end
      of the bracket, and never as both ends. */
  lemma ExactHit(svc: Service, dir: RouteDirection, s: Stop)
    requires Ascending(RouteOf(svc, dir))
    requires s in RouteOf(svc, dir)
    ensures var r := Locate(svc, dir, Lat(s));
            r.Some? ==> (if dir == North then r.value.1 == s && r.value.0 != s
                         else r.value.0 == s && r.value.1 != s)
  {
    var m := RouteOf(svc, dir);
    var r := Locate(svc, dir, Lat(s));
    if r.Some? {
      LocateBracket(svc, dir, Lat(s));
      var hi := if dir == North then r.value.1 else r.value.0;
      var i :| 0 <= i < |m| && m[i] == s;
      var j :| 0 <= j < |m| && m[j] == hi;
      AscendingKeys(m, i, j);
    }
  }

  /** In an ascending map a key picks out one entry. */
  lemma AscendingKeys(m: seq<Stop>, i: int, j: int)
    requires Ascending(m)
    requires 0 <= i < |m| && 0 <= j < |m| && Lat(m[i]) == Lat(m[j])
    ensures i == j
  {
  }

  // ---------------------------------------------------------------------------
  // Example: a position at the airport

  /** Three entries collected in ascending key order, and in descending order,
      give the same map. */
  lemma FromListThree(a: Stop, b: Stop, c: Stop)
    requires Lat(a) < Lat(b) < Lat(c)
    ensures FromList([a, b, c]) == [a, b, c]
    ensures FromList([c, b, a]) == [a, b, c]
  {
    assert [a, b, c][..2] == [a, b] && [a, b][..1] == [a] && [a][..0] == [];
    assert [c, b, a][..2] == [c, b] && [c, b][..1] == [c] && [c][..0] == [];
    assert FromList([a]) == [a];
    assert FromList([a, b]) == Put([a], b) == [a] + Put([], b) == [a, b];
    assert FromList([a, b, c]) == Put([a, b], c) == [a] + Put([b], c);
    assert Put([b], c) == [b] + Put([], c) == [b, c];
    assert FromList([c]) == [c];
    assert FromList([c, b]) == Put([c], b) == [b, c];
    assert FromList([c, b, a]) == Put([b, c], a) == [a, b, c];
  }

  lemma TaggedCons(x: Stop, rest: seq<Stop>, t: Terminal)
    ensures Tagged([x] + rest, t) == (if x.routeDirection == t then [x] else []) + Tagged(rest, t)
  {
    assert ([x] + rest)[1..] == rest;
  }

  /** The tags and latitudes of the example: the airport opens the southbound
      route, Rawai Beach opens the northbound one, and the health office in
      Thalang lies between them, with a stop for each direction. */
  predicate Layout(a: Stop, ts: Stop, r: Stop, tn: Stop) {
    && a.routeDirection == Rawai && ts.routeDirection == Rawai
    && r.routeDirection == Airport && tn.routeDirection == Airport
    && a.order < ts.order && r.order < tn.order
    && Lat(r) < Lat(tn) < Lat(a)
    && Lat(r) < Lat(ts) < Lat(a)
  }

  /** The example's stop names. */
  predicate Island(a: Stop, ts: Stop, r: Stop, tn: Stop) {
    && Layout(a, ts, r, tn)
    && a.name == "Phuket Airport" && r.name == "Rawai Beach"
    && ts.name == "Thalang Public Health Office" && tn.name == "Thalang Public Health Office"
  }

  lemma IslandTerminals(a: Stop, ts: Stop, r: Stop, tn: Stop)
    requires Island(a, ts, r, tn)
    ensures HasStop(Airport, [a, ts, r, tn]) && HasStop(Rawai, [a, ts, r, tn])
    ensures FindStop(Airport, [a, ts, r, tn]) == a
    ensures FindStop(Rawai, [a, ts, r, tn]) == r
  {
    FindStopFirst(Airport, [], a, [ts, r, tn]);
    assert [] + [a] + [ts, r, tn] == [a, ts, r, tn];
    FindStopFirst(Rawai, [a, ts], r, [tn]);
    assert [a, ts] + [r] + [tn] == [a, ts, r, tn];
  }

  lemma IslandTaggedNorth(a: Stop, ts: Stop, r: Stop, tn: Stop)
    requires Layout(a, ts, r, tn)
    ensures Tagged([a, ts, r, tn], Airport) == [r, tn]
  {
    assert [a, ts, r, tn] == [a] + ([ts] + ([r] + ([tn] + [])));
    TaggedCons(tn, [], Airport);
    TaggedCons(r, [tn], Airport);
    TaggedCons(ts, [r, tn], Airport);
    TaggedCons(a, [ts, r, tn], Airport);
  }

  lemma IslandTaggedSouth(a: Stop, ts: Stop, r: Stop, tn: Stop)
    requires Layout(a, ts, r, tn)
    ensures Tagged([a, ts, r, tn], Rawai) == [a, ts]
  {
    assert [a, ts, r, tn] == [a] + ([ts] + ([r] + ([tn] + [])));
    TaggedCons(tn, [], Rawai);
    TaggedCons(r, [tn], Rawai);
    TaggedCons(ts, [r, tn], Rawai);
    TaggedCons(a, [ts, r, tn], Rawai);
  }

  lemma IslandRouteNorth(a: Stop, ts: Stop, r: Stop, tn: Stop)
    requires Island(a, ts, r, tn)
    ensures HasStop(Airport, [a, ts, r, tn])
    ensures Route([a, ts, r, tn], Airport) == [r, tn, a]
  {
    IslandTerminals(a, ts, r, tn);
    IslandTaggedNorth(a, ts, r, tn);
    SortBySorted([r, tn], Order);
  }

  lemma IslandRouteSouth(a: Stop, ts: Stop, r: Stop, tn: Stop)
    requires Island(a, ts, r, tn)
    ensures HasStop(Rawai, [a, ts, r, tn])
    ensures Route([a, ts, r, tn], Rawai) == [a, ts, r]
  {
    IslandTerminals(a, ts, r, tn);
    IslandTaggedSouth(a, ts, r, tn);
    SortBySorted([a, ts], Order);
  }

  /** The north map runs Rawai Beach, Thalang, airport; so does the south map,
      with the southbound Thalang stop. */
  lemma IslandMaps(a: Stop, ts: Stop, r: Stop, tn: Stop)
    requires Island(a, ts, r, tn)
    ensures HasStop(Airport, [a, ts, r, tn]) && HasStop(Rawai, [a, ts, r, tn])
    ensures New([a, ts, r, tn]).north == [r, tn, a]
    ensures New([a, ts, r, tn]).south == [r, ts, a]
  {
    IslandRouteNorth(a, ts, r, tn);
    IslandRouteSouth(a, ts, r, tn);
    FromListThree(r, tn, a);
    FromListThree(r, ts, a);
  }

  /** On a three-stop map, a position at the top stop's latitude lies between
      the middle and the top stop. */
  lemma LocateTop(svc: Service, dir: RouteDirection, lo: Stop, mid: Stop, hi: Stop)
    requires RouteOf(svc, dir) == [lo, mid, hi]
    requires Lat(lo) < Lat(mid) < Lat(hi)
    ensures Locate(svc, dir, Lat(hi)) == if dir == North then Some((mid, hi)) else Some((hi, mid))
  {
    assert [lo, mid, hi][1..] == [mid, hi] && [mid, hi][1..] == [hi];
    assert CountBelow([hi], Lat(hi)) == 0;
  }

  /** At the airport's own latitude the north route has just reached the
      airport from Thalang, and the south route is leaving the airport for Thalang. */
  lemma LocateAtAirport(a: Stop, ts: Stop, r: Stop, tn: Stop)
    requires Island(a, ts, r, tn)
    ensures HasStop(Airport, [a, ts, r, tn]) && HasStop(Rawai, [a, ts, r, tn])
    ensures Locate(New([a, ts, r, tn]), North, Lat(a)) == Some((tn, a))
    ensures Locate(New([a, ts, r, tn]), South, Lat(a)) == Some((a, ts))
  {
    IslandMaps(a, ts, r, tn);
    LocateTop(New([a, ts, r, tn]), North, r, tn, a);
    LocateTop(New([a, ts, r, tn]), South, r, ts, a);
  }
}
