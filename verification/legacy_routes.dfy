/** The older route index: each direction keeps its stops as a list in route
    order, and a position is placed by scanning the list for the first two
    neighbouring stops on opposite sides of it. */
module LegacyRoutes {
  import opened Wrappers
  import opened Terminals
  import opened Directions
  import opened Stops
  import opened Sorting
  import opened TerminalStops
  import RouteService

  /** `Terminal::stop` panics for a terminal without a named stop, and `new`
      looks up all four. */
  predicate AllTerminals(stops: seq<Stop>) {
    HasStop(Airport, stops) && HasStop(Rawai, stops) && HasStop(Kata, stops) && HasStop(Patong, stops)
  }

  /** A group's tag becomes its direction, which panics for Kata and Patong. */
  predicate MainTags(stops: seq<Stop>) {
    forall i :: 0 <= i < |stops| ==> stops[i].routeDirection == Airport || stops[i].routeDirection == Rawai
  }

  /** Some stop carries tag `t`, so `into_group_map_by` makes a group for it. */
  predicate HasGroup(stops: seq<Stop>, t: Terminal) {
    exists i :: 0 <= i < |stops| && stops[i].routeDirection == t
  }

  datatype Routes = Routes(routes: map<RouteDirection, seq<Stop>>)

  /** `Routes::new`: one list per tag that occurs, sorted by route order and
      closed by the terminal's stop, filed under the terminal's direction. */
  function New(stops: seq<Stop>): (r: Routes)
    requires AllTerminals(stops) && MainTags(stops)
    ensures North in r.routes <==> HasGroup(stops, Airport)
    ensures South in r.routes <==> HasGroup(stops, Rawai)
    ensures North in r.routes ==> r.routes[North] == RouteService.Route(stops, Airport)
    ensures South in r.routes ==> r.routes[South] == RouteService.Route(stops, Rawai)
  {
    var north := if HasGroup(stops, Airport) then map[North := RouteService.Route(stops, Airport)] else map[];
    var south := if HasGroup(stops, Rawai) then map[South := RouteService.Route(stops, Rawai)] else map[];
    Routes(north + south)
  }

  /** A route list: the stops tagged `t` in route order, closed by the
      terminal's own stop. */
  lemma RouteShape(stops: seq<Stop>, t: Terminal)
    requires HasStop(t, stops)
    ensures var list := RouteService.Route(stops, t);
            && list[|list| - 1] == FindStop(t, stops)
            && SortedBy(list[..|list| - 1], RouteService.Order)
            && forall i :: 0 <= i < |list| - 1 ==> list[i].routeDirection == t && list[i] in stops
  {
    var tagged := RouteService.Tagged(stops, t);
    var sorted := SortBy(tagged, RouteService.Order);
    RouteService.TaggedMembers(stops, t);
    SortByCorrect(tagged, RouteService.Order);
    var list := RouteService.Route(stops, t);
    assert list[..|list| - 1] == sorted;
    forall k | 0 <= k < |list| - 1 ensures list[k].routeDirection == t && list[k] in stops {
      assert list[k] == sorted[k];
      assert sorted[k] in multiset(tagged);
    }
  }

  /** Each list of the index has that shape, and holds at least one tagged
      stop besides the terminal's. */
  lemma NewListShape(stops: seq<Stop>, t: Terminal)
    requires AllTerminals(stops) && MainTags(stops)
    requires HasGroup(stops, t)
    ensures t == Airport || t == Rawai
    ensures var list := New(stops).routes[FromTerminal(t)];
            && |list| >= 2
            && list[|list| - 1] == FindStop(t, stops)
            && SortedBy(list[..|list| - 1], RouteService.Order)
            && forall i :: 0 <= i < |list| - 1 ==> list[i].routeDirection == t && list[i] in stops
  {
    var i :| 0 <= i < |stops| && stops[i].routeDirection == t;
    RouteService.TaggedMembers(stops, t);
    SortByCorrect(RouteService.Tagged(stops, t), RouteService.Order);
    assert stops[i] in RouteService.Tagged(stops, t);
    RouteShape(stops, t);
  }

  /** The sign test: a stop on the far side of the position counts -1, any
      other stop +1; a stop exactly level with the position counts +1. */
  function Sign(dir: RouteDirection, point: int, pos: int): (r: int)
    ensures r == -1 || r == 1
    ensures r == -1 <==> (dir == North && point < pos) || (dir == South && point > pos)
  {
    match dir
    case North => if point - pos < 0 then -1 else 1
    case South => if pos - point < 0 then -1 else 1
  }

  /** Two neighbouring stops whose signs cancel. */
  predicate Straddles(list: seq<Stop>, i: int, dir: RouteDirection, pos: int)
    requires 0 <= i < |list| - 1
  {
    Sign(dir, RouteService.Lat(list[i]), pos) + Sign(dir, RouteService.Lat(list[i + 1]), pos) == 0
  }

  /** The first window of two that straddles the position, or -1. */
  function FirstStraddle(list: seq<Stop>, dir: RouteDirection, pos: int): (r: int)
    ensures r == -1 || 0 <= r < |list| - 1
    ensures r >= 0 ==> Straddles(list, r, dir, pos)
    ensures forall j :: 0 <= j < |list| - 1 && (r < 0 || j < r) ==> !Straddles(list, j, dir, pos)
    decreases |list|
  {
    if |list| < 2 then -1
    else if Straddles(list, 0, dir, pos) then 0
    else
      var r := FirstStraddle(list[1..], dir, pos);
      assert forall j :: 1 <= j < |list| - 1 ==> Straddles(list, j, dir, pos) == Straddles(list[1..], j - 1, dir, pos);
      if r < 0 then -1 else r + 1
  }

  /** `Routes::locate`, without the distances: the first pair of neighbours on
      opposite sides of the position, in list order and never swapped. */
  function Locate(routes: Routes, dir: RouteDirection, pos: int): (r: Option<(Stop, Stop)>)
    ensures r.None? <==> dir !in routes.routes || FirstStraddle(routes.routes[dir], dir, pos) < 0
    ensures r.Some? ==> var list := routes.routes[dir];
                        var i := FirstStraddle(list, dir, pos);
                        r.value == (list[i], list[i + 1])
  {
    if dir !in routes.routes then None
    else
      var list := routes.routes[dir];
      var i := FirstStraddle(list, dir, pos);
      if i < 0 then None else Some((list[i], list[i + 1]))
  }

  /** Straddling, read as latitudes: one of the two stops is on the far side of
      the position and the other is level with it or on the near side, in
      either order. */
  lemma StraddleMeaning(list: seq<Stop>, i: int, dir: RouteDirection, pos: int)
    requires 0 <= i < |list| - 1
    ensures var a := RouteService.Lat(list[i]);
            var b := RouteService.Lat(list[i + 1]);
            Straddles(list, i, dir, pos) <==>
              if dir == North then (a < pos <= b) || (b < pos <= a)
              else (a > pos >= b) || (b > pos >= a)
  {
  }

  /** What `locate` answers, read as latitudes: a pair of neighbours with
      exactly one on the far side of the position, and no earlier such pair;
      nothing when no neighbours straddle it. */
  lemma LocateMeaning(routes: Routes, dir: RouteDirection, pos: int)
    requires dir in routes.routes
    ensures var list := routes.routes[dir];
            Locate(routes, dir, pos).None? <==>
              forall j :: 0 <= j < |list| - 1 ==> !Straddles(list, j, dir, pos)
    ensures Locate(routes, dir, pos).Some? ==>
              var (a, b) := Locate(routes, dir, pos).value;
              if dir == North then
                (RouteService.Lat(a) < pos <= RouteService.Lat(b)) || (RouteService.Lat(b) < pos <= RouteService.Lat(a))
              else
                (RouteService.Lat(a) > pos >= RouteService.Lat(b)) || (RouteService.Lat(b) > pos >= RouteService.Lat(a))
  {
    var list := routes.routes[dir];
    var i := FirstStraddle(list, dir, pos);
    if i >= 0 {
      StraddleMeaning(list, i, dir, pos);
    }
  }

  /** On a list that climbs in latitude, the northbound scan finds the same
      pair as the ordered-map bracket of the current index. */
  lemma {:induction false} AscendingScan(list: seq<Stop>, pos: int)
    requires RouteService.Ascending(list)
    ensures var i := FirstStraddle(list, North, pos);
            var p := RouteService.CountBelow(list, pos);
            i >= 0 <==> 0 < p < |list|
    ensures var i := FirstStraddle(list, North, pos);
            i >= 0 ==> i == RouteService.CountBelow(list, pos) - 1
  {
    var p := RouteService.CountBelow(list, pos);
    var i := FirstStraddle(list, North, pos);
    assert forall k :: p <= k < |list| ==> RouteService.Lat(list[k]) >= pos by {
      forall k | p <= k < |list| ensures RouteService.Lat(list[k]) >= pos {
        if k != p { assert RouteService.Lat(list[p]) < RouteService.Lat(list[k]); }
      }
    }
    if 0 < p < |list| {
      StraddleMeaning(list, p - 1, North, pos);
      assert Straddles(list, p - 1, North, pos);
      if i >= 0 {
        StraddleMeaning(list, i, North, pos);
        assert i == p - 1;
      }
    }
    if i >= 0 {
      StraddleMeaning(list, i, North, pos);
      assert RouteService.Lat(list[i]) < RouteService.Lat(list[i + 1]);
    }
  }
}
