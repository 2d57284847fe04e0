/** The stop each terminal stands for, found in a stop list by its name. */
module TerminalStops {
  import opened Terminals
  import opened Stops

  /** Some stop of the list carries the terminal's stop name. */
  predicate HasStop(t: Terminal, stops: seq<Stop>) {
    exists i :: 0 <= i < |stops| && stops[i].name == StopName(t)
  }

  /** The position of the first stop called `name`. */
  function FirstNamed(stops: seq<Stop>, name: string): (r: nat)
    requires exists i :: 0 <= i < |stops| && stops[i].name == name
    ensures r < |stops| && stops[r].name == name
    ensures forall j :: 0 <= j < r ==> stops[j].name != name
  {
    if stops[0].name == name then 0
    else
      assert exists i :: 0 <= i < |stops[1..]| && stops[1..][i].name == name by {
        var i :| 0 <= i < |stops| && stops[i].name == name;
        assert stops[1..][i - 1] == stops[i];
      }
      1 + FirstNamed(stops[1..], name)
  }

  /** `Terminal::stop`: the first stop named after the terminal; with no such
      stop the lookup panics, so one is required. */
  function FindStop(t: Terminal, stops: seq<Stop>): (r: Stop)
    requires HasStop(t, stops)
    ensures r in stops && r.name == StopName(t)
  {
    stops[FirstNamed(stops, StopName(t))]
  }

  /** The stop found is the earliest of that name: stops appended after it never
      change the answer, and neither does any earlier stop of another name. */
  lemma FindStopFirst(t: Terminal, before: seq<Stop>, s: Stop, after: seq<Stop>)
    requires forall i :: 0 <= i < |before| ==> before[i].name != StopName(t)
    requires s.name == StopName(t)
    ensures HasStop(t, before + [s] + after)
    ensures FindStop(t, before + [s] + after) == s
  {
    var all := before + [s] + after;
    assert all[|before|] == s;
    forall j | 0 <= j < |before| ensures all[j].name != StopName(t) {
      assert all[j] == before[j];
    }
  }

  /** The terminals' stops are told apart by name, so no stop serves two terminals. */
  lemma FindStopDistinct(t: Terminal, u: Terminal, stops: seq<Stop>)
    requires HasStop(t, stops) && HasStop(u, stops) && t != u
    ensures FindStop(t, stops) != FindStop(u, stops)
  {
    StopNameInjective(t, u);
  }
}
