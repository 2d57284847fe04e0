/** Which trip position a vehicle operates, looked up by its licence plate. */
module BusService {
  import opened Wrappers
  import opened Buses

  datatype Roster = Roster(buses: map<string, Bus>)

  /** The reference answer: the last bus in the list carrying `plate`. */
  function LastWithPlate(buses: seq<Bus>, plate: string): (r: Option<Bus>)
    ensures r.Some? ==> r.value in buses && r.value.licencePlate == plate
    ensures r.None? <==> forall i :: 0 <= i < |buses| ==> buses[i].licencePlate != plate
    ensures r.Some? ==> exists i :: 0 <= i < |buses| && buses[i] == r.value
                          && forall j :: i < j < |buses| ==> buses[j].licencePlate != plate
    decreases |buses|
  {
    if |buses| == 0 then None
    else if buses[|buses| - 1].licencePlate == plate then Some(buses[|buses| - 1])
    else
      var r := LastWithPlate(buses[..|buses| - 1], plate);
      assert forall i :: 0 <= i < |buses| - 1 ==> buses[..|buses| - 1][i] == buses[i];
      r
  }

  /** `BusService::new`: every bus filed under its plate, in list order, so a
      later bus with the same plate replaces an earlier one. */
  function New(buses: seq<Bus>): (r: Roster)
    ensures forall plate :: plate in r.buses <==> LastWithPlate(buses, plate).Some?
    ensures forall plate :: plate in r.buses ==> Some(r.buses[plate]) == LastWithPlate(buses, plate)
    decreases |buses|
  {
    if |buses| == 0 then Roster(map[])
    else
      var last := buses[|buses| - 1];
      var init := New(buses[..|buses| - 1]);
      Roster(init.buses[last.licencePlate := last])
  }

  /** `operate_position`: the position of the bus with that plate; an unknown
      plate is no answer rather than an error. */
  function OperatePosition(roster: Roster, plate: string): (r: Option<string>)
    ensures r.Some? <==> plate in roster.buses
    ensures r.Some? ==> r.value == roster.buses[plate].operatePosition
  {
    if plate in roster.buses then Some(roster.buses[plate].operatePosition) else None
  }

  /** Looking a plate up in a freshly built roster answers with the position of
      the last bus listed under it, and with nothing when no bus carries it. */
  lemma LookupLastListed(buses: seq<Bus>, plate: string)
    ensures OperatePosition(New(buses), plate).None? <==>
              forall i :: 0 <= i < |buses| ==> buses[i].licencePlate != plate
    ensures OperatePosition(New(buses), plate).Some? ==>
              OperatePosition(New(buses), plate).value == LastWithPlate(buses, plate).value.operatePosition
  {
  }

  /** Appending a bus makes it the answer for its plate and leaves every other
      plate's answer unchanged. */
  lemma AppendBus(buses: seq<Bus>, b: Bus, plate: string)
    ensures OperatePosition(New(buses + [b]), plate)
            == if plate == b.licencePlate then Some(b.operatePosition)
               else OperatePosition(New(buses), plate)
  {
    assert (buses + [b])[..|buses|] == buses;
  }

  /** A roster where plate 10-1152 runs as Bus4 after an earlier entry for
      the same plate ran as Bus2. */
  lemma PlateExample(first: Bus, other: Bus, second: Bus)
    requires first.licencePlate == "10-1152" && first.operatePosition == "Bus2"
    requires other.licencePlate == "10-1153"
    requires second.licencePlate == "10-1152" && second.operatePosition == "Bus4"
    ensures OperatePosition(New([first, other, second]), "10-1152") == Some("Bus4")
    ensures OperatePosition(New([first, other, second]), "10-1150").None?
  {
    AppendBus([first, other], second, "10-1152");
    assert [first, other] + [second] == [first, other, second];
    LookupLastListed([first, other, second], "10-1150");
  }
}
