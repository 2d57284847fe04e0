/** The current sheet readers: `parse_list` with each table's row decoder. A
    row that does not decode is dropped and the sheet still reads. */
module Sheets {
  import opened Wrappers
  import opened Formats
  import opened Rows
  import Schedules
  import Stops
  import Buses

  /** The row decoder of each sheet, as `parse_list` receives it. */
  function ScheduleRow(f: Parsers): Value -> Result<Schedules.Schedule> {
    v => Schedules.Decode(f, v)
  }

  function StopRow(f: Parsers): Value --> Result<Stops.Stop> {
    v requires Stops.Decodable(f, v) => Stops.Decode(f, v)
  }

  function BusRow(f: Parsers): Value -> Result<Buses.Bus> {
    v => Buses.Decode(f, v)
  }

  /** The timetable sheet. */
  function ParseSchedules(f: Parsers, doc: Result<seq<Value>>): (r: Result<seq<Schedules.Schedule>>)
    ensures r.Err? <==> doc.Err?
    ensures r.Ok? ==> |r.value| <= if |doc.value| == 0 then 0 else |doc.value| - 1
    ensures r.Ok? ==> forall x :: x in r.value ==>
              exists i :: 1 <= i < |doc.value| && Schedules.Decode(f, doc.value[i]) == Ok(x)
    ensures r.Ok? && |doc.value| > 0 ==>
              Callable(doc.value[1..], ScheduleRow(f)) && r.value == KeepOk(doc.value[1..], ScheduleRow(f))
  {
    ParseList(doc, ScheduleRow(f))
  }

  /** The stops sheet. Every row after the header must be one whose timetable
      cell, if reached, can be sliced: a row that cannot panics. */
  function ParseStops(f: Parsers, doc: Result<seq<Value>>): (r: Result<seq<Stops.Stop>>)
    requires doc.Ok? ==> forall i :: 1 <= i < |doc.value| ==> Stops.Decodable(f, doc.value[i])
    ensures r.Err? <==> doc.Err?
    ensures r.Ok? ==> |r.value| <= if |doc.value| == 0 then 0 else |doc.value| - 1
    ensures r.Ok? ==> forall x :: x in r.value ==>
              exists i :: 1 <= i < |doc.value| && Stops.Decodable(f, doc.value[i])
                          && Stops.Decode(f, doc.value[i]) == Ok(x)
    ensures r.Ok? && |doc.value| > 0 ==>
              Callable(doc.value[1..], StopRow(f)) && r.value == KeepOk(doc.value[1..], StopRow(f))
  {
    ParseList(doc, StopRow(f))
  }

  /** The buses sheet. */
  function ParseBuses(f: Parsers, doc: Result<seq<Value>>): (r: Result<seq<Buses.Bus>>)
    ensures r.Err? <==> doc.Err?
    ensures r.Ok? ==> |r.value| <= if |doc.value| == 0 then 0 else |doc.value| - 1
    ensures r.Ok? ==> forall x :: x in r.value ==>
              exists i :: 1 <= i < |doc.value| && Buses.Decode(f, doc.value[i]) == Ok(x)
    ensures r.Ok? && |doc.value| > 0 ==>
              Callable(doc.value[1..], BusRow(f)) && r.value == KeepOk(doc.value[1..], BusRow(f))
  {
    ParseList(doc, BusRow(f))
  }
}
