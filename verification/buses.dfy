/** The fleet table (the "buses" sheet): one row per vehicle, naming the trip
    position it currently operates. */
module Buses {
  import opened Wrappers
  import opened Text
  import opened Formats
  import opened Rows

  /** The only service status the table's status column can name. */
  datatype ServiceStatus = Suspend

  /** The two directions a vehicle can be marked with, "0" and "1". */
  datatype BusDirection = A | B

  datatype Bus = Bus(
    no: nat,
    licencePlate: string,
    busId: string,
    icon: string,
    serviceStatus: ServiceStatus,
    direction: BusDirection,
    operatePosition: string,
    spare: seq<string>,   // columns 7 to 14, carried but never read
    date: Date,
    time: Time)

  /** The status cell, read as a JSON enum with lower-case variant names: only
      the string "suspend" is a variant. */
  function ParseStatus(cell: Option<string>): (r: Result<ServiceStatus>)
    ensures r.Ok? <==> cell == Some("suspend")
    ensures cell.None? ==> r == Err(InvalidType(4))
    ensures cell.Some? && r.Err? ==> r.error == UnknownVariant(cell.value)
  {
    match cell
    case None => Err(InvalidType(4))
    case Some(s) => if s == "suspend" then Ok(Suspend) else Err(UnknownVariant(s))
  }

  /** The direction cell, read as a JSON enum whose variants are renamed "0" and "1". */
  function ParseDirection(cell: Option<string>): (r: Result<BusDirection>)
    ensures r == Ok(A) <==> cell == Some("0")
    ensures r == Ok(B) <==> cell == Some("1")
    ensures cell.None? ==> r == Err(InvalidType(5))
    ensures cell.Some? && r.Err? ==> r.error == UnknownVariant(cell.value)
  {
    match cell
    case None => Err(InvalidType(5))
    case Some(s) =>
      if s == "0" then Ok(A) else if s == "1" then Ok(B) else Err(UnknownVariant(s))
  }

  /** The spare columns 7 to 14, as text. */
  function Spare(cells: seq<Option<string>>): (r: Result<seq<string>>)
    requires |cells| == 17
    ensures r.Ok? <==> forall i :: 7 <= i < 15 ==> cells[i].Some?
    ensures r.Ok? ==> |r.value| == 8 && forall i :: 0 <= i < 8 ==> r.value[i] == cells[7 + i].value
  {
    var a :- Cell(cells, 7);
    var b :- Cell(cells, 8);
    var c :- Cell(cells, 9);
    var d :- Cell(cells, 10);
    var e :- Cell(cells, 11);
    var f :- Cell(cells, 12);
    var concat :- Cell(cells, 13);
    var run :- Cell(cells, 14);
    Ok([a, b, c, d, e, f, concat, run])
  }

  /** Cells 1 to 3: plate, bus id and icon, as text. */
  function Names(cells: seq<Option<string>>): (r: Result<(string, string, string)>)
    requires |cells| == 17
    ensures r.Ok? <==> forall i :: 1 <= i < 4 ==> cells[i].Some?
    ensures r.Ok? ==> r.value == (cells[1].value, cells[2].value, cells[3].value)
  {
    var plate :- Cell(cells, 1);
    var busId :- Cell(cells, 2);
    var icon :- Cell(cells, 3);
    Ok((plate, busId, icon))
  }

  /** Cells 15 and 16: the date ("%d/%m/%Y") and the time ("%r") of the report. */
  function Stamp(f: Parsers, cells: seq<Option<string>>): (r: Result<(Date, Time)>)
    requires |cells| == 17
    ensures r.Ok? <==> cells[15].Some? && cells[16].Some?
                       && f.dmy(cells[15].value).Some? && f.clock12(cells[16].value).Some?
    ensures r.Ok? ==> Some(r.value.0) == f.dmy(cells[15].value) && Some(r.value.1) == f.clock12(cells[16].value)
  {
    var dateText :- Cell(cells, 15);
    var date :- OkOr(f.dmy(dateText), BadDate(dateText));
    var timeText :- Cell(cells, 16);
    var time :- OkOr(f.clock12(timeText), BadTime(timeText));
    Ok((date, time))
  }

  /** The row conditions under which `Decode` succeeds. */
  predicate Accepted(f: Parsers, v: Value) {
    && v.Array? && |v.cells| == 17
    && (forall i :: 0 <= i < 17 && i != 4 && i != 5 ==> v.cells[i].Some?)
    && ParseUnsigned(v.cells[0].value, U8Max).Some?
    && v.cells[4] == Some("suspend")
    && v.cells[5] in {Some("0"), Some("1")}
    && f.dmy(v.cells[15].value).Some?
    && f.clock12(v.cells[16].value).Some?
  }

  /** `Bus::try_from`: an array of exactly seventeen cells; the number must fit
      in a byte, plate and operate position are copied as they are. */
  function Decode(f: Parsers, v: Value): (r: Result<Bus>)
    ensures v.Scalar? ==> r == Err(ExpectedArray)
    ensures v.Array? && |v.cells| != 17 ==> r == Err(WrongArity(17, |v.cells|))
    ensures r.Ok? <==> Accepted(f, v)
    ensures r.Ok? ==>
              && Some(r.value.no) == ParseUnsigned(v.cells[0].value, U8Max)
              && r.value.no <= 255
              && r.value.licencePlate == v.cells[1].value
              && r.value.busId == v.cells[2].value
              && r.value.icon == v.cells[3].value
              && r.value.direction == (if v.cells[5] == Some("0") then A else B)
              && r.value.operatePosition == v.cells[6].value
              && Spare(v.cells) == Ok(r.value.spare)
              && Some(r.value.date) == f.dmy(v.cells[15].value)
              && Some(r.value.time) == f.clock12(v.cells[16].value)
  {
    var cells :- Cells(v, 17);
    var noText :- Cell(cells, 0);
    var no :- OkOr(ParseUnsigned(noText, U8Max), BadInteger(noText));
    var names :- Names(cells);
    var status :- ParseStatus(cells[4]);
    var direction :- ParseDirection(cells[5]);
    var position :- Cell(cells, 6);
    var spare :- Spare(cells);
    var stamp :- Stamp(f, cells);
    Ok(Bus(no, names.0, names.1, names.2, status, direction, position, spare, stamp.0, stamp.1))
  }

  /** Numbers past a byte fail the row: "256" does not fit a `u8`. */
  lemma NumberOverflow(f: Parsers, cells: seq<Option<string>>)
    requires |cells| == 17 && cells[0] == Some("256")
    ensures Decode(f, Array(cells)).Err?
  {
    assert ParseUnsigned("256", U8Max).None? by {
      DecimalValue(256);
      assert Decimal(256) == "256";
    }
  }
}
