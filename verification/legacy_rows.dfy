/** The older sheet decoders. They read the same three sheets as the current
    ones, with a few differences: a time cell has no midnight rewrite, a stop's
    route direction names only the two main terminals, stop names are kept
    as they are, the coordinate columns are not crossed, and a single bad row
    fails the whole sheet. */
module LegacyRows {
  import opened Wrappers
  import opened Text
  import opened Formats
  import opened Rows
  import Terminals
  import Schedules
  import Stops
  import Buses

  // ---------------------------------------------------------------------------
  // Bus operations (the timetable sheet)

  /** The older `SmartBusTime::from_str`: the first word read as "%T", with no
      special case for midnight. */
  function ParseTime(f: Parsers, s: string): (r: Result<Time>)
    ensures |Tokens(s)| == 0 ==> r == Err(MissingInput)
    ensures |Tokens(s)| > 0 ==> r == OkOr(f.hms(Tokens(s)[0]), BadTime(Tokens(s)[0]))
  {
    var word :- OkOr(Nth(Tokens(s), 0), MissingInput);
    OkOr(f.hms(word), BadTime(word))
  }

  /** Away from the midnight literal both time readers agree. */
  lemma ParseTimeAgrees(f: Parsers, s: string)
    requires !Contains(s, Schedules.Midnight)
    ensures ParseTime(f, s) == Schedules.ParseTime(f, s)
  {
    Schedules.ReplaceAbsent(s, Schedules.Midnight, Schedules.LastSecondText);
  }

  /** On the midnight literal they part: the older reader hands "12:00:00" to
      the time format, where the current one hands it "23:59:59"
      (`Schedules.MidnightIsLastSecond`). */
  lemma MidnightDiffers(f: Parsers)
    ensures ParseTime(f, Schedules.Midnight) == OkOr(f.hms("12:00:00"), BadTime("12:00:00"))
  {
    assert Schedules.Midnight == "12:00:00" + " AM";
    TokensOfWord("12:00:00", " AM");
  }

  /** The row conditions under which `DecodeOperation` succeeds. */
  predicate OperationAccepted(f: Parsers, v: Value) {
    && v.Array? && |v.cells| == 8
    && (forall i :: 0 <= i < 8 ==> v.cells[i].Some?)
    && Terminals.Parse(v.cells[1].value).Ok?
    && ParseTime(f, v.cells[2].value).Ok?
    && ParseTime(f, v.cells[3].value).Ok?
    && ParseTime(f, v.cells[4].value).Ok?
    && Terminals.Parse(v.cells[5].value).Ok?
    && Schedules.ParseDirection(v.cells[6].value).Ok?
  }

  /** `BusOperation::try_from`: eight string cells, laid out as in the current
      timetable row. The record has the same fields as a current `Schedule`,
      and its terminal and direction parsers accept the same words. */
  function DecodeOperation(f: Parsers, v: Value): (r: Result<Schedules.Schedule>)
    ensures v.Scalar? ==> r == Err(ExpectedArray)
    ensures v.Array? && |v.cells| != 8 ==> r == Err(WrongArity(8, |v.cells|))
    ensures r.Ok? <==> OperationAccepted(f, v)
    ensures r.Ok? ==>
              && r.value.position == v.cells[0].value
              && Ok(r.value.start) == Terminals.Parse(v.cells[1].value)
              && Ok(r.value.departure) == ParseTime(f, v.cells[2].value)
              && Ok(r.value.colorChanged) == ParseTime(f, v.cells[3].value)
              && Ok(r.value.arrival) == ParseTime(f, v.cells[4].value)
              && Ok(r.value.destination) == Terminals.Parse(v.cells[5].value)
              && Ok(r.value.direction) == Schedules.ParseDirection(v.cells[6].value)
              && r.value.icon == v.cells[7].value
  {
    Schedules.DecodeWith(s => ParseTime(f, s), v)
  }

  /** A row none of whose time cells holds the midnight literal decodes the
      same in both revisions. */
  lemma OperationAgrees(f: Parsers, v: Value)
    requires v.Array? && |v.cells| == 8
    requires forall i :: 2 <= i <= 4 && v.cells[i].Some? ==> !Contains(v.cells[i].value, Schedules.Midnight)
    ensures DecodeOperation(f, v) == Schedules.Decode(f, v)
  {
    var older := s => ParseTime(f, s);
    var current := s => Schedules.ParseTime(f, s);
    forall i | 2 <= i <= 4 && v.cells[i].Some?
      ensures older(v.cells[i].value) == current(v.cells[i].value)
    {
      ParseTimeAgrees(f, v.cells[i].value);
    }
    Schedules.DecodeWithReaders(older, current, v);
  }

  /** `parse_bus_operations`: the header skipped and every other row decoded;
      the first row that fails fails the sheet. */
  function ParseBusOperations(f: Parsers, doc: Result<seq<Value>>): (r: Result<seq<Schedules.Schedule>>)
    ensures doc.Err? ==> r == Err(doc.error)
    ensures doc.Ok? && |doc.value| > 0 ==>
              (r.Ok? <==> forall i :: 1 <= i < |doc.value| ==> DecodeOperation(f, doc.value[i]).Ok?)
    ensures r.Ok? && |doc.value| > 0 ==>
              |r.value| == |doc.value| - 1
              && forall i :: 1 <= i < |doc.value| ==> DecodeOperation(f, doc.value[i]) == Ok(r.value[i - 1])
  {
    ParseAll(doc, v => DecodeOperation(f, v))
  }

  /** One bad row fails the sheet, wherever it stands after the header. */
  lemma BadOperationFailsSheet(f: Parsers, header: Value, before: seq<Value>, bad: Value, after: seq<Value>)
    requires DecodeOperation(f, bad).Err?
    ensures ParseBusOperations(f, Ok([header] + before + [bad] + after)).Err?
  {
    var rows := [header] + before + [bad] + after;
    assert rows[1 + |before|] == bad;
  }

  // ---------------------------------------------------------------------------
  // Bus stops

  /** The older stop's route direction: only the two main terminals. */
  datatype Direction = Airport | Rawai

  /** The terminal each direction stands for. */
  function AsTerminal(d: Direction): (t: Terminals.Terminal)
    ensures t == Terminals.Airport || t == Terminals.Rawai
    ensures Terminals.Keyword(t) == (if d == Airport then "Airport" else "Rawai")
  {
    match d
    case Airport => Terminals.Airport
    case Rawai => Terminals.Rawai
  }

  /** The older `Direction::from_str`: "Airport" or "Rawai", nothing else. */
  function ParseDirection(s: string): (r: Result<Direction>)
    ensures r == Ok(Airport) <==> s == "Airport"
    ensures r == Ok(Rawai) <==> s == "Rawai"
    ensures r.Err? ==> r.error == UnknownDirection(s)
  {
    if s == "Airport" then Ok(Airport)
    else if s == "Rawai" then Ok(Rawai)
    else Err(UnknownDirection(s))
  }

  /** The older `RouteDirection::from_str`: the text after the first " --> ",
      up to any second one, read as a direction. */
  function ParseRouteDirection(s: string): (r: Result<Direction>)
    ensures !Contains(s, Stops.Arrow) ==> r == Err(MissingRouteDirection)
    ensures Contains(s, Stops.Arrow) ==> r == ParseDirection(Split(s, Stops.Arrow)[1])
  {
    SplitSingle(s, Stops.Arrow);
    var target :- OkOr(Nth(Split(s, Stops.Arrow), 1), MissingRouteDirection);
    ParseDirection(target)
  }

  /** The older route direction accepts exactly the current one's Airport and
      Rawai answers and names the same terminal; Kata and Patong are rejected. */
  lemma RouteDirectionNarrower(s: string)
    ensures ParseRouteDirection(s).Ok? <==>
              Stops.ParseRouteDirection(s).Ok? &&
              (Stops.ParseRouteDirection(s).value == Terminals.Airport ||
               Stops.ParseRouteDirection(s).value == Terminals.Rawai)
    ensures ParseRouteDirection(s).Ok? ==>
              Stops.ParseRouteDirection(s) == Ok(AsTerminal(ParseRouteDirection(s).value))
  {
    if Contains(s, Stops.Arrow) {
      var w := Split(s, Stops.Arrow)[1];
      Terminals.ParseExactlyKeyword(Terminals.Airport, w);
      Terminals.ParseExactlyKeyword(Terminals.Rawai, w);
    }
  }

  /** A stop of the older table. */
  datatype BusStop = BusStop(
    order: nat,
    nameTh: string,
    name: string,
    description: Option<string>,
    routeDirection: Direction,
    longitude: int,
    latitude: int,
    schedule: seq<Time>,
    icon: string,
    color: string,
    uniqueId: Option<nat>,
    image: string,
    mapLink: string,
    display: bool)

  /** The fields read before the timetable cell. */
  datatype Head = Head(order: nat, nameTh: string, name: string, description: Option<string>,
                       routeDirection: Direction, longitude: int, latitude: int)

  /** Cells 0 to 6 are text and the order, route direction and both coordinates read. */
  predicate HeadReads(f: Parsers, cells: seq<Option<string>>) {
    && |cells| == 14
    && (forall i :: 0 <= i < 7 ==> cells[i].Some?)
    && ParseUnsigned(cells[0].value, UsizeMax).Some?
    && ParseRouteDirection(cells[4].value).Ok?
    && f.double(cells[5].value).Some?
    && f.double(cells[6].value).Some?
  }

  /** Cells 0 to 3: order, names as they are, and description. */
  function DecodeNames(cells: seq<Option<string>>): (r: Result<(nat, string, string, Option<string>)>)
    requires |cells| == 14
    ensures r.Ok? <==> (forall i :: 0 <= i < 4 ==> cells[i].Some?)
                       && ParseUnsigned(cells[0].value, UsizeMax).Some?
    ensures r.Ok? ==>
              && Some(r.value.0) == ParseUnsigned(cells[0].value, UsizeMax)
              && r.value.1 == cells[1].value
              && r.value.2 == cells[2].value
              && r.value.3 == Stops.ParseDescription(cells[3].value)
  {
    var orderText :- Cell(cells, 0);
    var order :- OkOr(ParseUnsigned(orderText, UsizeMax), BadInteger(orderText));
    var nameTh :- Cell(cells, 1);
    var name :- Cell(cells, 2);
    var descriptionText :- Cell(cells, 3);
    Ok((order, nameTh, name, Stops.ParseDescription(descriptionText)))
  }

  /** Cells 4 to 6: the route direction, then column 5 as the longitude and
      column 6 as the latitude. */
  function DecodePlace(f: Parsers, cells: seq<Option<string>>): (r: Result<(Direction, int, int)>)
    requires |cells| == 14
    ensures r.Ok? <==> (forall i :: 4 <= i < 7 ==> cells[i].Some?)
                       && ParseRouteDirection(cells[4].value).Ok?
                       && f.double(cells[5].value).Some?
                       && f.double(cells[6].value).Some?
    ensures r.Ok? ==>
              && Ok(r.value.0) == ParseRouteDirection(cells[4].value)
              && Some(r.value.1) == f.double(cells[5].value)
              && Some(r.value.2) == f.double(cells[6].value)
  {
    var routeText :- Cell(cells, 4);
    var routeDirection :- ParseRouteDirection(routeText);
    var longitudeText :- Cell(cells, 5);
    var longitude :- OkOr(f.double(longitudeText), BadNumber(longitudeText));
    var latitudeText :- Cell(cells, 6);
    var latitude :- OkOr(f.double(latitudeText), BadNumber(latitudeText));
    Ok((routeDirection, longitude, latitude))
  }

  /** Cells 0 to 6, read in column order: names as they are, column 5 the
      longitude and column 6 the latitude. */
  function DecodeHead(f: Parsers, cells: seq<Option<string>>): (r: Result<Head>)
    requires |cells| == 14
    ensures r.Ok? <==> HeadReads(f, cells)
    ensures r.Ok? ==>
              && Some(r.value.order) == ParseUnsigned(cells[0].value, UsizeMax)
              && r.value.nameTh == cells[1].value
              && r.value.name == cells[2].value
              && r.value.description == Stops.ParseDescription(cells[3].value)
              && Ok(r.value.routeDirection) == ParseRouteDirection(cells[4].value)
              && Some(r.value.longitude) == f.double(cells[5].value)
              && Some(r.value.latitude) == f.double(cells[6].value)
  {
    var names :- DecodeNames(cells);
    var place :- DecodePlace(f, cells);
    Ok(Head(names.0, names.1, names.2, names.3, place.0, place.1, place.2))
  }

  /** A row gets as far as the timetable cell. */
  predicate ReachesTimes(f: Parsers, v: Value) {
    v.Array? && HeadReads(f, v.cells) && v.cells[7].Some?
  }

  /** The rows `DecodeStop` can be given: those whose timetable words, if
      reached, can be sliced. */
  ghost predicate StopDecodable(f: Parsers, v: Value) {
    ReachesTimes(f, v) ==> Stops.SliceSafe(f, Stops.Words(v.cells[7].value))
  }

  /** The row conditions under which `DecodeStop` succeeds. */
  ghost predicate StopAccepted(f: Parsers, v: Value) {
    && ReachesTimes(f, v)
    && Stops.SliceSafe(f, Stops.Words(v.cells[7].value))
    && Stops.Times(f, Stops.Words(v.cells[7].value)).Ok?
    && Stops.DecodeTail(v.cells).Ok?
  }

  /** `BusStop::try_from`: fourteen string cells; the timetable, description,
      unique id and display cells read as in the current stop row. */
  function DecodeStop(f: Parsers, v: Value): (r: Result<BusStop>)
    requires StopDecodable(f, v)
    ensures v.Scalar? ==> r == Err(ExpectedArray)
    ensures v.Array? && |v.cells| != 14 ==> r == Err(WrongArity(14, |v.cells|))
    ensures r.Ok? <==> StopAccepted(f, v)
    ensures r.Ok? ==>
              && DecodeHead(f, v.cells) == Ok(Head(r.value.order, r.value.nameTh, r.value.name,
                                                   r.value.description, r.value.routeDirection,
                                                   r.value.longitude, r.value.latitude))
              && Ok(r.value.schedule) == Stops.Times(f, Stops.Words(v.cells[7].value))
              && Stops.DecodeTail(v.cells) == Ok(Stops.Tail(r.value.icon, r.value.color, r.value.uniqueId,
                                                            r.value.image, r.value.mapLink, r.value.display))
  {
    var cells :- Cells(v, 14);
    var head :- DecodeHead(f, cells);
    var scheduleText :- Cell(cells, 7);
    var schedule :- Stops.Times(f, Stops.Words(scheduleText));
    var tail :- Stops.DecodeTail(cells);
    Ok(BusStop(head.order, head.nameTh, head.name, head.description, head.routeDirection,
               head.longitude, head.latitude, schedule, tail.icon, tail.color, tail.uniqueId,
               tail.image, tail.mapLink, tail.display))
  }

  /** A row whose route points at Kata or Patong decodes in the current
      revision's direction parser but fails here. */
  lemma SideTerminalRejected(f: Parsers, v: Value)
    requires v.Array? && |v.cells| == 14 && forall i :: 0 <= i < 14 ==> v.cells[i].Some?
    requires Stops.ParseRouteDirection(v.cells[4].value) == Ok(Terminals.Kata)
          || Stops.ParseRouteDirection(v.cells[4].value) == Ok(Terminals.Patong)
    ensures StopDecodable(f, v)
    ensures DecodeStop(f, v).Err?
  {
    RouteDirectionNarrower(v.cells[4].value);
  }

  /** Where both revisions accept a stop row, they agree on the order, the
      description, the timetable and the display flag; the current one trims
      the names the older one keeps as they are. */
  lemma StopRevisionsAgree(f: Parsers, v: Value)
    requires StopDecodable(f, v) && Stops.Decodable(f, v)
    requires DecodeStop(f, v).Ok? && Stops.Decode(f, v).Ok?
    ensures var legacy := DecodeStop(f, v).value;
            var current := Stops.Decode(f, v).value;
            && legacy.order == current.order
            && legacy.description == current.description
            && legacy.schedule == current.schedule
            && legacy.display == current.display
            && current.name == Trim(legacy.name)
            && current.nameTh == Trim(legacy.nameTh)
            && current.routeDirection == AsTerminal(legacy.routeDirection)
  {
    RouteDirectionNarrower(v.cells[4].value);
  }

  /** `parse_bus_stops`: the header skipped and every other row decoded; the
      first row that fails fails the sheet. */
  function ParseBusStops(f: Parsers, doc: Result<seq<Value>>): (r: Result<seq<BusStop>>)
    requires doc.Ok? ==> forall i :: 1 <= i < |doc.value| ==> StopDecodable(f, doc.value[i])
    ensures doc.Err? ==> r == Err(doc.error)
    ensures doc.Ok? && |doc.value| > 0 ==>
              (r.Ok? <==> forall i :: 1 <= i < |doc.value| ==> DecodeStop(f, doc.value[i]).Ok?)
    ensures r.Ok? && |doc.value| > 0 ==> |r.value| == |doc.value| - 1
    ensures r.Ok? && |doc.value| > 0 ==>
              forall i :: 1 <= i < |doc.value| ==> DecodeStop(f, doc.value[i]) == Ok(r.value[i - 1])
  {
    ParseAll(doc, v requires StopDecodable(f, v) => DecodeStop(f, v))
  }

  // ---------------------------------------------------------------------------
  // Buses

  /** `parse_buses`: the row decoder is the current `Bus::try_from`, unchanged;
      only the batch policy differs, one bad row failing the sheet. */
  function ParseBuses(f: Parsers, doc: Result<seq<Value>>): (r: Result<seq<Buses.Bus>>)
    ensures doc.Err? ==> r == Err(doc.error)
    ensures doc.Ok? && |doc.value| > 0 ==>
              (r.Ok? <==> forall i :: 1 <= i < |doc.value| ==> Buses.Accepted(f, doc.value[i]))
    ensures r.Ok? && |doc.value| > 0 ==> |r.value| == |doc.value| - 1
    ensures r.Ok? && |doc.value| > 0 ==>
              forall i :: 1 <= i < |doc.value| ==> Buses.Decode(f, doc.value[i]) == Ok(r.value[i - 1])
  {
    ParseAll(doc, v => Buses.Decode(f, v))
  }
}
