/** The bus-stop table (the "stops" sheet): one row per stop of a route, with
    its position in the route, names, coordinates and timetable. */
module Stops {
  import opened Wrappers
  import opened Text
  import opened Formats
  import opened Terminals
  import opened Rows

  /** A point as two coordinate keys; the model keeps only their order. */
  datatype Coordinates = Coordinates(longitude: int, latitude: int)

  datatype Stop = Stop(
    order: nat,
    nameTh: string,
    name: string,
    description: Option<string>,
    routeDirection: Terminal,   // the terminal this stop's route runs towards
    coordinates: Coordinates,
    schedule: seq<Time>,
    icon: string,
    color: string,
    uniqueId: Option<nat>,
    image: string,
    mapLink: string,
    display: bool)

  /** `BusDisplay::from_str`: "on" shows the stop, "off" hides it. */
  function ParseDisplay(s: string): (r: Result<bool>)
    ensures r == Ok(true) <==> s == "on"
    ensures r == Ok(false) <==> s == "off"
    ensures r.Err? ==> r.error == UnknownDisplay(s)
  {
    if s == "on" then Ok(true)
    else if s == "off" then Ok(false)
    else Err(UnknownDisplay(s))
  }

  const Arrow: string := " --> "

  /** `RouteDirection::from_str`: the text after the first " --> " (up to any
      second one) names the terminal, as in "Rawai --> Airport". */
  function ParseRouteDirection(s: string): (r: Result<Terminal>)
    ensures !Contains(s, Arrow) ==> r == Err(MissingRouteDirection)
    ensures Contains(s, Arrow) ==> r == Terminals.Parse(Split(s, Arrow)[1])
  {
    SplitSingle(s, Arrow);
    var target :- OkOr(Nth(Split(s, Arrow), 1), MissingRouteDirection);
    Terminals.Parse(target)
  }

  /** A cell "<from> --> <terminal>" whose origin holds no arrow names the terminal. */
  lemma RouteDirectionOfArrow(from: string, t: Terminal)
    requires !Contains(from, Arrow)
    requires forall j :: 0 <= j < |from| ==> !OccursAt(from + Arrow + Keyword(t), Arrow, j)
    ensures ParseRouteDirection(from + Arrow + Keyword(t)) == Ok(t)
  {
    KeywordLacksArrow(t);
    SplitSecondPiece(from, Arrow, Keyword(t));
    ParseKeyword(t);
  }

  /** No terminal keyword holds a space, let alone an arrow. */
  lemma KeywordLacksArrow(t: Terminal)
    ensures !Contains(Keyword(t), Arrow)
  {
    var k := Keyword(t);
    assert forall i :: 0 <= i < |k| ==> k[i] != ' ';
    forall i | 0 <= i <= |k| ensures !OccursAt(k, Arrow, i) {
      if i + |Arrow| <= |k| {
        assert k[i] != Arrow[0];
      }
    }
  }

  const BusStop: string := " Bus Stop "

  /** `StopDescription::from_str`: the text after the first " Bus Stop ", up to a
      second one; never an error. */
  function ParseDescription(s: string): (r: Option<string>)
    ensures r.None? <==> !Contains(s, BusStop)
    ensures r.Some? ==> !Contains(r.value, BusStop)
    ensures r.Some? ==> var after := s[IndexOf(s, BusStop).value + |BusStop|..];
                        |r.value| <= |after| && r.value == after[..|r.value|]
    ensures r.Some? ==> var after := s[IndexOf(s, BusStop).value + |BusStop|..];
                        r.value == if Contains(after, BusStop) then after[..IndexOf(after, BusStop).value] else after
  {
    SplitSingle(s, BusStop);
    SplitPiecesLackPattern(s, BusStop);
    if Contains(s, BusStop) then
      var i := IndexOf(s, BusStop).value;
      SplitUnfold(s, BusStop, i);
      FirstPiecePrefix(s[i + |BusStop|..], BusStop);
      Nth(Split(s, BusStop), 1)
    else
      Nth(Split(s, BusStop), 1)
  }

  /** The first piece of a split is where the text begins. */
  lemma FirstPiecePrefix(s: string, p: string)
    requires |p| > 0
    ensures |Split(s, p)[0]| <= |s| && Split(s, p)[0] == s[..|Split(s, p)[0]|]
  {
  }

  /** With a single " Bus Stop ", the description is everything after it. */
  lemma DescriptionAfterMarker(a: string, b: string)
    requires !Contains(a, BusStop) && !Contains(b, BusStop)
    requires forall j :: 0 <= j < |a| ==> !OccursAt(a + BusStop + b, BusStop, j)
    ensures ParseDescription(a + BusStop + b) == Some(b)
  {
    SplitSecondPiece(a, BusStop, b);
  }

  // ---------------------------------------------------------------------------
  // Timetable cell

  /** The clean-up applied to a timetable cell before it is cut into words:
      "AM," and "PM," become a space, remaining "AM"/"PM" are deleted, and
      commas become colons. */
  function Normalise(s: string): (r: string)
    ensures ',' !in r
  {
    var t := Replace(Replace(Replace(Replace(s, "AM,", " "), "PM,", " "), "AM", ""), "PM", "");
    ReplaceRemovesChar(t, ',', ":");
    Replace(t, ",", ":")
  }

  /** The first four bytes of a word, where the slice `&word[0..4]` is defined. */
  function Clock(word: string): (r: Option<string>)
    ensures r.Some? ==> |r.value| <= |word| && r.value == word[..|r.value|] && Utf8Size(r.value) == 4
    ensures r.None? ==> forall k :: 0 <= k <= |word| ==> Utf8Size(word[..k]) != 4
  {
    BytePrefix(word, 4)
  }

  /** The words are read in order until one fails, so a word is sliced only when
      every word before it parsed: this is what keeps the slice from panicking. */
  ghost predicate SliceSafe(f: Parsers, words: seq<string>) {
    |words| == 0 ||
    (Clock(words[0]).Some? && (f.hm(Clock(words[0]).value).Some? ==> SliceSafe(f, words[1..])))
  }

  /** Every word has a clock that reads, and `ts` holds the readings in order. */
  ghost predicate ReadsAll(f: Parsers, words: seq<string>, ts: seq<Time>) {
    |ts| == |words| &&
    forall i :: 0 <= i < |words| ==> Clock(words[i]).Some? && f.hm(Clock(words[i]).value) == Some(ts[i])
  }

  /** Word `i` is the first whose clock does not read, and `e` reports that clock. */
  ghost predicate FirstBadAt(f: Parsers, words: seq<string>, i: int, e: Error) {
    0 <= i < |words| && Clock(words[i]).Some? && f.hm(Clock(words[i]).value).None?
    && e == BadTime(Clock(words[i]).value)
    && forall j :: 0 <= j < i ==> Clock(words[j]).Some? && f.hm(Clock(words[j]).value).Some?
  }

  /** `Schedule::from_str` after normalising: every word's first four bytes read
      as "%H:%M"; the first word that does not read fails the cell. */
  function Times(f: Parsers, words: seq<string>): (r: Result<seq<Time>>)
    requires SliceSafe(f, words)
    ensures r.Ok? ==> ReadsAll(f, words, r.value)
    ensures r.Err? ==> exists i :: FirstBadAt(f, words, i, r.error)
  {
    if |words| == 0 then Ok([])
    else
      var clock := Clock(words[0]).value;
      match f.hm(clock)
      case None =>
        assert FirstBadAt(f, words, 0, BadTime(clock));
        Err(BadTime(clock))
      case Some(t) =>
        match Times(f, words[1..])
        case Err(e) =>
          FirstBadLater(f, words, e);
          Err(e)
        case Ok(rest) =>
          ReadsAllCons(f, words, t, rest);
          Ok([t] + rest)
  }

  /** A first failure among the later words is the first failure overall when
      the leading word reads. */
  lemma FirstBadLater(f: Parsers, words: seq<string>, e: Error)
    requires |words| > 0 && Clock(words[0]).Some? && f.hm(Clock(words[0]).value).Some?
    requires exists i :: FirstBadAt(f, words[1..], i, e)
    ensures exists i :: FirstBadAt(f, words, i, e)
  {
    var i :| FirstBadAt(f, words[1..], i, e);
    assert words[1..][i] == words[i + 1];
    forall j | 0 <= j < i + 1
      ensures Clock(words[j]).Some? && f.hm(Clock(words[j]).value).Some?
    {
      if j > 0 { assert words[1..][j - 1] == words[j]; }
    }
    assert FirstBadAt(f, words, i + 1, e);
  }

  /** Readings of the later words extend by the leading word's reading. */
  lemma ReadsAllCons(f: Parsers, words: seq<string>, t: Time, rest: seq<Time>)
    requires |words| > 0 && Clock(words[0]).Some? && f.hm(Clock(words[0]).value) == Some(t)
    requires ReadsAll(f, words[1..], rest)
    ensures ReadsAll(f, words, [t] + rest)
  {
    forall i | 0 <= i < |words|
      ensures Clock(words[i]).Some? && f.hm(Clock(words[i]).value) == Some(([t] + rest)[i])
    {
      if i > 0 { assert words[1..][i - 1] == words[i]; }
    }
  }

  /** Words of at least four ASCII characters can always be sliced. */
  lemma {:induction false} AsciiWordsSafe(f: Parsers, words: seq<string>)
    requires forall i :: 0 <= i < |words| ==> |words[i]| >= 4 && IsAscii(words[i][..4])
    ensures SliceSafe(f, words)
    decreases |words|
  {
    if |words| > 0 {
      AsciiBytePrefix(words[0], 4);
      assert forall i :: 0 <= i < |words[1..]| ==> words[1..][i] == words[i + 1];
      AsciiWordsSafe(f, words[1..]);
    }
  }

  /** The words of a timetable cell, as the slicing step receives them. */
  function Words(s: string): (r: seq<string>)
    ensures forall i :: 0 <= i < |r| ==> IsWord(r[i]) && ',' !in r[i]
  {
    var n := Normalise(s);
    TokensCoverText(n);
    WordsLackChar(Tokens(n), ',');
    Tokens(n)
  }

  /** A text that contains `p + q` contains `p`. */
  lemma ContainsLonger(s: string, p: string, q: string)
    requires Contains(s, p + q)
    ensures Contains(s, p)
  {
    var i :| 0 <= i <= |s| && OccursAt(s, p + q, i);
    assert forall k :: 0 <= k < |p| ==> (p + q)[k] == p[k];
    assert OccursAt(s, p, i);
  }

  /** Text without a comma and without an "AM" or "PM" marker is left as it is
      by the clean-up, so its words are its ASCII-whitespace tokens. */
  lemma WordsOfCleanText(s: string)
    requires ',' !in s && !Contains(s, "AM") && !Contains(s, "PM")
    ensures Normalise(s) == s
    ensures Words(s) == Tokens(s)
  {
    if Contains(s, "AM,") { assert "AM," == "AM" + ","; ContainsLonger(s, "AM", ","); }
    if Contains(s, "PM,") { assert "PM," == "PM" + ","; ContainsLonger(s, "PM", ","); }
    forall i | 0 <= i <= |s| ensures !OccursAt(s, ",", i) {
      if i < |s| { OccursAtChar(s, ',', i); }
    }
  }

  /** A character missing from a text is missing from each of its words. */
  lemma {:induction false} WordsLackChar(words: seq<string>, c: char)
    requires c !in Concat(words)
    ensures forall i :: 0 <= i < |words| ==> c !in words[i]
    decreases |words|
  {
    if |words| > 0 {
      assert Concat(words) == words[0] + Concat(words[1..]);
      assert forall i :: 0 <= i < |words[1..]| ==> words[1..][i] == words[i + 1];
      WordsLackChar(words[1..], c);
    }
  }

  // ---------------------------------------------------------------------------
  // Row

  /** The fields read before the timetable cell. */
  datatype Head = Head(order: nat, nameTh: string, name: string, description: Option<string>,
                       routeDirection: Terminal, coordinates: Coordinates)

  /** The fields read after it. */
  datatype Tail = Tail(icon: string, color: string, uniqueId: Option<nat>, image: string,
                       mapLink: string, display: bool)

  /** Cells 0 to 6 are text and the order, route direction and both coordinates read. */
  predicate HeadReads(f: Parsers, cells: seq<Option<string>>) {
    && |cells| == 14
    && (forall i :: 0 <= i < 7 ==> cells[i].Some?)
    && ParseUnsigned(cells[0].value, UsizeMax).Some?
    && ParseRouteDirection(cells[4].value).Ok?
    && f.single(cells[6].value).Some?
    && f.single(cells[5].value).Some?
  }

  /** Cells 0 to 3: order, names and description, names trimmed. */
  function DecodeNames(cells: seq<Option<string>>): (r: Result<(nat, string, string, Option<string>)>)
    requires |cells| == 14
    ensures r.Ok? <==> (forall i :: 0 <= i < 4 ==> cells[i].Some?)
                       && ParseUnsigned(cells[0].value, UsizeMax).Some?
    ensures r.Ok? ==>
              && Some(r.value.0) == ParseUnsigned(cells[0].value, UsizeMax)
              && r.value.1 == Trim(cells[1].value)
              && r.value.2 == Trim(cells[2].value)
              && r.value.3 == ParseDescription(cells[3].value)
  {
    var orderText :- Cell(cells, 0);
    var order :- OkOr(ParseUnsigned(orderText, UsizeMax), BadInteger(orderText));
    var nameTh :- Cell(cells, 1);
    var name :- Cell(cells, 2);
    var descriptionText :- Cell(cells, 3);
    Ok((order, Trim(nameTh), Trim(name), ParseDescription(descriptionText)))
  }

  /** Cells 4 to 6: the route direction, then the coordinates, column 6
      before column 5. */
  function DecodePlace(f: Parsers, cells: seq<Option<string>>): (r: Result<(Terminal, Coordinates)>)
    requires |cells| == 14
    ensures r.Ok? <==> (forall i :: 4 <= i < 7 ==> cells[i].Some?)
                       && ParseRouteDirection(cells[4].value).Ok?
                       && f.single(cells[6].value).Some?
                       && f.single(cells[5].value).Some?
    ensures r.Ok? ==>
              && Ok(r.value.0) == ParseRouteDirection(cells[4].value)
              && Some(r.value.1.longitude) == f.single(cells[6].value)
              && Some(r.value.1.latitude) == f.single(cells[5].value)
  {
    var routeText :- Cell(cells, 4);
    var routeDirection :- ParseRouteDirection(routeText);
    var longitudeText :- Cell(cells, 6);
    var longitude :- OkOr(f.single(longitudeText), BadNumber(longitudeText));
    var latitudeText :- Cell(cells, 5);
    var latitude :- OkOr(f.single(latitudeText), BadNumber(latitudeText));
    Ok((routeDirection, Coordinates(longitude, latitude)))
  }

  /** Cells 0 to 6, in the order the row reads them (column 6 before column 5). */
  function DecodeHead(f: Parsers, cells: seq<Option<string>>): (r: Result<Head>)
    requires |cells| == 14
    ensures r.Ok? <==> HeadReads(f, cells)
    ensures r.Ok? ==>
              && Some(r.value.order) == ParseUnsigned(cells[0].value, UsizeMax)
              && r.value.nameTh == Trim(cells[1].value)
              && r.value.name == Trim(cells[2].value)
              && r.value.description == ParseDescription(cells[3].value)
              && Ok(r.value.routeDirection) == ParseRouteDirection(cells[4].value)
              && Some(r.value.coordinates.longitude) == f.single(cells[6].value)
              && Some(r.value.coordinates.latitude) == f.single(cells[5].value)
  {
    var names :- DecodeNames(cells);
    var place :- DecodePlace(f, cells);
    Ok(Head(names.0, names.1, names.2, names.3, place.0, place.1))
  }

  /** Cells 8 to 13: copied text, an optional unique id and the display flag. */
  function DecodeTail(cells: seq<Option<string>>): (r: Result<Tail>)
    requires |cells| == 14
    ensures r.Ok? <==> (forall i :: 8 <= i < 14 ==> cells[i].Some?) && ParseDisplay(cells[13].value).Ok?
    ensures r.Ok? ==>
              && r.value.icon == cells[8].value
              && r.value.color == cells[9].value
              && r.value.uniqueId == ParseUnsigned(cells[10].value, UsizeMax)
              && r.value.image == cells[11].value
              && r.value.mapLink == cells[12].value
              && Ok(r.value.display) == ParseDisplay(cells[13].value)
  {
    var icon :- Cell(cells, 8);
    var color :- Cell(cells, 9);
    var uniqueIdText :- Cell(cells, 10);
    var image :- Cell(cells, 11);
    var mapLink :- Cell(cells, 12);
    var displayText :- Cell(cells, 13);
    var display :- ParseDisplay(displayText);
    Ok(Tail(icon, color, ParseUnsigned(uniqueIdText, UsizeMax), image, mapLink, display))
  }

  /** A row gets as far as the timetable cell. */
  predicate ReachesTimes(f: Parsers, v: Value) {
    v.Array? && HeadReads(f, v.cells) && v.cells[7].Some?
  }

  /** The rows `Decode` can be given: those whose timetable words, if reached,
      can be sliced. */
  ghost predicate Decodable(f: Parsers, v: Value) {
    ReachesTimes(f, v) ==> SliceSafe(f, Words(v.cells[7].value))
  }

  /** The row conditions under which `Decode` succeeds. */
  ghost predicate Accepted(f: Parsers, v: Value) {
    && ReachesTimes(f, v)
    && SliceSafe(f, Words(v.cells[7].value))
    && Times(f, Words(v.cells[7].value)).Ok?
    && DecodeTail(v.cells).Ok?
  }

  /** `Stop::try_from`: an array of exactly fourteen string cells. Names are
      trimmed, the coordinate columns are crossed (column 6 is the longitude,
      column 5 the latitude), and an unreadable unique id is simply absent. */
  function Decode(f: Parsers, v: Value): (r: Result<Stop>)
    requires Decodable(f, v)
    ensures v.Scalar? ==> r == Err(ExpectedArray)
    ensures v.Array? && |v.cells| != 14 ==> r == Err(WrongArity(14, |v.cells|))
    ensures r.Ok? <==> Accepted(f, v)
    ensures r.Ok? ==>
              && DecodeHead(f, v.cells) == Ok(Head(r.value.order, r.value.nameTh, r.value.name,
                                                   r.value.description, r.value.routeDirection,
                                                   r.value.coordinates))
              && Ok(r.value.schedule) == Times(f, Words(v.cells[7].value))
              && DecodeTail(v.cells) == Ok(Tail(r.value.icon, r.value.color, r.value.uniqueId,
                                                r.value.image, r.value.mapLink, r.value.display))
  {
    var cells :- Cells(v, 14);
    var head :- DecodeHead(f, cells);
    var scheduleText :- Cell(cells, 7);
    var schedule :- Times(f, Words(scheduleText));
    var tail :- DecodeTail(cells);
    Ok(Stop(head.order, head.nameTh, head.name, head.description, head.routeDirection,
            head.coordinates, schedule, tail.icon, tail.color, tail.uniqueId, tail.image,
            tail.mapLink, tail.display))
  }

  /** Whatever the unique-id cell says, it never decides whether the row decodes. */
  lemma UniqueIdNeverFails(f: Parsers, cells: seq<Option<string>>, other: string)
    requires |cells| == 14 && cells[10].Some?
    requires Decodable(f, Array(cells))
    ensures Decodable(f, Array(cells[10 := Some(other)]))
    ensures Decode(f, Array(cells)).Ok? == Decode(f, Array(cells[10 := Some(other)])).Ok?
  {
    var changed := cells[10 := Some(other)];
    assert forall i :: 0 <= i < 14 && i != 10 ==> changed[i] == cells[i];
    assert HeadReads(f, changed) == HeadReads(f, cells);
  }

  /** Whitespace around the names is dropped. */
  lemma NamesTrimmed(f: Parsers, v: Value)
    requires Decodable(f, v)
    requires Decode(f, v).Ok?
    ensures var n := Decode(f, v).value.name;
            |n| > 0 ==> !IsWhiteSpace(n[0]) && !IsWhiteSpace(n[|n| - 1])
  {
  }
}
